/** Unsigned machine words as their bits, most significant first, with the mask
    arithmetic the runtime uses. */
module Words {
  type Word = seq<bool>

  function Ones(width: nat): (w: Word)
    ensures |w| == width && forall i | 0 <= i < width :: w[i]
  {
    seq(width, _ => true)
  }

  function Zeros(width: nat): (w: Word)
    ensures |w| == width && forall i | 0 <= i < width :: !w[i]
  {
    seq(width, _ => false)
  }

  /** `<<`: the high bits fall out, zeros come in. */
  function Shl(w: Word, k: nat): Word
    requires k <= |w|
  {
    w[k..] + Zeros(k)
  }

  /** `&` */
  function And(a: Word, b: Word): (w: Word)
    requires |a| == |b|
    ensures |w| == |a| && forall i | 0 <= i < |a| :: w[i] == (a[i] && b[i])
  {
    seq(|a|, i requires 0 <= i < |a| => a[i] && b[i])
  }

  /** `word & (1 << k) != 0` for a word of `width` bits. */
  predicate TestBit(w: Word, k: nat)
    requires k < |w|
  {
    And(w, Shl(Zeros(|w| - 1) + [true], k)) != Zeros(|w|)
  }

  lemma TestBitReadsBit(w: Word, k: nat)
    requires k < |w|
    ensures TestBit(w, k) <==> w[|w| - 1 - k]
  {
    var one := Shl(Zeros(|w| - 1) + [true], k);
    assert forall i | 0 <= i < |w| :: one[i] <==> i == |w| - 1 - k;
    assert w[|w| - 1 - k] ==> And(w, one)[|w| - 1 - k] != Zeros(|w|)[|w| - 1 - k];
    assert !w[|w| - 1 - k] ==> And(w, one) == Zeros(|w|);
  }

  /** The mask `MAX << (width - length)`. */
  function PrefixMask(width: nat, length: nat): Word
    requires length <= width
  {
    Shl(Ones(width), width - length)
  }

  /** Masked comparison of a network and an address; a zero length never shifts. */
  predicate Matches(network: Word, target: Word, length: nat)
    requires |network| == |target| && length <= |network|
  {
    length == 0 || And(network, PrefixMask(|network|, length)) == And(target, PrefixMask(|network|, length))
  }

  /** Masked equality is agreement on the leading bits, for every length. */
  lemma MatchesLeadingBits(network: Word, target: Word, length: nat)
    requires |network| == |target| && length <= |network|
    ensures Matches(network, target, length) <==> network[..length] == target[..length]
  {
    var mask := PrefixMask(|network|, length);
    assert forall i | 0 <= i < |network| :: mask[i] <==> i < length;
    if Matches(network, target, length) && length > 0 {
      forall i | 0 <= i < length
        ensures network[i] == target[i]
      {
        assert And(network, mask)[i] == And(target, mask)[i];
      }
    }
    if network[..length] == target[..length] {
      assert forall i | 0 <= i < length :: network[..length][i] == network[i] && target[..length][i] == target[i];
      assert And(network, mask) == And(target, mask);
    }
  }
}

/** The words above are the machine integers: every operation on bits is the
    integer operation of the same name. */
module WordValues {
  import opened Words

  function Pow2(n: nat): (p: nat)
    ensures p > 0
  {
    if n == 0 then 1 else 2 * Pow2(n - 1)
  }

  /** The unsigned integer a word denotes. */
  function Value(w: Word): nat {
    if w == [] then 0 else 2 * Value(w[..|w| - 1]) + if w[|w| - 1] then 1 else 0
  }

  lemma {:induction false} ValueBound(w: Word)
    ensures Value(w) < Pow2(|w|)
  {
    if w != [] {
      ValueBound(w[..|w| - 1]);
    }
  }

  lemma {:induction false} PowersAdd(a: nat, b: nat)
    ensures Pow2(a + b) == Pow2(a) * Pow2(b)
  {
    if b > 0 {
      PowersAdd(a, b - 1);
      assert Pow2(a + b) == 2 * (Pow2(a) * Pow2(b - 1));
    }
  }

  lemma {:induction false} ValueConcat(a: Word, b: Word)
    ensures Value(a + b) == Value(a) * Pow2(|b|) + Value(b)
  {
    if b == [] {
      assert a + b == a;
    } else {
      var n := |b| - 1;
      ValueConcat(a, b[..n]);
      assert (a + b)[..|a + b| - 1] == a + b[..n];
      assert Value(a) * Pow2(|b|) == 2 * (Value(a) * Pow2(n));
    }
  }

  lemma {:induction false} ValueOfZeros(k: nat)
    ensures Value(Zeros(k)) == 0
  {
    if k > 0 {
      ValueOfZeros(k - 1);
      assert Zeros(k)[..k - 1] == Zeros(k - 1);
    }
  }

  /** Words of one width are equal exactly when their integers are. */
  lemma {:induction false} SameValueSameWord(a: Word, b: Word)
    requires |a| == |b|
    ensures Value(a) == Value(b) <==> a == b
  {
    if a != [] {
      var n := |a| - 1;
      SameValueSameWord(a[..n], b[..n]);
      assert a == a[..n] + [a[n]] && b == b[..n] + [b[n]];
    }
  }

  /** `MAX` is all ones. */
  lemma {:induction false} OnesAreMax(width: nat)
    ensures Value(Ones(width)) == Pow2(width) - 1
  {
    if width > 0 {
      OnesAreMax(width - 1);
      assert Ones(width)[..width - 1] == Ones(width - 1);
    }
  }

  /** Shifting left is multiplying by a power of two and dropping what does not fit. */
  lemma ShlIsMultiply(w: Word, k: nat)
    requires k <= |w|
    ensures exists dropped: nat :: Value(w) * Pow2(k) == dropped * Pow2(|w|) + Value(Shl(w, k))
    ensures Value(Shl(w, k)) < Pow2(|w|)
  {
    var high, low := w[..k], w[k..];
    assert w == high + low;
    ValueConcat(high, low);
    ValueConcat(low, Zeros(k));
    ValueOfZeros(k);
    PowersAdd(|low|, k);
    ValueBound(Shl(w, k));
    var h, l, p, q := Value(high), Value(low), Pow2(|low|), Pow2(k);
    Distribute(h, p, l, q);
    assert Value(w) * Pow2(k) == h * Pow2(|w|) + Value(Shl(w, k));
  }

  /** The mask as an integer: `length` ones above `width - length` zeros. */
  lemma MaskValue(width: nat, length: nat)
    requires length <= width
    ensures Value(PrefixMask(width, length)) == (Pow2(length) - 1) * Pow2(width - length)
  {
    var zeros := width - length;
    assert PrefixMask(width, length) == Ones(length) + Zeros(zeros);
    ValueConcat(Ones(length), Zeros(zeros));
    OnesAreMax(length);
    ValueOfZeros(zeros);
  }

  lemma Distribute(h: nat, p: nat, l: nat, q: nat)
    ensures (h * p + l) * q == h * (p * q) + l * q
  {
    assert (h * p + l) * q == h * p * q + l * q;
    assert h * p * q == h * (p * q);
  }

  /** Bit `j` of an integer, counted from the least significant. */
  function BitAt(v: nat, j: nat): nat {
    v / Pow2(j) % 2
  }

  lemma {:induction false} BitOfValue(w: Word, j: nat)
    requires j < |w|
    ensures BitAt(Value(w), j) == if w[|w| - 1 - j] then 1 else 0
  {
    var n := |w| - 1;
    if j > 0 {
      BitOfValue(w[..n], j - 1);
      HalfThenDivide(Value(w[..n]), if w[n] then 1 else 0, Pow2(j - 1));
      assert Value(w) / Pow2(j) == Value(w[..n]) / Pow2(j - 1);
    }
  }

  lemma HalfThenDivide(v: nat, bit: nat, p: nat)
    requires bit <= 1 && p > 0
    ensures (2 * v + bit) / (2 * p) == v / p
  {
    var q, r := v / p, v % p;
    assert v == q * p + r;
    assert 2 * v + bit == q * (2 * p) + (2 * r + bit);
    DivideExact(2 * v + bit, 2 * p, q, 2 * r + bit);
  }

  lemma DivideExact(x: nat, n: nat, q: nat, r: nat)
    requires n > 0 && r < n && x == q * n + r
    ensures x / n == q
  {
    var d := x / n - q;
    assert d * n == r - x % n;
    assert d >= 1 ==> d * n >= n;
    assert d <= -1 ==> d * n <= 0 - n;
  }

  /** The value of the leading bits is what an integer division leaves. */
  lemma LeadingBitsDivide(w: Word, length: nat)
    requires length <= |w|
    ensures Value(w) / Pow2(|w| - length) == Value(w[..length])
  {
    var high, low := w[..length], w[length..];
    assert w == high + low;
    ValueConcat(high, low);
    ValueBound(low);
    DivideExact(Value(w), Pow2(|low|), Value(high), Value(low));
  }

  /** Masked comparison as integers: the addresses agree after dividing away the host part. */
  lemma MatchesIsDivision(network: Word, target: Word, length: nat)
    requires |network| == |target| && length <= |network|
    ensures Matches(network, target, length)
            <==> Value(network) / Pow2(|network| - length) == Value(target) / Pow2(|network| - length)
  {
    MatchesLeadingBits(network, target, length);
    LeadingBitsDivide(network, length);
    LeadingBitsDivide(target, length);
    SameValueSameWord(network[..length], target[..length]);
  }

  /** A bit of `&` is set exactly when both operands have it set. */
  lemma AndIsBitwise(a: Word, b: Word, j: nat)
    requires |a| == |b| && j < |a|
    ensures BitAt(Value(And(a, b)), j) == 1 <==> BitAt(Value(a), j) == 1 && BitAt(Value(b), j) == 1
  {
    BitOfValue(a, j);
    BitOfValue(b, j);
    BitOfValue(And(a, b), j);
  }
}

/** Addresses and flow keys. */
module Net {
  type U8 = n: nat | n < 0x100
  type U16 = n: nat | n < 0x1_0000
  type Bits32 = w: seq<bool> | |w| == 32 witness seq(32, _ => false)
  type Bits128 = w: seq<bool> | |w| == 128 witness seq(128, _ => false)

  datatype IpAddr = V4(v4: Bits32) | V6(v6: Bits128) {
    function Bits(): seq<bool> {
      match this case V4(bits) => bits case V6(bits) => bits
    }
  }

  datatype FlowKey = FlowKey(sourceIp: IpAddr, destinationIp: IpAddr, sourcePort: U16, destinationPort: U16, protocol: U8) {
    function Reverse(): FlowKey {
      FlowKey(destinationIp, sourceIp, destinationPort, sourcePort, protocol)
    }
  }
}
