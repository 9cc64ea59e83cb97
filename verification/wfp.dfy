/** WFP filter conditions: byte masks, and their translation to what the kernel takes. */
module WfpConditions {
  import opened Options
  import opened Words

  type Byte = b: Word | |b| == 8 witness Zeros(8)

  /** Bit `i` of a byte string, most significant first. */
  predicate Bit(s: seq<Byte>, i: nat)
    requires i < 8 * |s|
  {
    s[i / 8][i % 8]
  }

  datatype Condition = Condition(value: seq<Byte>, mask: Option<seq<Byte>>)

  /** `with_mask` insists on a mask as long as the value. */
  function WithMask(c: Condition, mask: seq<Byte>): Option<Condition> {
    if |mask| != |c.value| then None else Some(c.(mask := Some(mask)))
  }

  function Min(a: nat, b: nat): nat {
    if a < b then a else b
  }

  predicate MaskedEqual(value: seq<Byte>, mask: seq<Byte>, data: seq<Byte>)
    requires |value| <= |data|
  {
    forall i | 0 <= i < Min(|value|, |mask|) :: And(data[i], mask[i]) == And(value[i], mask[i])
  }

  /** Byte-wise masked comparison; a mask shorter than the value ends it early, as `zip` does. */
  predicate Matches(c: Condition, data: seq<Byte>) {
    && |data| >= |c.value|
    && match c.mask
       case Some(mask) => MaskedEqual(c.value, mask, data)
       case None => data[..|c.value|] == c.value
  }

  // ---- From a mask to a prefix length ----

  /** The first `n` bits are ones and the rest are zeros. */
  ghost predicate IsPrefixMask(mask: seq<Byte>, n: nat) {
    n <= 8 * |mask| && forall i | 0 <= i < 8 * |mask| :: Bit(mask, i) <==> i < n
  }

  /** What the scan knows after the first `seen` bits: it counted the ones, and
      `zero` tells whether a zero was met, after which only zeros followed. */
  ghost predicate Scanned(mask: seq<Byte>, seen: nat, n: nat, zero: bool) {
    && n <= seen <= 8 * |mask|
    && (forall i | 0 <= i < seen :: Bit(mask, i) <==> i < n)
    && (zero <==> n < seen)
  }

  /** What `prefix` answers; `Overflow` is the panic of a build that checks arithmetic. */
  datatype PrefixAnswer = Length(n: nat) | NotPrefix | Overflow

  /** The nested bit loop of `prefix`. The count is a `u8`: one past 255 it panics or wraps,
      as the build says. The slice may have any length, though the only caller passes 16 bytes. */
  method Prefix(mask: seq<Byte>, checked: bool) returns (answer: PrefixAnswer)
    ensures answer.Overflow? <==> checked && AllOnesBelow(mask, 256)
    ensures answer.NotPrefix? ==> forall n :: !IsPrefixMask(mask, n)
    ensures answer.Length? ==> exists n: nat :: IsPrefixMask(mask, n) && answer.n == n % 256
  {
    var n, zero := 0, false;
    ghost var ones: nat, wraps: nat := 0, 0;
    for i := 0 to |mask|
      invariant Scanned(mask, 8 * i, ones, zero)
      invariant ones == n + 256 * wraps && 0 <= n < 256 && (checked ==> wraps == 0)
    {
      for bit := 8 downto 0
        invariant Scanned(mask, 8 * i + 8 - bit, ones, zero)
        invariant ones == n + 256 * wraps && 0 <= n < 256 && (checked ==> wraps == 0)
      {
        ReadBit(mask, i, bit);
        ScanBit(mask, 8 * i + 7 - bit, ones, zero);
        if TestBit(mask[i], bit) {
          if zero {
            return NotPrefix;
          }
          if n == 255 {
            if checked {
              return Overflow;
            }
            wraps := wraps + 1;
          }
          n := if n == 255 then 0 else n + 1;
          ones := ones + 1;
        } else {
          zero := true;
        }
      }
    }
    ScanEnds(mask, ones, zero);
    return Length(n);
  }

  /** One more bit: a one after a zero means no prefix mask, and the 256th one in a row is bit 255. */
  lemma ScanBit(mask: seq<Byte>, seen: nat, ones: nat, zero: bool)
    requires seen < 8 * |mask| && Scanned(mask, seen, ones, zero)
    ensures Bit(mask, seen) && zero ==> (forall n :: !IsPrefixMask(mask, n)) && (ones < 256 ==> !AllOnesBelow(mask, 256))
    ensures Bit(mask, seen) && !zero ==> Scanned(mask, seen + 1, ones + 1, false) && (ones == 255 ==> AllOnesBelow(mask, 256))
    ensures !Bit(mask, seen) ==> Scanned(mask, seen + 1, ones, true)
  {
    if Bit(mask, seen) && zero {
      NotAPrefix(mask, ones, seen);
    }
  }

  lemma ScanEnds(mask: seq<Byte>, ones: nat, zero: bool)
    requires Scanned(mask, 8 * |mask|, ones, zero)
    ensures IsPrefixMask(mask, ones) && (AllOnesBelow(mask, 256) <==> ones >= 256)
  {
    assert AllOnesBelow(mask, 256) ==> Bit(mask, 255);
  }

  /** At least `n` bits, the first `n` of them ones. */
  ghost predicate AllOnesBelow(mask: seq<Byte>, n: nat) {
    n <= 8 * |mask| && forall i | 0 <= i < n :: Bit(mask, i)
  }

  /** The bit test inside the loop reads the next bit of the byte string. */
  lemma ReadBit(mask: seq<Byte>, i: nat, bit: nat)
    requires i < |mask| && bit < 8
    ensures TestBit(mask[i], bit) <==> Bit(mask, 8 * i + 7 - bit)
  {
    TestBitReadsBit(mask[i], bit);
    var at := 8 * i + 7 - bit;
    assert at / 8 == i && at % 8 == 7 - bit;
  }

  /** The answer is the number of leading ones exactly when it fits the `u8`; no mask
      shorter than 32 bytes overflows it. */
  lemma LengthFitsExactly(mask: seq<Byte>, n: nat)
    requires IsPrefixMask(mask, n)
    ensures IsPrefixMask(mask, n % 256) <==> n < 256
    ensures |mask| < 32 ==> n < 256
  {
    if IsPrefixMask(mask, n % 256) {
      PrefixIsUnique(mask, n, n % 256);
    }
  }

  lemma NotAPrefix(mask: seq<Byte>, gap: nat, one: nat)
    requires gap < one < 8 * |mask| && !Bit(mask, gap) && Bit(mask, one)
    ensures forall n :: !IsPrefixMask(mask, n)
  {
  }

  /** A mask denotes at most one length. */
  lemma PrefixIsUnique(mask: seq<Byte>, n: nat, m: nat)
    requires IsPrefixMask(mask, n) && IsPrefixMask(mask, m)
    ensures n == m
  {
    assert n < 8 * |mask| ==> !Bit(mask, n);
    assert m < 8 * |mask| ==> !Bit(mask, m);
  }

  // ---- Masked bytes and compared bits ----

  /** Agreement of two byte strings on their first `n` bits. */
  ghost predicate AgreeOn(a: seq<Byte>, b: seq<Byte>, n: nat)
    requires n <= 8 * |a| && n <= 8 * |b|
  {
    forall i | 0 <= i < n :: Bit(a, i) == Bit(b, i)
  }

  /** Masked equality of bytes compares exactly the bits the mask has set. */
  lemma MaskedIsBitwise(value: seq<Byte>, mask: seq<Byte>, data: seq<Byte>)
    requires |value| == |mask| <= |data|
    ensures MaskedEqual(value, mask, data) <==>
            forall i | 0 <= i < 8 * |mask| :: Bit(mask, i) ==> Bit(data, i) == Bit(value, i)
  {
    if MaskedEqual(value, mask, data) {
      forall i | 0 <= i < 8 * |mask| && Bit(mask, i)
        ensures Bit(data, i) == Bit(value, i)
      {
        var k := i / 8;
        assert And(data[k], mask[k])[i % 8] == And(value[k], mask[k])[i % 8];
      }
    }
    if forall i | 0 <= i < 8 * |mask| :: Bit(mask, i) ==> Bit(data, i) == Bit(value, i) {
      forall k | 0 <= k < |mask|
        ensures And(data[k], mask[k]) == And(value[k], mask[k])
      {
        forall j | 0 <= j < 8
          ensures And(data[k], mask[k])[j] == And(value[k], mask[k])[j]
        {
          var i := 8 * k + j;
          assert i / 8 == k && i % 8 == j;
          assert Bit(mask, i) ==> Bit(data, i) == Bit(value, i);
        }
      }
    }
  }

  /** Under an `n`-bit prefix mask, masked matching is agreement on the first `n` bits. */
  lemma PrefixMatchesLeadingBits(value: seq<Byte>, mask: seq<Byte>, data: seq<Byte>, n: nat)
    requires |value| == |mask| <= |data| && IsPrefixMask(mask, n)
    ensures MaskedEqual(value, mask, data) <==> AgreeOn(data, value, n)
  {
    MaskedIsBitwise(value, mask, data);
  }

  /** Without a mask the comparison is agreement on every bit of the value. */
  lemma NoMaskMatchesAllBits(value: seq<Byte>, data: seq<Byte>)
    requires |value| <= |data|
    ensures data[..|value|] == value <==> AgreeOn(data, value, 8 * |value|)
  {
    if data[..|value|] == value {
      forall i | 0 <= i < 8 * |value|
        ensures Bit(data, i) == Bit(value, i)
      {
        assert data[..|value|][i / 8] == data[i / 8];
      }
    }
    if AgreeOn(data, value, 8 * |value|) {
      forall k | 0 <= k < |value|
        ensures data[k] == value[k]
      {
        forall j | 0 <= j < 8
          ensures data[k][j] == value[k][j]
        {
          var i := 8 * k + j;
          assert i / 8 == k && i % 8 == j;
          assert Bit(data, i) == Bit(value, i);
        }
      }
    }
  }

  /** A condition holds of data at least as long as its value whose bits agree with it: all of
      them without a mask, and otherwise those the mask sets within the value. */
  lemma ConditionMeans(c: Condition, data: seq<Byte>)
    ensures Matches(c, data) <==>
            && |c.value| <= |data|
            && forall i | 0 <= i < 8 * |c.value| ::
                 (c.mask.None? || (i < 8 * |c.mask.value| && Bit(c.mask.value, i))) ==> Bit(data, i) == Bit(c.value, i)
  {
    if |c.value| <= |data| {
      if c.mask.None? {
        NoMaskMatchesAllBits(c.value, data);
      } else {
        var m := Min(|c.value|, |c.mask.value|);
        MaskedIsBitwise(c.value[..m], c.mask.value[..m], data);
        assert MaskedEqual(c.value, c.mask.value, data) <==> MaskedEqual(c.value[..m], c.mask.value[..m], data);
        assert forall i | 0 <= i < 8 * m :: Bit(c.value[..m], i) == Bit(c.value, i) && Bit(c.mask.value[..m], i) == Bit(c.mask.value, i);
      }
    }
  }

  /** A condition that went through `with_mask` compares exactly the bits its mask has set. */
  lemma WithMaskIsBitwise(c: Condition, mask: seq<Byte>, data: seq<Byte>)
    ensures WithMask(c, mask).Some? <==> |mask| == |c.value|
    ensures WithMask(c, mask).Some? ==>
              (Matches(WithMask(c, mask).value, data) <==>
               && |data| >= |c.value|
               && forall i | 0 <= i < 8 * |mask| :: Bit(mask, i) ==> Bit(data, i) == Bit(c.value, i))
  {
    if |mask| == |c.value| <= |data| {
      MaskedIsBitwise(c.value, mask, data);
    }
  }

  // ---- The native address condition ----

  type Quad = s: seq<Byte> | |s| == 4 witness [Zeros(8), Zeros(8), Zeros(8), Zeros(8)]

  /** How four bytes become one 32-bit integer. */
  datatype ByteOrder = BigEndian | LittleEndian

  datatype Native = V4(address: Word, mask: Word) | V6(address6: seq<Byte>, prefixLength: nat)

  /** What the kernel compares: masked 32-bit equality, the packet's address read in the
      kernel's order, or the leading bits of 128. */
  ghost predicate NativeMatches(native: Native, data: seq<Byte>, kernel: ByteOrder) {
    match native
    case V4(address, mask) =>
      && |data| == 4 && |address| == |mask| == 32
      && And(Joined(data, kernel), mask) == And(address, mask)
    case V6(address, prefixLength) =>
      |address| == |data| == 16 && prefixLength <= 128 && AgreeOn(data, address, prefixLength)
  }

  /** The byte at place `k` of a 32-bit integer, most significant first. */
  function ByteAt(s: seq<Byte>, order: ByteOrder, k: nat): Byte
    requires |s| == 4 && k < 4
  {
    if order == BigEndian then s[k] else s[3 - k]
  }

  /** Four bytes as one 32-bit integer. */
  function Joined(s: seq<Byte>, order: ByteOrder): (w: Word)
    requires |s| == 4
    ensures |w| == 32
  {
    seq(32, i requires 0 <= i < 32 => ByteAt(s, order, i / 8)[i % 8])
  }

  /** `address`: the translation of an address condition, or none when it cannot be
      expressed. The integers of an IPv4 condition are built in the order of the `host`. */
  method Translate(c: Condition, host: ByteOrder, checked: bool) returns (native: Option<Native>)
    ensures native.Some? <==>
            || (|c.value| == 4 && (c.mask.Some? ==> |c.mask.value| == 4))
            || (|c.value| == 16 && (c.mask.Some? ==> |c.mask.value| == 16 && exists n :: IsPrefixMask(c.mask.value, n)))
    ensures native.Some? ==> forall data: seq<Byte> | |data| == |c.value| ::
              NativeMatches(native.value, data, host) <==> Matches(c, data)
    ensures native.Some? && |c.value| == 16 ==> forall data: seq<Byte>, kernel ::
              NativeMatches(native.value, data, kernel) <==> NativeMatches(native.value, data, host)
    ensures native.Some? && |c.value| == 4 ==> native.value == V4(Joined(c.value, host), Joined(EffectiveMask(c), host))
    ensures native.Some? && |c.value| == 16 && c.mask.None? ==> native.value == V6(c.value, 128)
  {
    var mask := EffectiveMask(c);
    if |c.value| == 4 {
      if |mask| != 4 {
        return None;
      }
      native := Some(V4(Joined(c.value, host), Joined(mask, host)));
      forall data: seq<Byte> | |data| == 4
        ensures NativeMatches(native.value, data, host) <==> Matches(c, data)
      {
        JoinedMatches(c.value, mask, data, host, host);
        EffectiveMaskMatches(c, data);
      }
      return;
    } else if |c.value| == 16 {
      if |mask| != 16 {
        return None;
      }
      var length := Prefix(mask, checked);
      if c.mask.None? {
        AllOnes(mask);
      }
      if !length.Length? {
        return None;
      }
      ghost var n: nat :| IsPrefixMask(mask, n) && length.n == n % 256;
      LengthFitsExactly(mask, n);
      if c.mask.None? {
        PrefixIsUnique(mask, n, 128);
      }
      forall data: seq<Byte> | |data| == 16
        ensures NativeMatches(V6(c.value, n), data, host) <==> Matches(c, data)
      {
        PrefixMatchesLeadingBits(c.value, mask, data, n);
        EffectiveMaskMatches(c, data);
      }
      return Some(V6(c.value, length.n));
    }
    return None;
  }

  /** A missing mask counts as all ones. */
  function EffectiveMask(c: Condition): seq<Byte> {
    if c.mask.Some? then c.mask.value else seq(|c.value|, _ => Ones(8))
  }

  lemma EffectiveMaskMatches(c: Condition, data: seq<Byte>)
    requires |EffectiveMask(c)| == |c.value| <= |data|
    ensures Matches(c, data) <==> MaskedEqual(c.value, EffectiveMask(c), data)
  {
    if c.mask.None? {
      AllOnes(EffectiveMask(c));
      PrefixMatchesLeadingBits(c.value, EffectiveMask(c), data, 8 * |c.value|);
      NoMaskMatchesAllBits(c.value, data);
    }
  }

  lemma AllOnes(mask: seq<Byte>)
    requires forall i | 0 <= i < |mask| :: mask[i] == Ones(8)
    ensures IsPrefixMask(mask, 8 * |mask|)
  {
  }

  /** Comparing masked 32-bit integers is comparing masked bytes, each with the byte the
      two orders put at its place. */
  lemma JoinedMatches(value: seq<Byte>, mask: seq<Byte>, data: seq<Byte>, host: ByteOrder, kernel: ByteOrder)
    requires |value| == |mask| == |data| == 4
    ensures And(Joined(data, kernel), Joined(mask, host)) == And(Joined(value, host), Joined(mask, host))
            <==> MaskedEqual(value, mask, Arranged(data, host, kernel))
  {
    var d, v := And(Joined(data, kernel), Joined(mask, host)), And(Joined(value, host), Joined(mask, host));
    var arranged := Arranged(data, host, kernel);
    forall i | 0 <= i < 32
      ensures var k := if host == BigEndian then i / 8 else 3 - i / 8;
              d[i] == And(arranged[k], mask[k])[i % 8] && v[i] == And(value[k], mask[k])[i % 8]
    {
    }
    if d == v {
      forall k | 0 <= k < 4
        ensures And(arranged[k], mask[k]) == And(value[k], mask[k])
      {
        forall j | 0 <= j < 8
          ensures And(arranged[k], mask[k])[j] == And(value[k], mask[k])[j]
        {
          var i := 8 * (if host == BigEndian then k else 3 - k) + j;
          assert d[i] == v[i];
        }
      }
    }
    if MaskedEqual(value, mask, arranged) {
      assert d == v;
    }
  }

  /** The packet's bytes as the translated condition meets them. */
  function Arranged(data: seq<Byte>, host: ByteOrder, kernel: ByteOrder): seq<Byte>
    requires |data| == 4
  {
    if host == kernel then data else [data[3], data[2], data[1], data[0]]
  }

  /** Mask and masked value read the same from both ends. */
  predicate Symmetric(value: seq<Byte>, mask: seq<Byte>)
    requires |value| == |mask| == 4
  {
    forall k | 0 <= k < 4 :: mask[k] == mask[3 - k] && And(value[k], mask[k]) == And(value[3 - k], mask[3 - k])
  }

  /** Whether the translated IPv4 condition means what the condition means. */
  ghost predicate TranslationAgrees(c: Condition, host: ByteOrder, kernel: ByteOrder)
    requires |c.value| == |EffectiveMask(c)| == 4
  {
    forall data: Quad ::
      NativeMatches(V4(Joined(c.value, host), Joined(EffectiveMask(c), host)), data, kernel) <==> Matches(c, data)
  }

  /** An IPv4 condition keeps its meaning exactly when host and kernel order agree, or when
      mask and masked value read the same from both ends. */
  lemma ByteOrderMattersExactly(c: Condition, host: ByteOrder, kernel: ByteOrder)
    requires |c.value| == |EffectiveMask(c)| == 4
    ensures TranslationAgrees(c, host, kernel) <==> host == kernel || Symmetric(c.value, EffectiveMask(c))
  {
    var value, mask := c.value, EffectiveMask(c);
    forall data: Quad
      ensures Matches(c, data) <==> MaskedEqual(value, mask, data)
      ensures NativeMatches(V4(Joined(value, host), Joined(mask, host)), data, kernel)
              <==> MaskedEqual(value, mask, Arranged(data, host, kernel))
    {
      EffectiveMaskMatches(c, data);
      JoinedMatches(value, mask, data, host, kernel);
    }
    if host != kernel {
      if TranslationAgrees(c, host, kernel) {
        assert forall data: Quad :: SameReversed(value, mask, data);
        AgreementIsSymmetric(value, mask);
      }
      if Symmetric(value, mask) {
        forall data: Quad
          ensures MaskedEqual(value, mask, Arranged(data, host, kernel)) <==> MaskedEqual(value, mask, data)
        {
          SymmetricAgrees(value, mask, data);
        }
      }
    }
  }

  function Reversed(data: seq<Byte>): seq<Byte>
    requires |data| == 4
  {
    Arranged(data, BigEndian, LittleEndian)
  }

  /** These bytes match in either order or in neither. */
  predicate SameReversed(value: seq<Byte>, mask: seq<Byte>, data: seq<Byte>)
    requires |value| == |mask| == |data| == 4
  {
    MaskedEqual(value, mask, Reversed(data)) <==> MaskedEqual(value, mask, data)
  }

  lemma SymmetricAgrees(value: seq<Byte>, mask: seq<Byte>, data: seq<Byte>)
    requires |value| == |mask| == |data| == 4 && Symmetric(value, mask)
    ensures SameReversed(value, mask, data)
  {
    assert forall k | 0 <= k < 4 :: Reversed(data)[k] == data[3 - k];
    assert forall k | 0 <= k < 4 :: mask[3 - (3 - k)] == mask[k];
  }

  /** A bit compared at one end only could be flipped at the other. */
  lemma ComparedAtBothEnds(value: seq<Byte>, mask: seq<Byte>, k: nat, j: nat)
    requires |value| == |mask| == 4 && k < 4 && j < 8 && mask[k][j]
    requires forall data: Quad :: SameReversed(value, mask, data)
    ensures mask[3 - k][j] && value[3 - k][j] == value[k][j]
  {
    assert SameReversed(value, mask, value) && MaskedEqual(value, mask, value);
    assert And(Reversed(value)[k], mask[k])[j] == And(value[k], mask[k])[j];
    if !mask[3 - k][j] {
      var byte: Byte := value[3 - k][j := !value[3 - k][j]];
      var data := value[3 - k := byte];
      assert And(byte, mask[3 - k]) == And(value[3 - k], mask[3 - k]);
      assert MaskedEqual(value, mask, data);
      assert And(Reversed(data)[k], mask[k])[j] != And(value[k], mask[k])[j];
      var same := SameReversed(value, mask, data);
      assert false;
    }
  }

  /** If matching does not depend on the order, neither do mask and masked value. */
  lemma AgreementIsSymmetric(value: seq<Byte>, mask: seq<Byte>)
    requires |value| == |mask| == 4
    requires forall data: Quad :: SameReversed(value, mask, data)
    ensures Symmetric(value, mask)
  {
    forall k | 0 <= k < 4
      ensures mask[k] == mask[3 - k] && And(value[k], mask[k]) == And(value[3 - k], mask[3 - k])
    {
      var near, far := mask[k], mask[3 - k];
      forall j | 0 <= j < 8
        ensures near[j] == far[j] && (near[j] ==> value[k][j] == value[3 - k][j])
      {
        if near[j] {
          ComparedAtBothEnds(value, mask, k, j);
        } else if far[j] {
          ComparedAtBothEnds(value, mask, 3 - k, j);
        }
      }
      assert near == far;
      assert And(value[k], near) == And(value[3 - k], far);
    }
  }
}

/** The filter table: highest weight first, lowest id among equals. */
module WfpTables {
  import opened Options
  import opened Ordering
  import opened WfpConditions

  datatype WfpAction = Permit | Block | Continue

  datatype Filter = Filter(id: nat, action: WfpAction, conditions: seq<Condition>, enabled: bool, weight: nat)

  predicate FilterMatches(f: Filter, packet: seq<Byte>) {
    f.enabled && forall c | c in f.conditions :: Matches(c, packet)
  }

  predicate Precedes(a: Filter, b: Filter) {
    a.weight > b.weight || (a.weight == b.weight && a.id <= b.id)
  }

  function Evaluate(filters: seq<Filter>, packet: seq<Byte>): Option<WfpAction> {
    if filters == [] then None
    else if FilterMatches(filters[0], packet) then Some(filters[0].action)
    else Evaluate(filters[1..], packet)
  }

  ghost predicate InOrder(filters: seq<Filter>) {
    SortedBy(Precedes, filters) && forall i, j | 0 <= i < j < |filters| :: filters[i].id != filters[j].id
  }

  /** The matching filter no other matching filter precedes. */
  ghost predicate Decides(filters: seq<Filter>, packet: seq<Byte>, f: Filter) {
    f in filters && FilterMatches(f, packet) && forall g | g in filters && FilterMatches(g, packet) :: Precedes(f, g)
  }

  /** The first match in table order is the match of greatest weight and least id. */
  lemma {:induction false} EvaluateIsDecision(filters: seq<Filter>, packet: seq<Byte>)
    requires InOrder(filters)
    ensures match Evaluate(filters, packet)
            case None => forall f | f in filters :: !FilterMatches(f, packet)
            case Some(action) => exists f :: Decides(filters, packet, f) && f.action == action
  {
    if filters != [] {
      var rest := filters[1..];
      assert forall g | g in filters :: g == filters[0] || g in rest;
      assert forall g | g in rest :: Precedes(filters[0], g);
      if FilterMatches(filters[0], packet) {
        assert Decides(filters, packet, filters[0]);
      } else {
        EvaluateIsDecision(rest, packet);
        if f :| Decides(rest, packet, f) && Evaluate(filters, packet) == Some(f.action) {
          assert Decides(filters, packet, f);
        }
      }
    }
  }

  /** The verdict spelled out: an enabled filter all of whose conditions hold, of the greatest
      weight among those and of the least id at that weight, and none exactly when there is
      no such filter. */
  lemma VerdictMeans(filters: seq<Filter>, packet: seq<Byte>)
    requires InOrder(filters)
    ensures Evaluate(filters, packet).None? <==>
            forall f | f in filters && f.enabled :: exists c :: c in f.conditions && !Matches(c, packet)
    ensures Evaluate(filters, packet).Some? ==> exists f ::
              && f in filters && f.enabled && f.action == Evaluate(filters, packet).value
              && (forall c | c in f.conditions :: Matches(c, packet))
              && forall g | g in filters && g.enabled && (forall c | c in g.conditions :: Matches(c, packet)) ::
                   g.weight <= f.weight && (g.weight == f.weight ==> f.id <= g.id)
  {
    EvaluateIsDecision(filters, packet);
    if f :| Decides(filters, packet, f) && Evaluate(filters, packet) == Some(f.action) {
      assert FilterMatches(f, packet);
      assert forall g | g in filters && g.enabled && (forall c | c in g.conditions :: Matches(c, packet)) :: FilterMatches(g, packet);
    }
  }

  /** The verdict depends on which filters are installed, not on the order of installing them. */
  lemma OrderOfInstallationIsIrrelevant(one: seq<Filter>, other: seq<Filter>, packet: seq<Byte>)
    requires InOrder(one) && InOrder(other) && (forall f :: f in one <==> f in other)
    ensures Evaluate(one, packet) == Evaluate(other, packet)
  {
    EvaluateIsDecision(one, packet);
    EvaluateIsDecision(other, packet);
    if Evaluate(one, packet).Some? && Evaluate(other, packet).Some? {
      var f :| Decides(one, packet, f) && f.action == Evaluate(one, packet).value;
      var g :| Decides(other, packet, g) && g.action == Evaluate(other, packet).value;
      assert f.id == g.id;
      var i :| 0 <= i < |one| && one[i] == f;
      var j :| 0 <= j < |one| && one[j] == g;
      assert f == g;
    }
  }

  class WfpFilterTable {
    var filters: seq<Filter>
    var engineOpen: bool

    ghost predicate Valid()
      reads this
    {
      InOrder(filters)
    }

    constructor ()
      ensures Valid() && filters == [] && !engineOpen
    {
      filters, engineOpen := [], false;
    }

    /** `registers` is the answer of the kernel registration. */
    method Insert(filter: Filter, registers: bool) returns (ok: bool)
      requires Valid()
      modifies `filters
      ensures Valid()
      ensures ok <==> engineOpen && registers && forall f | f in old(filters) :: f.id != filter.id
      ensures multiset(filters) == multiset(old(filters)) + if ok then multiset{filter} else multiset{}
    {
      if exists f | f in filters :: f.id == filter.id {
        return false;
      }
      if !engineOpen || !registers {
        return false;
      }
      var grown := filters + [filter];
      PrecedesIsOrder();
      SortSorts(Precedes, grown);
      SortPermutes(Precedes, grown);
      DistinctIds(grown, Sort(Precedes, grown));
      filters := Sort(Precedes, grown);
      return true;
    }

    method Remove(id: nat) returns (removed: Option<Filter>)
      requires Valid()
      modifies `filters
      ensures Valid()
      ensures removed.None? ==> filters == old(filters) && forall f | f in filters :: f.id != id
      ensures removed.Some? ==> removed.value.id == id && multiset(old(filters)) == multiset(filters) + multiset{removed.value}
    {
      var i := 0;
      while i < |filters| && filters[i].id != id
        invariant i <= |filters|
        invariant forall j | 0 <= j < i :: filters[j].id != id
      {
        i := i + 1;
      }
      if i == |filters| {
        return None;
      }
      removed := Some(filters[i]);
      RemoveAt(filters, i);
      filters := filters[..i] + filters[i + 1..];
    }
  }

  lemma RemoveAt(filters: seq<Filter>, i: nat)
    requires InOrder(filters) && i < |filters|
    ensures InOrder(filters[..i] + filters[i + 1..])
    ensures multiset(filters) == multiset(filters[..i] + filters[i + 1..]) + multiset{filters[i]}
  {
    var rest := filters[..i] + filters[i + 1..];
    assert forall j | 0 <= j < |rest| :: rest[j] == filters[if j < i then j else j + 1];
    assert filters == filters[..i] + [filters[i]] + filters[i + 1..];
  }

  lemma PrecedesIsOrder()
    ensures TotalOrder(Precedes)
  {
  }

  /** Distinct ids survive any rearrangement. */
  lemma {:induction false} DistinctIds(s: seq<Filter>, t: seq<Filter>)
    requires multiset(s) == multiset(t)
    requires forall i, j | 0 <= i < j < |s| :: s[i].id != s[j].id
    ensures forall i, j | 0 <= i < j < |t| :: t[i].id != t[j].id
  {
    forall i, j | 0 <= i < j < |t|
      ensures t[i].id != t[j].id
    {
      if t[i].id == t[j].id {
        assert t[i] in multiset(t) && t[j] in multiset(t);
        var a :| 0 <= a < |s| && s[a] == t[i];
        var b :| 0 <= b < |s| && s[b] == t[j];
        assert a == b;
        TwiceInMultiset(t, i, j);
        OnceInMultiset(s, a);
        assert false;
      }
    }
  }

  lemma TwiceInMultiset(t: seq<Filter>, i: nat, j: nat)
    requires i < j < |t| && t[i] == t[j]
    ensures multiset(t)[t[i]] >= 2
  {
    assert t == t[..j] + [t[j]] + t[j + 1..];
    assert t[i] in t[..j];
    assert multiset(t) == multiset(t[..j]) + multiset{t[j]} + multiset(t[j + 1..]);
  }

  lemma OnceInMultiset(s: seq<Filter>, a: nat)
    requires a < |s| && forall i, j | 0 <= i < j < |s| :: s[i].id != s[j].id
    ensures multiset(s)[s[a]] == 1
  {
    assert s == s[..a] + [s[a]] + s[a + 1..];
    assert s[a] !in s[..a] && s[a] !in s[a + 1..];
    assert multiset(s) == multiset(s[..a]) + multiset{s[a]} + multiset(s[a + 1..]);
  }
}
