/** Vocabulary shared by every component: optional values, unsigned 64-bit
    arithmetic as the runtime does it, and sums over sequences and maps. */
module Options {
  datatype Option<+T> = None | Some(value: T)
}

/** Saturating `u64` arithmetic over mathematical naturals. */
module Saturating {
  const U64_MAX: nat := 0xFFFF_FFFF_FFFF_FFFF

  type U64 = n: nat | n <= U64_MAX

  /** The value a saturating counter holds once `n` units were offered to it. */
  function Cap(n: nat): U64 {
    if n <= U64_MAX then n else U64_MAX
  }

  /** A wrapping increment. */
  function Inc(a: U64): U64 {
    if a == U64_MAX then 0 else a + 1
  }

  /** Exact as long as it fits, then the greatest 64-bit value: no counter ever falls. */
  lemma CapMeans(n: nat)
    ensures n < 0x1_0000_0000_0000_0000 ==> Cap(n) == n
    ensures n >= 0x1_0000_0000_0000_0000 ==> Cap(n) == 0xFFFF_FFFF_FFFF_FFFF
    ensures forall a: U64 :: a <= SatAdd(a, n) <= a + n
  {
  }

  function SatAdd(a: U64, b: nat): U64 {
    Cap(a + b)
  }
}

/** Sums of natural weights, and how one changed weight moves the sum. */
module Sums {
  function Total(w: seq<nat>): nat {
    if w == [] then 0 else Total(w[..|w| - 1]) + w[|w| - 1]
  }

  lemma {:induction false} TotalUpdate(w: seq<nat>, i: nat, x: nat)
    requires i < |w|
    ensures Total(w[i := x]) + w[i] == Total(w) + x
  {
    var n := |w| - 1;
    if i == n {
      assert w[i := x][..n] == w[..n];
    } else {
      assert w[i := x][..n] == w[..n][i := x];
      TotalUpdate(w[..n], i, x);
    }
  }

  lemma {:induction false} TotalBounds(w: seq<nat>, i: nat)
    requires i < |w|
    ensures w[i] <= Total(w)
  {
    if i < |w| - 1 {
      TotalBounds(w[..|w| - 1], i);
    }
  }

  lemma {:induction false} TotalConstant(w: seq<nat>, c: nat)
    requires forall i | 0 <= i < |w| :: w[i] == c
    ensures Total(w) == |w| * c
  {
    if w != [] {
      TotalConstant(w[..|w| - 1], c);
    }
  }
}
