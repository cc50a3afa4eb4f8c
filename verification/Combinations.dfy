/** Bitmask enumeration of tag combinations (`displayResults`,
    public/static/src/script.js): for every mask from 1 to 2^n - 1 the
    selected tags whose index bit is set form a combination, and only those
    with at least two tags are kept. */
module Combinations {
  import opened Sequences

  function Pow2(n: nat): (r: nat)
    ensures r >= 1
  {
    if n == 0 then 1 else 2 * Pow2(n - 1)
  }

  /** `mask & (1 << index)` is non-zero (the shift never overflows: at most five tags). */
  predicate BitSet(mask: nat, index: nat) {
    (mask / Pow2(index)) % 2 == 1
  }

  /** `s.filter((_, index) => mask & (1 << index))`. */
  function Pick<T>(s: seq<T>, mask: nat): (r: seq<T>)
    ensures IsSubsequence(r, s)
  {
    if |s| == 0 then []
    else
      var front, last := Pick(s[..|s| - 1], mask), s[|s| - 1];
      assert s == s[..|s| - 1] + [last];
      SubsequenceSnoc(front, s[..|s| - 1], last);
      if BitSet(mask, |s| - 1) then front + [last] else front
  }

  /** The combinations the masks `lo .. hi - 1` produce, in ascending mask order. */
  function CombinationsBetween<T>(s: seq<T>, lo: nat, hi: nat): (r: seq<seq<T>>)
    ensures forall c :: c in r ==> |c| >= 2 && IsSubsequence(c, s)
    decreases hi
  {
    if hi <= lo then []
    else
      var front := CombinationsBetween(s, lo, hi - 1);
      var c := Pick(s, hi - 1);
      if |c| >= 2 then front + [c] else front
  }

  /** Each combination is what some mask in the range picks. */
  lemma {:induction false} CombinationsBetweenMasks<T>(s: seq<T>, lo: nat, hi: nat, c: seq<T>)
    requires c in CombinationsBetween(s, lo, hi)
    ensures exists m: nat :: lo <= m < hi && c == Pick(s, m)
    decreases hi
  {
    if hi > lo {
      if c in CombinationsBetween(s, lo, hi - 1) {
        CombinationsBetweenMasks(s, lo, hi - 1, c);
      } else {
        assert c == Pick(s, hi - 1);
      }
    }
  }

  /** The combinations of a selection: masks `1 .. 2^n - 1`, keeping those with at least two tags. */
  function Combinations<T>(s: seq<T>): seq<seq<T>> {
    CombinationsBetween(s, 1, Pow2(|s|))
  }

  /** How many masks in `lo .. hi - 1` pick at least `k` elements. */
  function CountAtLeast<T>(s: seq<T>, lo: nat, hi: nat, k: nat): nat
    decreases hi
  {
    if hi <= lo then 0
    else CountAtLeast(s, lo, hi - 1, k) + (if |Pick(s, hi - 1)| >= k then 1 else 0)
  }

  // Arithmetic on masks

  lemma {:induction false} Pow2Add(a: nat, b: nat)
    ensures Pow2(a + b) == Pow2(a) * Pow2(b)
  {
    if a > 0 {
      Pow2Add(a - 1, b);
    }
  }

  lemma DivOfSmaller(a: nat, b: nat)
    requires a < b
    ensures a / b == 0
  {
  }
  lemma MulBounds(x: int, d: int)
    requires d > 0 && -d < x * d < d
    ensures x == 0
  {
    if x >= 1 {
      MulMono(x, d);
    } else if x <= -1 {
      MulMono(-x, d);
    }
  }
  lemma MulMono(x: int, d: int)
    requires x >= 1 && d > 0
    ensures x * d >= d
  {
  }
  lemma DivUnique(n: int, d: int, k: int, r: int)
    requires d > 0 && 0 <= r < d && n == k * d + r
    ensures n / d == k
  {
    var k', r' := n / d, n % d;
    assert n == k' * d + r';
    assert (k - k') * d == r' - r;
    MulBounds(k - k', d);
  }
  lemma DivOfMultiplePlus(p: nat, d: nat, q: nat)
    requires d > 0
    ensures (p * d + q) / d == p + q / d
  {
    var k, r := q / d, q % d;
    assert p * d + q == (p + k) * d + r;
    DivUnique(p * d + q, d, p + k, r);
  }

  /** Bits at or above `n` of a mask below 2^n are clear. */
  lemma BitAboveRange(m: nat, n: nat)
    requires m < Pow2(n)
    ensures !BitSet(m, n)
  {
    DivOfSmaller(m, Pow2(n));
  }

  lemma EvenPlusMod(h: nat, x: nat)
    ensures (2 * h + x) % 2 == x % 2
  {
    DivUnique(2 * h + x, 2, h + x / 2, x % 2);
  }

  lemma HighDiv(n: nat, q: nat, i: nat)
    requires q < Pow2(n) && i <= n
    ensures (Pow2(n) + q) / Pow2(i) == Pow2(n - i) + q / Pow2(i)
  {
    Pow2Add(n - i, i);
    var p, d := Pow2(n - i), Pow2(i);
    DivOfMultiplePlus(p, d, q);
  }

  lemma SameParity(a: nat, q: nat, d: nat, h: nat)
    requires d > 0 && a / d == 2 * h + q / d
    ensures (a / d) % 2 == (q / d) % 2
  {
    EvenPlusMod(h, q / d);
  }

  /** Adding 2^n leaves the lower bits of a mask below 2^n alone ... */
  lemma HighMaskLowBit(n: nat, q: nat, i: nat)
    requires q < Pow2(n) && i < n
    ensures BitSet(Pow2(n) + q, i) <==> BitSet(q, i)
  {
    HighDiv(n, q, i);
    var h := Pow2(n - i - 1);
    assert Pow2(n - i) == 2 * h;
    SameParity(Pow2(n) + q, q, Pow2(i), h);
  }

  /** ... and sets bit n. */
  lemma HighMaskTopBit(n: nat, q: nat)
    requires q < Pow2(n)
    ensures BitSet(Pow2(n) + q, n)
  {
    HighDiv(n, q, n);
    DivOfSmaller(q, Pow2(n));
    assert Pow2(n - n) == 1;
  }

  /** Two masks that agree on the low |s| bits pick the same elements. */
  lemma {:induction false} PickAgrees<T>(s: seq<T>, m1: nat, m2: nat)
    requires forall i :: 0 <= i < |s| ==> (BitSet(m1, i) <==> BitSet(m2, i))
    ensures Pick(s, m1) == Pick(s, m2)
  {
    if |s| > 0 {
      PickAgrees(s[..|s| - 1], m1, m2);
    }
  }

  /** Extending the selection by `y`: masks below 2^n pick as before, and
      mask 2^n + q picks what q picked, followed by `y`. */
  lemma PickExtended<T>(s: seq<T>, y: T, m: nat)
    requires m < 2 * Pow2(|s|)
    ensures m < Pow2(|s|) ==> Pick(s + [y], m) == Pick(s, m)
    ensures m >= Pow2(|s|) ==> Pick(s + [y], m) == Pick(s, m - Pow2(|s|)) + [y]
  {
    var n := |s|;
    assert (s + [y])[..n] == s;
    if m < Pow2(n) {
      BitAboveRange(m, n);
    } else {
      var q := m - Pow2(n);
      HighMaskTopBit(n, q);
      forall i | 0 <= i < n ensures BitSet(m, i) <==> BitSet(q, i) {
        HighMaskLowBit(n, q, i);
      }
      PickAgrees(s, m, q);
    }
  }

  /** Among the masks below 2^n only mask 0 picks nothing. */
  lemma {:induction false} PickEmptyOnlyForZero<T>(s: seq<T>, m: nat)
    requires m < Pow2(|s|)
    ensures |Pick(s, m)| == 0 <==> m == 0
  {
    if |s| > 0 {
      var s', y := s[..|s| - 1], s[|s| - 1];
      assert s == s' + [y];
      PickExtended(s', y, m);
      if m < Pow2(|s'|) {
        PickEmptyOnlyForZero(s', m);
      }
    }
  }

  // Counting

  lemma {:induction false} CountSplit<T>(s: seq<T>, lo: nat, mid: nat, hi: nat, k: nat)
    requires lo <= mid <= hi
    ensures CountAtLeast(s, lo, hi, k) == CountAtLeast(s, lo, mid, k) + CountAtLeast(s, mid, hi, k)
    decreases hi
  {
    if hi > mid {
      CountSplit(s, lo, mid, hi - 1, k);
    }
  }

  lemma {:induction false} CountAll<T>(s: seq<T>, lo: nat, hi: nat)
    requires lo <= hi
    ensures CountAtLeast(s, lo, hi, 0) == hi - lo
    decreases hi
  {
    if hi > lo {
      CountAll(s, lo, hi - 1);
    }
  }

  lemma {:induction false} CountLowMasks<T>(s: seq<T>, y: T, hi: nat, k: nat)
    requires hi <= Pow2(|s|)
    ensures CountAtLeast(s + [y], 0, hi, k) == CountAtLeast(s, 0, hi, k)
    decreases hi
  {
    if hi > 0 {
      CountLowMasks(s, y, hi - 1, k);
      PickExtended(s, y, hi - 1);
    }
  }

  lemma {:induction false} CountHighMasks<T>(s: seq<T>, y: T, h: nat, k: nat)
    requires h <= Pow2(|s|) && k >= 1
    ensures CountAtLeast(s + [y], Pow2(|s|), Pow2(|s|) + h, k) == CountAtLeast(s, 0, h, k - 1)
    decreases h
  {
    if h > 0 {
      CountHighMasks(s, y, h - 1, k);
      PickExtended(s, y, Pow2(|s|) + h - 1);
    }
  }

  /** All masks but 0 pick something. */
  lemma {:induction false} NonEmptyPicks<T>(s: seq<T>)
    ensures CountAtLeast(s, 0, Pow2(|s|), 1) == Pow2(|s|) - 1
  {
    if |s| > 0 {
      var s', y := s[..|s| - 1], s[|s| - 1];
      assert s == s' + [y];
      var p := Pow2(|s'|);
      assert Pow2(|s|) == 2 * p;
      NonEmptyPicks(s');
      CountSplit(s, 0, p, 2 * p, 1);
      CountLowMasks(s', y, p, 1);
      CountHighMasks(s', y, p, 1);
      CountAll(s', 0, p);
    }
  }

  /** Exactly 2^n - n - 1 masks below 2^n pick two elements or more. */
  lemma {:induction false} PairPicks<T>(s: seq<T>)
    ensures CountAtLeast(s, 0, Pow2(|s|), 2) == Pow2(|s|) - |s| - 1
  {
    if |s| > 0 {
      var s', y := s[..|s| - 1], s[|s| - 1];
      assert s == s' + [y];
      var p := Pow2(|s'|);
      assert Pow2(|s|) == 2 * p;
      PairPicks(s');
      NonEmptyPicks(s');
      CountSplit(s, 0, p, 2 * p, 2);
      CountLowMasks(s', y, p, 2);
      CountHighMasks(s', y, p, 2);
    }
  }

  lemma {:induction false} CombinationsBetweenCount<T>(s: seq<T>, lo: nat, hi: nat)
    ensures |CombinationsBetween(s, lo, hi)| == CountAtLeast(s, lo, hi, 2)
    decreases hi
  {
    if hi > lo {
      CombinationsBetweenCount(s, lo, hi - 1);
    }
  }

  /** A selection of n tags yields 2^n - n - 1 combinations. */
  lemma CombinationCount<T>(s: seq<T>)
    ensures |Combinations(s)| == Pow2(|s|) - |s| - 1
  {
    var p := Pow2(|s|);
    PairPicks(s);
    CountSplit(s, 0, 1, p, 2);
    PickEmptyOnlyForZero(s, 0);
    CombinationsBetweenCount(s, 1, p);
  }

  /** With the selection capped at five tags there are at most 26
      combinations, and at most 31 sections counting the single tags. */
  lemma CombinationBound<T>(s: seq<T>)
    requires |s| <= 5
    ensures |Combinations(s)| <= 26
    ensures |s| + |Combinations(s)| <= 31
  {
    CombinationCount(s);
    assert Pow2(0) == 1 && Pow2(1) == 2 && Pow2(2) == 4 && Pow2(3) == 8 && Pow2(4) == 16 && Pow2(5) == 32;
  }

  /** Different masks below 2^n pick different subsequences of a duplicate-free selection. */
  lemma {:induction false} PicksDistinct<T>(s: seq<T>, m1: nat, m2: nat)
    requires NoDuplicates(s)
    requires m1 < m2 < Pow2(|s|)
    ensures Pick(s, m1) != Pick(s, m2)
  {
    var s', y := s[..|s| - 1], s[|s| - 1];
    assert s == s' + [y];
    assert NoDuplicates(s');
    assert y !in s';
    var p := Pow2(|s'|);
    PickExtended(s', y, m1);
    PickExtended(s', y, m2);
    if m2 < p {
      PicksDistinct(s', m1, m2);
    } else if m1 < p {
      SubsequenceElements(Pick(s', m1), s');
      assert y in Pick(s, m2);
    } else {
      PicksDistinct(s', m1 - p, m2 - p);
      SnocInjective(Pick(s', m1 - p), Pick(s', m2 - p), y);
    }
  }

  lemma SnocInjective<T>(a: seq<T>, b: seq<T>, y: T)
    ensures a + [y] == b + [y] ==> a == b
  {
    if a + [y] == b + [y] {
      assert a == (a + [y])[..|a|] == (b + [y])[..|b|] == b;
    }
  }

  lemma {:induction false} CombinationsBetweenDistinct<T>(s: seq<T>, lo: nat, hi: nat)
    requires NoDuplicates(s) && hi <= Pow2(|s|)
    ensures NoDuplicates(CombinationsBetween(s, lo, hi))
    decreases hi
  {
    if hi > lo {
      CombinationsBetweenDistinct(s, lo, hi - 1);
      var front := CombinationsBetween(s, lo, hi - 1);
      var c := Pick(s, hi - 1);
      forall x | x in front ensures x != c {
        EarlierDiffers(s, lo, hi - 1, x);
      }
      if |c| >= 2 {
        NoDuplicatesSnoc(front, c);
      }
    }
  }

  /** A combination from an earlier mask differs from what mask `m` picks. */
  lemma EarlierDiffers<T>(s: seq<T>, lo: nat, m: nat, x: seq<T>)
    requires NoDuplicates(s) && m < Pow2(|s|)
    requires x in CombinationsBetween(s, lo, m)
    ensures x != Pick(s, m)
  {
    CombinationsBetweenMasks(s, lo, m, x);
    var k: nat :| lo <= k < m && x == Pick(s, k);
    PicksDistinct(s, k, m);
  }

  /** The combinations of a duplicate-free selection are pairwise different. */
  lemma CombinationsDistinct<T>(s: seq<T>)
    requires NoDuplicates(s)
    ensures NoDuplicates(Combinations(s))
  {
    CombinationsBetweenDistinct(s, 1, Pow2(|s|));
  }

  /** Every subsequence of the selection is what some mask below 2^n picks. */
  lemma {:induction false} MaskOf<T>(s: seq<T>, c: seq<T>) returns (m: nat)
    requires IsSubsequence(c, s)
    ensures m < Pow2(|s|) && Pick(s, m) == c
    decreases |s|
  {
    if |s| == 0 {
      m := 0;
    } else {
      var s', y := s[..|s| - 1], s[|s| - 1];
      assert s == s' + [y];
      SubsequenceUnsnoc(c, s);
      if IsSubsequence(c, s') {
        m := MaskOf(s', c);
        PickExtended(s', y, m);
      } else {
        var c' := c[..|c| - 1];
        var q := MaskOf(s', c');
        m := Pow2(|s'|) + q;
        PickExtended(s', y, m);
        assert c == c' + [y];
      }
    }
  }

  /** A mask in the range that picks two elements or more contributes its pick. */
  lemma {:induction false} MaskInRange<T>(s: seq<T>, lo: nat, hi: nat, m: nat)
    requires lo <= m < hi && |Pick(s, m)| >= 2
    ensures Pick(s, m) in CombinationsBetween(s, lo, hi)
    decreases hi
  {
    if m < hi - 1 {
      MaskInRange(s, lo, hi - 1, m);
    }
  }

  /** The combinations are exactly the subsequences of the selection with
      two elements or more. */
  lemma CombinationsComplete<T>(s: seq<T>, c: seq<T>)
    ensures c in Combinations(s) <==> IsSubsequence(c, s) && |c| >= 2
  {
    if IsSubsequence(c, s) && |c| >= 2 {
      var m := MaskOf(s, c);
      PickEmptyOnlyForZero(s, m);
      MaskInRange(s, 1, Pow2(|s|), m);
    }
  }
}
