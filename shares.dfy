/**
 * Forwarding shares: the per-face distribution that one MtForwardingInfo
 * holds, and the total mass of such a distribution.
 */
module Shares {

  /** A face (link) identifier, unsigned in the router. */
  type FaceId = nat

  /** Face id to forwarding share; `double` in the source, exact `real` here. */
  type ShareMap = map<FaceId, real>

  /** getforwPerc: the share of a face, 0.0 for a face the map does not hold. */
  function Get(m: ShareMap, f: FaceId): real
  {
    if f in m then m[f] else 0.0
  }

  predicate NonNegative(m: ShareMap)
  {
    forall f :: f in m ==> m[f] >= 0.0
  }

  /** The total mass of a distribution, independent of iteration order. */
  ghost function Sum(m: ShareMap): real
    decreases |m|
  {
    if m == map[] then 0.0
    else
      var f :| f in m;
      assert |m - {f}| < |m| by { assert m.Keys - {f} < m.Keys; }
      m[f] + Sum(m - {f})
  }

  /** A proper distribution: non-negative shares summing to one. */
  ghost predicate IsDistribution(m: ShareMap)
  {
    NonNegative(m) && Sum(m) == 1.0
  }

  /** Any face can be taken out first: Sum does not depend on the choice it makes. */
  lemma {:induction false} SumRemove(m: ShareMap, x: FaceId)
    requires x in m
    ensures Sum(m) == m[x] + Sum(m - {x})
    decreases |m|
  {
    var f :| f in m && Sum(m) == m[f] + Sum(m - {f});
    if f != x {
      assert |m - {f}| < |m| by { assert m.Keys - {f} < m.Keys; }
      assert |m - {x}| < |m| by { assert m.Keys - {x} < m.Keys; }
      SumRemove(m - {f}, x);
      SumRemove(m - {x}, f);
      assert m - {f} - {x} == m - {x} - {f};
    }
  }

  /** n copies of d added up, kept apart from real multiplication. */
  function Times(n: nat, d: real): real
  {
    if n == 0 then 0.0 else Times(n - 1, d) + d
  }

  lemma {:induction false} TimesIsProduct(n: nat, d: real)
    ensures Times(n, d) == n as real * d
  {
    if n > 0 {
      TimesIsProduct(n - 1, d);
      assert n as real * d == (n - 1) as real * d + d;
    }
  }

  /** Adding the same amount to every share adds that amount once per face. */
  lemma {:induction false} SumShift(a: ShareMap, b: ShareMap, d: real)
    requires a.Keys == b.Keys
    requires forall g :: g in a ==> b[g] == a[g] + d
    ensures Sum(b) == Sum(a) + Times(|a|, d)
    decreases |a|
  {
    if a == map[] {
      assert b == map[];
    } else {
      var x :| x in a;
      var a', b' := a - {x}, b - {x};
      assert |a'| + 1 == |a| by {
        assert a.Keys == a'.Keys + {x};
      }
      assert a'.Keys == b'.Keys;
      SumShift(a', b', d);
      SumRemove(b, x);
      SumRemove(a, x);
    }
  }

  /** The mass of a map after one share is overwritten. */
  lemma SumUpdate(m: ShareMap, f: FaceId, v: real)
    ensures Sum(m[f := v]) == Sum(m) - Get(m, f) + v
  {
    var m' := m[f := v];
    SumRemove(m', f);
    assert m' - {f} == m - {f};
    if f in m {
      SumRemove(m, f);
    } else {
      assert m - {f} == m;
    }
  }

  lemma {:induction false} SumNonNegative(m: ShareMap)
    requires NonNegative(m)
    ensures Sum(m) >= 0.0
    decreases |m|
  {
    if m != map[] {
      var x :| x in m;
      SumRemove(m, x);
      assert |m - {x}| < |m| by { assert m.Keys - {x} < m.Keys; }
      SumNonNegative(m - {x});
    }
  }

  /** With non-negative shares no single share exceeds the total. */
  lemma ShareAtMostSum(m: ShareMap, x: FaceId)
    requires NonNegative(m) && x in m
    ensures 0.0 <= m[x] <= Sum(m)
  {
    SumRemove(m, x);
    SumNonNegative(m - {x});
  }

  /** A map with one share of 1.0 and every other share 0.0 is a distribution. */
  lemma SingleWinnerIsDistribution(m: ShareMap, w: FaceId)
    requires w in m && m[w] == 1.0
    requires forall g :: g in m && g != w ==> m[g] == 0.0
    ensures IsDistribution(m)
  {
    SumRemove(m, w);
    SumZero(m - {w});
  }

  lemma {:induction false} SumZero(m: ShareMap)
    requires forall g :: g in m ==> m[g] == 0.0
    ensures Sum(m) == 0.0
    decreases |m|
  {
    if m != map[] {
      var x :| x in m;
      SumRemove(m, x);
      assert |m - {x}| < |m| by { assert m.Keys - {x} < m.Keys; }
      SumZero(m - {x});
    }
  }
}
