/**
 * Congestion feedback: reduceFwPerc and the guard around it in
 * beforeSatisfyInterest, as functions on a share map, with the
 * mass-conservation and range properties they keep.
 */
module Redistribution {

  import opened Shares

  /** CHANGE_PER_MARK: the fraction of a face's share removed per congestion signal. */
  const ChangePerMark: real := 0.1

  /** std::min(a, b). */
  function Min(a: real, b: real): (r: real)
    ensures r <= a && r <= b && (r == a || r == b)
  {
    if b < a then b else a
  }

  /** std::abs on a double. */
  function Abs(x: real): (r: real)
    ensures r >= 0.0 && (r == x || r == -x)
  {
    if x < 0.0 then -x else x
  }

  /**
   * What each face other than the reduced one gains: |rate / (n - 1)|, where
   * n is the face count once the reduced face has been written. Only faces
   * other than the reduced one receive it, and they exist only when n > 1.
   */
  function Spread(rate: real, n: nat): real
  {
    if n > 1 then Abs(rate / (n - 1) as real) else 0.0
  }

  /**
   * reduceFwPerc(forwInfo, f, change) on the shares it holds: nothing changes
   * when the distribution has exactly one face; otherwise face f loses
   * min(change, its share) and every face of the map, as it stands after f
   * was written, other than f gains an equal part of that amount.
   */
  function Reduced(m: ShareMap, f: FaceId, change: real): (r: ShareMap)
    ensures |m| == 1 ==> r == m
    ensures |m| != 1 ==> f in r && r[f] == Get(m, f) - Min(change, Get(m, f))
  {
    if |m| == 1 then m
    else
      var rate := 0.0 - Min(change, Get(m, f));
      var m1 := m[f := Get(m, f) + rate];
      var d := Spread(rate, |m1|);
      map g | g in m1 :: if g == f then m1[g] else m1[g] + d
  }

  /**
   * The effect of beforeSatisfyInterest on the distribution it found: only a
   * congestion mark above zero on a face whose id is above 256 triggers a
   * reduction, by CHANGE_PER_MARK times that face's current share, whatever
   * the value of the mark.
   */
  function Feedback(m: ShareMap, faceId: FaceId, congestionMark: nat): (r: ShareMap)
    ensures !(congestionMark > 0 && faceId > 256) ==> r == m
    ensures r.Keys == m.Keys || r.Keys == m.Keys + {faceId}
  {
    if congestionMark > 0 && faceId > 256 then Reduced(m, faceId, ChangePerMark * Get(m, faceId)) else m
  }

  /** How reduceFwPerc changes each share. */
  lemma ReducedEffect(m: ShareMap, f: FaceId, change: real)
    ensures |m| == 1 ==> Reduced(m, f, change) == m
    ensures |m| != 1 ==> Reduced(m, f, change).Keys == m.Keys + {f}
    ensures |m| != 1 ==> Reduced(m, f, change)[f] == Get(m, f) - Min(change, Get(m, f))
    ensures |m| != 1 && f in m ==>
      forall g :: g in m && g != f ==>
        Reduced(m, f, change)[g] == m[g] + Abs(Min(change, m[f])) / (|m| - 1) as real
    ensures |m| != 1 && f !in m && change >= 0.0 ==>
      Reduced(m, f, change)[f] == 0.0 && forall g :: g in m ==> Reduced(m, f, change)[g] == m[g]
  {
    if |m| != 1 && f in m {
      var rate := 0.0 - Min(change, Get(m, f));
      var m1 := m[f := Get(m, f) + rate];
      assert m1.Keys == m.Keys;
      forall g | g in m && g != f
        ensures Reduced(m, f, change)[g] == m[g] + Abs(Min(change, m[f])) / (|m| - 1) as real
      {
        TwoFaces(m, f, g);
        QuotientAbs(rate, (|m| - 1) as real);
      }
    }
  }

  /** A map holding two distinct faces has at least two entries. */
  lemma TwoFaces(m: ShareMap, a: FaceId, b: FaceId)
    requires a in m && b in m && a != b
    ensures |m| >= 2
  {
    assert {a, b} <= m.Keys;
    assert |{a, b}| == 2;
    SubsetCard({a, b}, m.Keys);
  }

  lemma SubsetCard(s: set<FaceId>, t: set<FaceId>)
    requires s <= t
    ensures |s| <= |t|
  {
    assert t == s + (t - s);
  }

  lemma QuotientAbs(x: real, k: real)
    requires k > 0.0
    ensures Abs(x / k) == Abs(-x) / k
  {
  }

  /** k equal parts of a non-positive rate add back up to its magnitude. */
  lemma SpreadAddsUp(rate: real, n: nat)
    requires rate <= 0.0 && n > 1
    ensures Times(n - 1, Spread(rate, n)) == -rate
  {
    var k := (n - 1) as real;
    TimesIsProduct(n - 1, Spread(rate, n));
    assert Spread(rate, n) == -rate / k;
    assert k * (-rate / k) == -rate;
  }

  /** reduceFwPerc moves mass between faces and neither creates nor loses any. */
  lemma ReducedConservesMass(m: ShareMap, f: FaceId, change: real)
    requires change >= 0.0 && Get(m, f) >= 0.0
    ensures Sum(Reduced(m, f, change)) == Sum(m)
  {
    if |m| != 1 {
      var rate := 0.0 - Min(change, Get(m, f));
      var m1 := m[f := Get(m, f) + rate];
      var d := Spread(rate, |m1|);
      var r: ShareMap := Reduced(m, f, change);
      assert r == map g | g in m1 :: if g == f then m1[g] else m1[g] + d;
      assert Sum(r) == Sum(m1) + Times(|m1 - {f}|, d) by {
        OthersShifted(m1, r, f, d);
      }
      assert Times(|m1 - {f}|, d) == -rate by {
        RestSpread(m, f, rate);
      }
      SumUpdate(m, f, Get(m, f) + rate);
    }
  }

  /** The mass of a map in which every face but f gained d. */
  lemma OthersShifted(m1: ShareMap, r: ShareMap, f: FaceId, d: real)
    requires f in m1 && r.Keys == m1.Keys && r[f] == m1[f]
    requires forall g :: g in m1 && g != f ==> r[g] == m1[g] + d
    ensures Sum(r) == Sum(m1) + Times(|m1 - {f}|, d)
  {
    var rest1: ShareMap, rest: ShareMap := m1 - {f}, r - {f};
    assert rest1.Keys == rest.Keys;
    SumShift(rest1, rest, d);
    SumRemove(r, f);
    SumRemove(m1, f);
  }

  /** The parts handed to the other faces add up to what the reduced face lost. */
  lemma RestSpread(m: ShareMap, f: FaceId, rate: real)
    requires |m| != 1 && rate <= 0.0
    requires m == map[] ==> rate == 0.0
    ensures Times(|m[f := Get(m, f) + rate] - {f}|, Spread(rate, |m[f := Get(m, f) + rate]|)) == -rate
  {
    var m1 := m[f := Get(m, f) + rate];
    var rest1 := m1 - {f};
    assert |rest1| + 1 == |m1| by { assert m1.Keys == rest1.Keys + {f}; }
    if |m1| > 1 {
      SpreadAddsUp(rate, |m1|);
    } else {
      SubsetCard(m.Keys, m1.Keys);
      assert |m| == 0;
    }
  }

  /** A distribution stays a distribution, every share within [0, 1]. */
  lemma ReducedKeepsDistribution(m: ShareMap, f: FaceId, change: real)
    requires IsDistribution(m) && change >= 0.0
    ensures IsDistribution(Reduced(m, f, change))
    ensures forall g :: g in Reduced(m, f, change) ==> 0.0 <= Reduced(m, f, change)[g] <= 1.0
  {
    var r := Reduced(m, f, change);
    ReducedConservesMass(m, f, change);
    assert NonNegative(r);
    forall g | g in r
      ensures 0.0 <= r[g] <= 1.0
    {
      ShareAtMostSum(r, g);
    }
  }

  /** Congestion feedback keeps a distribution a distribution. */
  lemma FeedbackKeepsDistribution(m: ShareMap, faceId: FaceId, congestionMark: nat)
    requires IsDistribution(m)
    ensures IsDistribution(Feedback(m, faceId, congestionMark))
  {
    if congestionMark > 0 && faceId > 256 {
      ReducedKeepsDistribution(m, faceId, ChangePerMark * Get(m, faceId));
    }
  }

  /** Only the guard matters: any positive mark has the same effect, and no other input has any. */
  lemma FeedbackGuard(m: ShareMap, faceId: FaceId, mark1: nat, mark2: nat)
    ensures Feedback(m, faceId, mark1) != m ==> mark1 > 0 && faceId > 256
    ensures mark1 > 0 && mark2 > 0 ==> Feedback(m, faceId, mark1) == Feedback(m, faceId, mark2)
  {
  }

  /** Three faces at 0.5, 0.3 and 0.2; face 257 reports congestion with a mark of 3. */
  lemma FeedbackExample()
    ensures Feedback(map[257 := 0.5, 258 := 0.3, 259 := 0.2], 257, 3)
         == map[257 := 0.45, 258 := 0.325, 259 := 0.225]
  {
    var m: ShareMap := map[257 := 0.5, 258 := 0.3, 259 := 0.2];
    var want: ShareMap := map[257 := 0.45, 258 := 0.325, 259 := 0.225];
    assert |m| == 3 by {
      assert m.Keys == {257, 258, 259};
    }
    assert ChangePerMark * Get(m, 257) == 0.05;
    assert Min(0.05, 0.5) == 0.05;
    var m1: ShareMap := m[257 := 0.45];
    assert |m1| == 3 by {
      assert m1.Keys == {257, 258, 259};
    }
    assert Spread(-0.05, 3) == 0.025;
    var r: ShareMap := Reduced(m, 257, 0.05);
    assert r == map g | g in m1 :: if g == 257 then m1[g] else m1[g] + 0.025;
    assert r.Keys == want.Keys;
    assert forall g :: g in r ==> r[g] == want[g];
  }
}
