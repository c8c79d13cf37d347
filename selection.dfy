/**
 * The Interest decision of afterReceiveInterest: the eligible nexthops, the
 * cumulative weighted walk over their shares, and the outcome it leads to.
 * The eligibility test, the retransmission-suppression verdict and the
 * random draw come from outside and are parameters here.
 */
module Selection {

  import opened Wrappers
  import opened Shares
  import opened Initialisation

  /** The verdict of the retransmission suppressor for the PIT entry. */
  datatype RetxSuppressionResult = RetxNew | RetxForward | RetxSuppress

  datatype NackReason = NoRoute

  /**
   * What afterReceiveInterest does with an Interest: drop it as a suppressed
   * retransmission, send it to one face, send a NACK back (and reject the PIT
   * entry), or return without sending anything.
   */
  datatype Outcome = Suppressed | Forward(face: FaceId) | Nack(reason: NackReason) | Dropped

  /** std::find_if over the nexthops with the eligibility test: the first eligible face, in list order. */
  function FirstEligible(hops: seq<NextHop>, eligible: FaceId -> bool): (r: Option<FaceId>)
    ensures r.None? <==> forall j :: 0 <= j < |hops| ==> !eligible(hops[j].face)
    ensures r.Some? ==>
      exists k :: 0 <= k < |hops| && hops[k].face == r.value && eligible(r.value) &&
        forall j :: 0 <= j < k ==> !eligible(hops[j].face)
  {
    if hops == [] then None
    else if eligible(hops[0].face) then Some(hops[0].face)
    else
      var r := FirstEligible(hops[1..], eligible);
      assert r.Some? ==> (exists k :: 1 <= k < |hops| && hops[k].face == r.value && eligible(r.value) &&
                           forall j :: 0 <= j < k ==> !eligible(hops[j].face)) by {
        if r.Some? {
          var k :| 0 <= k < |hops[1..]| && hops[1..][k].face == r.value && eligible(r.value) &&
            forall j :: 0 <= j < k ==> !eligible(hops[1..][j].face);
          assert forall j :: 1 <= j < k + 1 ==> !eligible(hops[j].face) by {
            forall j | 1 <= j < k + 1 ensures !eligible(hops[j].face) {
              assert hops[j] == hops[1..][j - 1];
            }
          }
          assert hops[k + 1] == hops[1..][k];
        }
      }
      assert (forall j :: 0 <= j < |hops[1..]| ==> !eligible(hops[1..][j].face)) ==>
        forall j :: 0 <= j < |hops| ==> !eligible(hops[j].face) by {
        forall j | 1 <= j < |hops| ensures hops[j] == hops[1..][j - 1] { }
      }
      r
  }

  /** The eligbleFaces vector: the eligible nexthop faces, in list order. */
  function EligibleFaces(hops: seq<NextHop>, eligible: FaceId -> bool): (faces: seq<FaceId>)
    ensures |faces| <= |hops|
  {
    if hops == [] then []
    else (if eligible(hops[0].face) then [hops[0].face] else []) + EligibleFaces(hops[1..], eligible)
  }

  /**
   * The eligible faces are exactly the faces of the eligible nexthops, and
   * the first of them is the one find_if returns.
   */
  lemma {:induction false} EligibleFacesMembers(hops: seq<NextHop>, eligible: FaceId -> bool)
    ensures forall f :: f in EligibleFaces(hops, eligible) <==> f in Faces(hops) && eligible(f)
    ensures EligibleFaces(hops, eligible) == [] <==> FirstEligible(hops, eligible) == None
    ensures EligibleFaces(hops, eligible) != [] ==> FirstEligible(hops, eligible) == Some(EligibleFaces(hops, eligible)[0])
    decreases |hops|
  {
    if hops != [] {
      EligibleFacesMembers(hops[1..], eligible);
      assert Faces(hops) == {hops[0].face} + Faces(hops[1..]) by {
        assert hops == [hops[0]] + hops[1..];
        FacesAppend([hops[0]], hops[1..]);
        assert Faces([hops[0]]) == {hops[0].face};
      }
    }
  }

  lemma FacesAppend(a: seq<NextHop>, b: seq<NextHop>)
    ensures Faces(a + b) == Faces(a) + Faces(b)
  {
    forall f | f in Faces(a + b) ensures f in Faces(a) + Faces(b) {
      var h :| h in a + b && h.face == f;
      if h in a { assert f in Faces(a); } else { assert f in Faces(b); }
    }
    forall f | f in Faces(a) + Faces(b) ensures f in Faces(a + b) {
      if f in Faces(a) {
        var h :| h in a && h.face == f;
        assert h in a + b;
      } else {
        var h :| h in b && h.face == f;
        assert h in a + b;
      }
    }
  }

  lemma {:induction false} EligibleFacesAppend(a: seq<NextHop>, b: seq<NextHop>, eligible: FaceId -> bool)
    ensures EligibleFaces(a + b, eligible) == EligibleFaces(a, eligible) + EligibleFaces(b, eligible)
    decreases |a|
  {
    if a != [] {
      assert (a + b)[1..] == a[1..] + b;
      EligibleFacesAppend(a[1..], b, eligible);
    } else {
      assert a + b == b;
    }
  }

  /** Every one of the given faces has a non-negative share. */
  predicate SharesNonNegative(shares: ShareMap, faces: seq<FaceId>)
  {
    forall i :: 0 <= i < |faces| ==> Get(shares, faces[i]) >= 0.0
  }

  /** percSum: the total share of the given faces, in the order they are added up. */
  function ShareSum(shares: ShareMap, faces: seq<FaceId>): real
    decreases |faces|
  {
    if faces == [] then 0.0
    else ShareSum(shares, faces[..|faces| - 1]) + Get(shares, faces[|faces| - 1])
  }

  /** percSum is never negative when no face has a negative share. */
  lemma {:induction false} ShareSumNonNegative(shares: ShareMap, faces: seq<FaceId>)
    requires SharesNonNegative(shares, faces)
    ensures ShareSum(shares, faces) >= 0.0
    decreases |faces|
  {
    if faces != [] {
      var init := faces[..|faces| - 1];
      assert forall i :: 0 <= i < |init| ==> init[i] == faces[i];
      ShareSumNonNegative(shares, init);
    }
  }

  /** The value forwPerc holds in the walk after k faces: each share divided by percSum, added up. */
  function Cum(shares: ShareMap, faces: seq<FaceId>, percSum: real, k: nat): real
    requires percSum != 0.0 && k <= |faces|
  {
    if k == 0 then 0.0 else Cum(shares, faces, percSum, k - 1) + Get(shares, faces[k - 1]) / percSum
  }

  /** forwPerc passes r at face j: the cumulative share through faces[j] exceeds r. */
  predicate Exceeds(shares: ShareMap, faces: seq<FaceId>, percSum: real, r: real, j: nat)
    requires percSum != 0.0 && j < |faces|
  {
    r < Cum(shares, faces, percSum, j + 1)
  }

  /** The walk from position i on: the first face at which forwPerc exceeds r. */
  function WalkFrom(shares: ShareMap, faces: seq<FaceId>, percSum: real, r: real, i: nat): (c: Option<FaceId>)
    requires percSum != 0.0 && i <= |faces|
    ensures c.None? <==> forall j :: i <= j < |faces| ==> !Exceeds(shares, faces, percSum, r, j)
    ensures c.Some? ==>
      exists k :: i <= k < |faces| && faces[k] == c.value && Exceeds(shares, faces, percSum, r, k) &&
        forall j :: i <= j < k ==> !Exceeds(shares, faces, percSum, r, j)
    decreases |faces| - i
  {
    if i == |faces| then None
    else if Exceeds(shares, faces, percSum, r, i) then Some(faces[i])
    else WalkFrom(shares, faces, percSum, r, i + 1)
  }

  /**
   * The face the weighted walk picks: the first face, in order, whose
   * cumulative share over percSum exceeds r. A zero percSum makes every
   * quotient NaN in the source, so nothing is picked.
   */
  function WalkChoice(shares: ShareMap, faces: seq<FaceId>, percSum: real, r: real): (c: Option<FaceId>)
    ensures percSum == 0.0 ==> c.None?
    ensures c.Some? ==> c.value in faces
    ensures percSum != 0.0 ==>
      (c.None? <==> forall j :: 0 <= j < |faces| ==> !Exceeds(shares, faces, percSum, r, j))
    ensures percSum != 0.0 && c.Some? ==>
      exists k :: 0 <= k < |faces| && faces[k] == c.value && Exceeds(shares, faces, percSum, r, k) &&
        forall j :: 0 <= j < k ==> !Exceeds(shares, faces, percSum, r, j)
  {
    if percSum == 0.0 then None else WalkFrom(shares, faces, percSum, r, 0)
  }

  /** In exact arithmetic forwPerc after k faces is the share of the first k faces over percSum. */
  lemma {:induction false} CumIsShareOfPrefix(shares: ShareMap, faces: seq<FaceId>, percSum: real, k: nat)
    requires percSum != 0.0 && k <= |faces|
    ensures Cum(shares, faces, percSum, k) == ShareSum(shares, faces[..k]) / percSum
  {
    if k > 0 {
      CumIsShareOfPrefix(shares, faces, percSum, k - 1);
      assert faces[..k][..k - 1] == faces[..k - 1];
      assert ShareSum(shares, faces[..k]) == ShareSum(shares, faces[..k - 1]) + Get(shares, faces[k - 1]);
      QuotientOfSum(ShareSum(shares, faces[..k - 1]), Get(shares, faces[k - 1]), percSum);
    }
  }

  lemma QuotientOfSum(a: real, b: real, p: real)
    requires p != 0.0
    ensures (a + b) / p == a / p + b / p
  {
  }

  /** When percSum is the total share of the faces, is not zero and r < 1, the walk picks a face. */
  lemma WalkChoosesBelowOne(shares: ShareMap, faces: seq<FaceId>, r: real)
    requires ShareSum(shares, faces) != 0.0 && r < 1.0
    ensures WalkChoice(shares, faces, ShareSum(shares, faces), r).Some?
  {
    var p := ShareSum(shares, faces);
    assert faces != [];
    CumIsShareOfPrefix(shares, faces, p, |faces|);
    assert faces[..|faces|] == faces;
    assert Cum(shares, faces, p, |faces|) == 1.0 by {
      SelfQuotient(p);
    }
    assert Exceeds(shares, faces, p, r, |faces| - 1);
  }

  /** The first k shares of non-negative faces add up to at most all of them. */
  lemma {:induction false} ShareSumPrefixAtMost(shares: ShareMap, faces: seq<FaceId>, k: nat)
    requires k <= |faces|
    requires forall i :: 0 <= i < |faces| ==> Get(shares, faces[i]) >= 0.0
    ensures ShareSum(shares, faces[..k]) <= ShareSum(shares, faces)
    decreases |faces|
  {
    assert faces[..|faces|] == faces;
    if k < |faces| {
      var init := faces[..|faces| - 1];
      assert init[..k] == faces[..k];
      ShareSumPrefixAtMost(shares, init, k);
    }
  }

  lemma SelfQuotient(p: real)
    requires p != 0.0
    ensures p / p == 1.0
  {
  }

  lemma QuotientAtMostOne(x: real, p: real)
    requires x <= p && p > 0.0
    ensures x / p <= 1.0
  {
  }

  /** With non-negative shares a draw of 1 exceeds no cumulative share, so the walk picks nothing. */
  lemma WalkPicksNothingAtOne(shares: ShareMap, faces: seq<FaceId>, r: real)
    requires ShareSum(shares, faces) > 0.0 && r >= 1.0
    requires forall i :: 0 <= i < |faces| ==> Get(shares, faces[i]) >= 0.0
    ensures WalkChoice(shares, faces, ShareSum(shares, faces), r) == None
  {
    var p := ShareSum(shares, faces);
    forall j | 0 <= j < |faces|
      ensures !Exceeds(shares, faces, p, r, j)
    {
      CumIsShareOfPrefix(shares, faces, p, j + 1);
      ShareSumPrefixAtMost(shares, faces, j + 1);
      QuotientAtMostOne(ShareSum(shares, faces[..j + 1]), p);
    }
  }

  /**
   * The decision afterReceiveInterest takes once the distribution for the
   * prefix exists: suppression first; a local ingress takes the first
   * eligible nexthop; a non-local ingress returns silently without eligible
   * faces, takes the only one, or walks the shares of several; a missing
   * face means a NO_ROUTE NACK.
   */
  function InterestDecision(suppression: RetxSuppressionResult, ingressLocal: bool, hops: seq<NextHop>,
                            eligible: FaceId -> bool, shares: ShareMap, r: real): (o: Outcome)
    ensures o.Suppressed? <==> suppression == RetxSuppress
    ensures o.Dropped? ==> !ingressLocal
  {
    if suppression == RetxSuppress then Suppressed
    else if ingressLocal then
      match FirstEligible(hops, eligible)
      case Some(f) => Forward(f)
      case None => Nack(NoRoute)
    else
      var faces := EligibleFaces(hops, eligible);
      if |faces| < 1 then Dropped
      else if |faces| == 1 then Forward(faces[0])
      else
        match WalkChoice(shares, faces, ShareSum(shares, faces), r)
        case Some(f) => Forward(f)
        case None => Nack(NoRoute)
  }

  /**
   * Whatever the path, an Interest goes only to an eligible nexthop face, and
   * it ends silently exactly when it arrived on a non-local face, was not
   * suppressed and no nexthop is eligible.
   */
  lemma InterestDecisionOutcomes(suppression: RetxSuppressionResult, ingressLocal: bool, hops: seq<NextHop>,
                                 eligible: FaceId -> bool, shares: ShareMap, r: real)
    ensures var o := InterestDecision(suppression, ingressLocal, hops, eligible, shares, r);
      o.Forward? ==> eligible(o.face) && o.face in Faces(hops)
    ensures InterestDecision(suppression, ingressLocal, hops, eligible, shares, r).Dropped? <==>
      suppression != RetxSuppress && !ingressLocal && forall j :: 0 <= j < |hops| ==> !eligible(hops[j].face)
  {
    EligibleFacesMembers(hops, eligible);
    var o := InterestDecision(suppression, ingressLocal, hops, eligible, shares, r);
    if o.Forward? && ingressLocal {
      var k :| 0 <= k < |hops| && hops[k].face == o.face && eligible(o.face) &&
        forall j :: 0 <= j < k ==> !eligible(hops[j].face);
      assert hops[k] in hops;
    }
    if !ingressLocal && (forall j :: 0 <= j < |hops| ==> !eligible(hops[j].face)) {
      assert FirstEligible(hops, eligible) == None;
    }
  }

  /**
   * A local ingress forwards to the first eligible nexthop whatever the
   * shares and the draw, and sends a NO_ROUTE NACK when none is eligible.
   */
  lemma LocalIngressTakesFirstEligible(suppression: RetxSuppressionResult, hops: seq<NextHop>,
                                       eligible: FaceId -> bool, shares: ShareMap, r: real, k: nat)
    requires suppression != RetxSuppress
    requires k < |hops| && eligible(hops[k].face)
    requires forall j :: 0 <= j < k ==> !eligible(hops[j].face)
    ensures InterestDecision(suppression, true, hops, eligible, shares, r) == Forward(hops[k].face)
  {
    var f := FirstEligible(hops, eligible);
    var k' :| 0 <= k' < |hops| && hops[k'].face == f.value && eligible(f.value) &&
      forall j :: 0 <= j < k' ==> !eligible(hops[j].face);
  }

  lemma LocalIngressWithoutEligibleNacks(suppression: RetxSuppressionResult, hops: seq<NextHop>,
                                         eligible: FaceId -> bool, shares: ShareMap, r: real)
    requires suppression != RetxSuppress
    requires forall j :: 0 <= j < |hops| ==> !eligible(hops[j].face)
    ensures InterestDecision(suppression, true, hops, eligible, shares, r) == Nack(NoRoute)
  {
  }

  /**
   * A non-local ingress with one eligible face forwards to it whatever its
   * share; with several it forwards to the face the walk picks, and it
   * always picks one when their total share is not zero and r < 1. A NACK
   * therefore needs several eligible faces and a zero total share or r = 1.
   */
  lemma RemoteIngressForwards(suppression: RetxSuppressionResult, hops: seq<NextHop>,
                              eligible: FaceId -> bool, shares: ShareMap, r: real)
    requires suppression != RetxSuppress && 0.0 <= r <= 1.0
    ensures |EligibleFaces(hops, eligible)| == 1 ==>
      InterestDecision(suppression, false, hops, eligible, shares, r) == Forward(EligibleFaces(hops, eligible)[0])
    ensures |EligibleFaces(hops, eligible)| > 1 ==>
      var faces := EligibleFaces(hops, eligible);
      var choice := WalkChoice(shares, faces, ShareSum(shares, faces), r);
      InterestDecision(suppression, false, hops, eligible, shares, r)
        == if choice.Some? then Forward(choice.value) else Nack(NoRoute)
    ensures InterestDecision(suppression, false, hops, eligible, shares, r).Nack? ==>
      |EligibleFaces(hops, eligible)| > 1 &&
      (ShareSum(shares, EligibleFaces(hops, eligible)) == 0.0 || r == 1.0)
  {
    var faces := EligibleFaces(hops, eligible);
    EligibleFacesMembers(hops, eligible);
    if |faces| > 1 && ShareSum(shares, faces) != 0.0 && r < 1.0 {
      WalkChoosesBelowOne(shares, faces, r);
    }
  }

  /**
   * The face that held the whole share is the ingress and so not eligible:
   * percSum is 0 and a NO_ROUTE NACK goes out although two faces are eligible.
   */
  lemma ZeroShareSumSendsNack()
    ensures InitialShares([NextHop(3, 1), NextHop(4, 2), NextHop(5, 3)]) == map[3 := 1.0, 4 := 0.0, 5 := 0.0]
    ensures InterestDecision(RetxNew, false, [NextHop(3, 1), NextHop(4, 2), NextHop(5, 3)],
                             f => f != 3, map[3 := 1.0, 4 := 0.0, 5 := 0.0], 0.5) == Nack(NoRoute)
  {
    var hops := [NextHop(3, 1), NextHop(4, 2), NextHop(5, 3)];
    assert hops[..2][..1] == [NextHop(3, 1)];
    assert hops[..2] == [NextHop(3, 1), NextHop(4, 2)];
    assert MinScan(hops[..1]) == (1, 3);
    assert MinScan(hops[..2]) == (1, 3);
    assert MinScan(hops) == (1, 3);
    assert Faces(hops) == {3, 4, 5} by {
      assert hops[0] in hops && hops[1] in hops && hops[2] in hops;
    }
    var eligible := (f: FaceId) => f != 3;
    var faces := EligibleFaces(hops, eligible);
    assert hops[1..][1..] == [NextHop(5, 3)];
    assert faces == [4, 5];
    assert [4, 5][..1] == [4];
    assert ShareSum(map[3 := 1.0, 4 := 0.0, 5 := 0.0], faces) == 0.0;
  }

  /** A draw of exactly 1 (rand() returning RAND_MAX) exceeds no cumulative share. */
  lemma DrawOfOneSendsNack()
    ensures InterestDecision(RetxNew, false, [NextHop(4, 1), NextHop(5, 1)],
                             f => true, map[4 := 0.5, 5 := 0.5], 1.0) == Nack(NoRoute)
  {
    var hops := [NextHop(4, 1), NextHop(5, 1)];
    var eligible := (f: FaceId) => true;
    var shares := map[4 := 0.5, 5 := 0.5];
    var faces := EligibleFaces(hops, eligible);
    assert hops[1..][1..] == [];
    assert faces == [4, 5];
    assert [4, 5][..1] == [4];
    assert ShareSum(shares, faces) == 1.0;
    WalkPicksNothingAtOne(shares, faces, 1.0);
  }

  /**
   * The walk with the fallback to the last eligible face: when the walk picks
   * nothing, the last eligible face is taken, so a face is always chosen.
   */
  function WalkWithFallback(shares: ShareMap, faces: seq<FaceId>, percSum: real, r: real): (c: Option<FaceId>)
    ensures faces != [] ==> c.Some? && c.value in faces
    ensures WalkChoice(shares, faces, percSum, r).Some? ==> c == WalkChoice(shares, faces, percSum, r)
    ensures WalkChoice(shares, faces, percSum, r).None? && faces != [] ==> c == Some(faces[|faces| - 1])
  {
    match WalkChoice(shares, faces, percSum, r)
    case Some(f) => Some(f)
    case None => if faces == [] then None else Some(faces[|faces| - 1])
  }

  /**
   * The Interest decision with the fallback walk: it agrees with the decision
   * as written wherever that forwards, and a non-local Interest that is not
   * suppressed and has an eligible face is always forwarded to one.
   */
  function InterestDecisionWithFallback(suppression: RetxSuppressionResult, ingressLocal: bool, hops: seq<NextHop>,
                                        eligible: FaceId -> bool, shares: ShareMap, r: real): (o: Outcome)
    ensures var written := InterestDecision(suppression, ingressLocal, hops, eligible, shares, r);
      !written.Nack? ==> o == written
    ensures suppression != RetxSuppress && !ingressLocal && EligibleFaces(hops, eligible) != [] ==>
      o.Forward? && o.face in EligibleFaces(hops, eligible)
  {
    if suppression == RetxSuppress || ingressLocal then
      InterestDecision(suppression, ingressLocal, hops, eligible, shares, r)
    else
      var faces := EligibleFaces(hops, eligible);
      if |faces| < 1 then Dropped
      else if |faces| == 1 then Forward(faces[0])
      else
        match WalkWithFallback(shares, faces, ShareSum(shares, faces), r)
        case Some(f) => Forward(f)
        case None => Nack(NoRoute)
  }

  /** eligbleFaces and percSum, built by one pass over the nexthops. */
  method CollectEligible(hops: seq<NextHop>, eligible: FaceId -> bool, shares: ShareMap)
    returns (faces: seq<FaceId>, percSum: real)
    ensures faces == EligibleFaces(hops, eligible)
    ensures percSum == ShareSum(shares, faces)
  {
    faces, percSum := [], 0.0;
    for i := 0 to |hops|
      invariant faces == EligibleFaces(hops[..i], eligible)
      invariant percSum == ShareSum(shares, faces)
    {
      var n := hops[i];
      assert hops[..i + 1] == hops[..i] + [n];
      EligibleFacesAppend(hops[..i], [n], eligible);
      if eligible(n.face) {
        assert EligibleFaces([n], eligible) == [n.face];
        var next := faces + [n.face];
        assert next[..|next| - 1] == faces;
        percSum := percSum + Get(shares, n.face);
        faces := next;
      } else {
        assert EligibleFaces([n], eligible) == [];
      }
    }
    assert hops[..|hops|] == hops;
  }

  /** The cumulative walk over the eligible faces, leaving at the first face whose forwPerc exceeds r. */
  method WeightedWalk(faces: seq<FaceId>, shares: ShareMap, percSum: real, r: real)
    returns (chosen: Option<FaceId>)
    ensures chosen == WalkChoice(shares, faces, percSum, r)
  {
    chosen := None;
    if percSum == 0.0 {
      return;
    }
    var forwPerc := 0.0;
    var i := 0;
    while i < |faces|
      invariant 0 <= i <= |faces|
      invariant forwPerc == Cum(shares, faces, percSum, i)
      invariant WalkChoice(shares, faces, percSum, r) == WalkFrom(shares, faces, percSum, r, i)
      invariant chosen == None
    {
      forwPerc := forwPerc + Get(shares, faces[i]) / percSum;
      if r < forwPerc {
        chosen := Some(faces[i]);
        break;
      }
      i := i + 1;
    }
  }
}
