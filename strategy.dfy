/**
 * PCONStrategy: the per-prefix share store (innerMap) and the three
 * operations that read and change it, on an incoming Interest, on an
 * incoming Data, and the one-time initialisation of a new prefix.
 */
module Strategy {

  import opened Wrappers
  import opened Shares
  import opened ForwardingInfo
  import opened Redistribution
  import opened Initialisation
  import opened Selection

  /** A name as its sequence of components. */
  type Name = seq<string>

  /**
   * Name::getPrefix(1): the name cut to its first component, the empty name
   * for the empty name. Its URI is the innerMap key; since distinct names have
   * distinct URIs, the name itself serves as the key here.
   */
  function Key(name: Name): (k: Name)
    ensures |k| <= 1 && k <= name
    ensures name != [] ==> k == [name[0]]
  {
    if name == [] then [] else name[..1]
  }

  class PconStrategy {
    /** innerMap: first-component key to the distribution for it, each owned by its key alone. */
    var innerMap: map<Name, MtForwardingInfo>

    /** No record is shared by two keys (each entry is a unique_ptr). */
    ghost predicate Valid()
      reads this
    {
      forall k1, k2 :: k1 in innerMap && k2 in innerMap && k1 != k2 ==> innerMap[k1] != innerMap[k2]
    }

    constructor ()
      ensures Valid() && innerMap == map[]
    {
      innerMap := map[];
    }

    /** getPrefixMeasurements: the record for the FIB prefix's key, null when there is none. */
    function GetPrefixMeasurements(fibPrefix: Name): (info: MtForwardingInfo?)
      reads this
      ensures info == null <==> Key(fibPrefix) !in innerMap
      ensures info != null ==> info == innerMap[Key(fibPrefix)]
    {
      var key := Key(fibPrefix);
      if key !in innerMap then null else innerMap[key]
    }

    /**
     * addPrefixMeasurements: the record for the FIB prefix's key, inserted
     * empty when the key is absent and left as it is otherwise.
     */
    method AddPrefixMeasurements(fibPrefix: Name) returns (info: MtForwardingInfo)
      requires Valid()
      modifies this
      ensures Valid()
      ensures Key(fibPrefix) in innerMap && info == innerMap[Key(fibPrefix)]
      ensures Key(fibPrefix) in old(innerMap) ==> innerMap == old(innerMap)
      ensures Key(fibPrefix) !in old(innerMap) ==>
        fresh(info) && info.forwPerc == map[] && innerMap == old(innerMap)[Key(fibPrefix) := info]
    {
      var key := Key(fibPrefix);
      if key !in innerMap {
        var created := new MtForwardingInfo();
        innerMap := innerMap[key := created];
      }
      info := innerMap[key];
    }

    /**
     * findPrefixMeasurementsLPM: looks up the PIT name's first component
     * only; (empty name, null) when there is no record, otherwise that
     * one-component prefix and its record.
     */
    function FindPrefixMeasurementsLPM(pitName: Name): (r: (Name, MtForwardingInfo?))
      reads this
      ensures r.1 == null <==> Key(pitName) !in innerMap
      ensures r.1 == null ==> r.0 == []
      ensures r.1 != null ==> r.0 == Key(pitName) && r.1 == innerMap[Key(pitName)]
    {
      var key := Key(pitName);
      if key !in innerMap then ([], null) else (key, innerMap[key])
    }

    /**
     * initializeForwMap: a first loop finds the first nexthop of lowest cost,
     * a second writes 1.0 for its face and 0.0 for every other nexthop face.
     */
    method InitializeForwMap(info: MtForwardingInfo, nextHops: seq<NextHop>)
      modifies info
      ensures info.forwPerc == old(info.forwPerc) + InitialShares(nextHops)
      ensures info.prefix == old(info.prefix)
    {
      var lowestId := IntMax;
      var minCost := IntMax;
      for i := 0 to |nextHops|
        invariant (minCost, lowestId) == MinScan(nextHops[..i])
      {
        assert nextHops[..i + 1][..i] == nextHops[..i];
        if nextHops[i].cost < minCost {
          minCost := nextHops[i].cost;
          lowestId := nextHops[i].face;
        }
      }
      assert nextHops[..|nextHops|] == nextHops;
      assert Assigned(nextHops[..0], lowestId) == map[];
      for i := 0 to |nextHops|
        invariant info.forwPerc == old(info.forwPerc) + Assigned(nextHops[..i], lowestId)
        invariant info.prefix == old(info.prefix)
      {
        var perc := 0.0;
        if nextHops[i].face == lowestId {
          perc := 1.0;
        }
        AssignedOverStep(old(info.forwPerc), nextHops, i, lowestId);
        info.SetForwPerc(nextHops[i].face, perc);
      }
    }

    /**
     * reduceFwPerc: with more than one face, the reduced face loses
     * min(change, its share) and every other face of the map gains an equal
     * part of it, iterating over a copy of the map in no particular order.
     */
    static method ReduceFwPerc(forwInfo: MtForwardingInfo, reducedFaceId: FaceId, change: real)
      modifies forwInfo
      ensures forwInfo.forwPerc == Reduced(old(forwInfo.forwPerc), reducedFaceId, change)
      ensures forwInfo.prefix == old(forwInfo.prefix)
    {
      if forwInfo.GetFaceCount() == 1 {
        return;
      }
      var changeRate := 0.0 - Min(change, forwInfo.GetForwPerc(reducedFaceId));
      forwInfo.IncreaseForwPerc(reducedFaceId, changeRate);
      var forwMap := forwInfo.GetForwPercMap();
      ghost var d := Spread(changeRate, |forwMap|);
      var pending := forwMap.Keys;
      while pending != {}
        invariant pending <= forwMap.Keys
        invariant forwInfo.forwPerc.Keys == forwMap.Keys
        invariant forall g :: g in forwMap ==>
          forwInfo.forwPerc[g] == if g == reducedFaceId || g in pending then forwMap[g] else forwMap[g] + d
        invariant forwInfo.prefix == old(forwInfo.prefix)
        decreases pending
      {
        var faceId :| faceId in pending;
        if faceId == reducedFaceId {
          // Already changed above.
        } else {
          TwoFaces(forwMap, faceId, reducedFaceId);
          var tempChangeRate := Abs(changeRate / (|forwMap| - 1) as real);
          forwInfo.IncreaseForwPerc(faceId, tempChangeRate);
        }
        pending := pending - {faceId};
      }
    }

    /**
     * The first step of afterReceiveInterest: look up the record for the FIB
     * prefix's key and, when there is none, create it, record the prefix and
     * initialise its shares from the nexthops.
     */
    method LookupOrInitialise(fibPrefix: Name, nextHops: seq<NextHop>) returns (info: MtForwardingInfo)
      requires Valid()
      modifies this
      ensures Valid()
      ensures innerMap.Keys == old(innerMap.Keys) + {Key(fibPrefix)}
      ensures info == innerMap[Key(fibPrefix)]
      ensures forall k :: k in old(innerMap) ==>
        innerMap[k] == old(innerMap[k]) && innerMap[k].forwPerc == old(innerMap[k].forwPerc)
      ensures Key(fibPrefix) !in old(innerMap) ==>
        fresh(info) && info.prefix == fibPrefix && info.forwPerc == InitialShares(nextHops)
    {
      var found := GetPrefixMeasurements(fibPrefix);
      if found == null {
        info := AddPrefixMeasurements(fibPrefix);
        info.SetPrefix(fibPrefix);
        InitializeForwMap(info, nextHops);
        assert info.forwPerc == InitialShares(nextHops) by {
          assert map[] + InitialShares(nextHops) == InitialShares(nextHops);
        }
      } else {
        info := found;
      }
    }

    /**
     * afterReceiveInterest: the distribution for the FIB prefix's key is
     * created and initialised when absent, before the suppression verdict is
     * looked at; then the decision is taken on its shares.
     */
    method AfterReceiveInterest(fibPrefix: Name, nextHops: seq<NextHop>, suppression: RetxSuppressionResult,
                                ingressLocal: bool, eligible: FaceId -> bool, r: real)
      returns (outcome: Outcome)
      requires Valid() && 0.0 <= r <= 1.0
      modifies this
      ensures Valid()
      ensures innerMap.Keys == old(innerMap.Keys) + {Key(fibPrefix)}
      ensures forall k :: k in old(innerMap) ==>
        innerMap[k] == old(innerMap[k]) && innerMap[k].forwPerc == old(innerMap[k].forwPerc)
      ensures Key(fibPrefix) !in old(innerMap) ==>
        fresh(innerMap[Key(fibPrefix)]) && innerMap[Key(fibPrefix)].prefix == fibPrefix &&
        innerMap[Key(fibPrefix)].forwPerc == InitialShares(nextHops)
      ensures outcome ==
        InterestDecision(suppression, ingressLocal, nextHops, eligible, innerMap[Key(fibPrefix)].forwPerc, r)
    {
      var info := LookupOrInitialise(fibPrefix, nextHops);
      if suppression == RetxSuppress {
        return Suppressed;
      }
      var outFace: Option<FaceId> := None;
      if ingressLocal {
        outFace := FirstEligible(nextHops, eligible);
      } else {
        var eligibleFaces, percSum := CollectEligible(nextHops, eligible, info.forwPerc);
        if |eligibleFaces| < 1 {
          return Dropped;
        } else if |eligibleFaces| == 1 {
          outFace := Some(eligibleFaces[0]);
        } else {
          outFace := WeightedWalk(eligibleFaces, info.forwPerc, percSum, r);
        }
      }
      if outFace.None? {
        outcome := Nack(NoRoute);
      } else {
        outcome := Forward(outFace.value);
      }
    }

    /**
     * beforeSatisfyInterest: a congestion mark above zero on a face whose id
     * is above 256 cuts that face's share in the distribution found for the
     * PIT name by CHANGE_PER_MARK times the share. The source dereferences
     * the record without a null check, so the key must be present then.
     */
    method BeforeSatisfyInterest(pitName: Name, ingressFace: FaceId, congestionMark: nat)
      requires Valid()
      requires congestionMark > 0 && ingressFace > 256 ==> Key(pitName) in innerMap
      modifies innerMap.Values
      ensures Valid() && innerMap == old(innerMap)
      ensures forall k :: k in innerMap ==> innerMap[k].prefix == old(innerMap[k].prefix)
      ensures forall k :: k in innerMap && k != Key(pitName) ==> innerMap[k].forwPerc == old(innerMap[k].forwPerc)
      ensures Key(pitName) in innerMap ==>
        innerMap[Key(pitName)].forwPerc == Feedback(old(innerMap[Key(pitName)].forwPerc), ingressFace, congestionMark)
    {
      var (currentPrefix, measurementInfo) := FindPrefixMeasurementsLPM(pitName);
      if congestionMark > 0 && ingressFace > 256 {
        var fwPerc := measurementInfo.GetForwPerc(ingressFace);
        var changePerc := ChangePerMark * fwPerc;
        ReduceFwPerc(measurementInfo, ingressFace, changePerc);
      }
    }

    /**
     * The Data path with a null check: without a record for the PIT name's
     * key there is nothing to adjust, so nothing changes.
     */
    method BeforeSatisfyInterestGuarded(pitName: Name, ingressFace: FaceId, congestionMark: nat)
      requires Valid()
      modifies innerMap.Values
      ensures Valid() && innerMap == old(innerMap)
      ensures forall k :: k in innerMap ==> innerMap[k].prefix == old(innerMap[k].prefix)
      ensures forall k :: k in innerMap && k != Key(pitName) ==> innerMap[k].forwPerc == old(innerMap[k].forwPerc)
      ensures Key(pitName) in innerMap ==>
        innerMap[Key(pitName)].forwPerc == Feedback(old(innerMap[Key(pitName)].forwPerc), ingressFace, congestionMark)
    {
      var (currentPrefix, measurementInfo) := FindPrefixMeasurementsLPM(pitName);
      if measurementInfo != null && congestionMark > 0 && ingressFace > 256 {
        var fwPerc := measurementInfo.GetForwPerc(ingressFace);
        var changePerc := ChangePerMark * fwPerc;
        ReduceFwPerc(measurementInfo, ingressFace, changePerc);
      }
    }
  }

  /** A second addPrefixMeasurements for the same prefix returns the same record and changes nothing. */
  method AddPrefixMeasurementsTwice(s: PconStrategy, fibPrefix: Name) returns (first: MtForwardingInfo, second: MtForwardingInfo)
    requires s.Valid()
    modifies s
    ensures s.Valid() && first == second && Key(fibPrefix) in s.innerMap
    ensures s.innerMap == if Key(fibPrefix) in old(s.innerMap) then old(s.innerMap)
                          else old(s.innerMap)[Key(fibPrefix) := first]
  {
    first := s.AddPrefixMeasurements(fibPrefix);
    ghost var between := s.innerMap;
    second := s.AddPrefixMeasurements(fibPrefix);
    assert s.innerMap == between;
  }

  /**
   * Under a default route (FIB prefix "/") an Interest for /a/b stores its
   * distribution under the empty key, while the Data path looks up "/a":
   * a congestion-marked Data for it from a face above 256 finds no record.
   */
  method RootRouteLeavesDataPathWithoutRecord() returns (s: PconStrategy)
    ensures s.Valid()
    ensures Key([]) in s.innerMap && Key(["a", "b"]) !in s.innerMap
  {
    s := new PconStrategy();
    var outcome := s.AfterReceiveInterest([], [NextHop(300, 1)], RetxNew, false, f => true, 0.5);
    assert Key(["a", "b"]) == ["a"];
  }
}
