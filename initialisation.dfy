/**
 * initializeForwMap: the one-time distribution of a new prefix, which gives
 * the whole share to the first nexthop of lowest cost.
 */
module Initialisation {

  import opened Shares

  /** A FIB nexthop: the face it leads to and its routing cost. */
  datatype NextHop = NextHop(face: FaceId, cost: int)

  /** std::numeric_limits<int>::max(), the start value of minCost and lowestId. */
  const IntMax: int := 0x7fff_ffff

  /**
   * The pair (minCost, lowestId) the first loop of initializeForwMap holds
   * after it has scanned hops: a cost replaces the current minimum only when
   * it is strictly lower.
   */
  function MinScan(hops: seq<NextHop>): (r: (int, int))
    ensures r.0 <= IntMax && (r.0 == IntMax ==> r.1 == IntMax)
    ensures forall j :: 0 <= j < |hops| ==> r.0 <= hops[j].cost
    decreases |hops|
  {
    if hops == [] then (IntMax, IntMax)
    else
      var prev := MinScan(hops[..|hops| - 1]);
      var h := hops[|hops| - 1];
      if h.cost < prev.0 then (h.cost, h.face) else prev
  }

  /** The faces the nexthops lead to. */
  function Faces(hops: seq<NextHop>): set<FaceId>
  {
    set h | h in hops :: h.face
  }

  /** What the second loop writes: 1.0 for the face whose id equals winner, 0.0 for every other. */
  function Assigned(hops: seq<NextHop>, winner: int): ShareMap
  {
    map f | f in Faces(hops) :: if f == winner then 1.0 else 0.0
  }

  /** The entries initializeForwMap writes for a nexthop list. */
  function InitialShares(hops: seq<NextHop>): (r: ShareMap)
    ensures r.Keys == Faces(hops)
    ensures forall f :: f in r ==> r[f] == 0.0 || r[f] == 1.0
  {
    Assigned(hops, MinScan(hops).1)
  }

  /** Position k holds a lowest cost of hops, and no earlier position does. */
  predicate IsFirstMin(hops: seq<NextHop>, k: int)
  {
    && 0 <= k < |hops|
    && (forall j :: 0 <= j < |hops| ==> hops[k].cost <= hops[j].cost)
    && (forall j :: 0 <= j < k ==> hops[j].cost > hops[k].cost)
  }

  /**
   * The first loop finds the first nexthop of lowest cost; when every cost is
   * at least IntMax it finds none and lowestId stays IntMax.
   */
  lemma {:induction false} MinScanFindsFirstMin(hops: seq<NextHop>)
    ensures MinScan(hops).0 <= IntMax
    ensures forall j :: 0 <= j < |hops| ==> MinScan(hops).0 <= hops[j].cost
    ensures MinScan(hops).0 == IntMax ==> MinScan(hops).1 == IntMax
    ensures MinScan(hops).0 < IntMax ==>
      exists k :: IsFirstMin(hops, k) && hops[k].face == MinScan(hops).1 && hops[k].cost == MinScan(hops).0
    decreases |hops|
  {
    if hops != [] {
      var n := |hops| - 1;
      var init := hops[..n];
      MinScanFindsFirstMin(init);
      assert forall j :: 0 <= j < n ==> init[j] == hops[j];
      var prev := MinScan(init);
      if hops[n].cost < prev.0 {
        assert IsFirstMin(hops, n);
      } else if prev.0 < IntMax {
        var k :| IsFirstMin(init, k) && init[k].face == prev.1 && init[k].cost == prev.0;
        assert IsFirstMin(hops, k);
      }
    }
  }

  /**
   * Entries are written for exactly the nexthop faces; each gets 1.0 when
   * its id is lowestId and 0.0 otherwise, so an empty list writes nothing.
   */
  lemma InitialSharesFaces(hops: seq<NextHop>)
    ensures InitialShares(hops).Keys == Faces(hops)
    ensures hops == [] ==> InitialShares(hops) == map[]
    ensures forall j :: 0 <= j < |hops| ==>
      InitialShares(hops)[hops[j].face] == if hops[j].face == MinScan(hops).1 then 1.0 else 0.0
  {
    forall j | 0 <= j < |hops|
      ensures hops[j].face in Faces(hops)
    {
      assert hops[j] in hops;
    }
  }

  /**
   * When some nexthop costs less than IntMax, the first nexthop of lowest
   * cost gets share 1.0, every other face 0.0, and the result is a
   * distribution.
   */
  lemma InitialSharesSingleWinner(hops: seq<NextHop>)
    requires exists j :: 0 <= j < |hops| && hops[j].cost < IntMax
    ensures exists k :: IsFirstMin(hops, k) && InitialShares(hops)[hops[k].face] == 1.0 &&
              forall g :: g in InitialShares(hops) && g != hops[k].face ==> InitialShares(hops)[g] == 0.0
    ensures IsDistribution(InitialShares(hops))
  {
    MinScanFindsFirstMin(hops);
    var j0 :| 0 <= j0 < |hops| && hops[j0].cost < IntMax;
    assert MinScan(hops).0 < IntMax;
    var k :| IsFirstMin(hops, k) && hops[k].face == MinScan(hops).1 && hops[k].cost == MinScan(hops).0;
    InitialSharesFaces(hops);
    SingleWinnerIsDistribution(InitialShares(hops), hops[k].face);
  }

  /** Scanning one more nexthop writes one more entry. */
  lemma AssignedSnoc(hops: seq<NextHop>, i: nat, winner: int)
    requires i < |hops|
    ensures Assigned(hops[..i + 1], winner)
         == Assigned(hops[..i], winner)[hops[i].face := if hops[i].face == winner then 1.0 else 0.0]
  {
    assert hops[..i + 1] == hops[..i] + [hops[i]];
    assert Faces(hops[..i + 1]) == Faces(hops[..i]) + {hops[i].face} by {
      forall f | f in Faces(hops[..i + 1]) ensures f in Faces(hops[..i]) + {hops[i].face} {
        var h :| h in hops[..i + 1] && h.face == f;
        if h != hops[i] { assert h in hops[..i]; }
      }
      forall f | f in Faces(hops[..i]) ensures f in Faces(hops[..i + 1]) {
        var h :| h in hops[..i] && h.face == f;
        assert h in hops[..i + 1];
      }
      assert hops[i] in hops[..i + 1];
    }
  }

  /** Writing one more entry over a base map, as the second loop of initializeForwMap does. */
  lemma AssignedOverStep(base: ShareMap, hops: seq<NextHop>, i: nat, winner: int)
    requires i < |hops|
    ensures base + Assigned(hops[..i + 1], winner)
         == (base + Assigned(hops[..i], winner))[hops[i].face := if hops[i].face == winner then 1.0 else 0.0]
  {
    AssignedSnoc(hops, i, winner);
  }
}
