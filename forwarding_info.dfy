/**
 * MtForwardingInfo, the per-prefix record the strategy keeps: the prefix it
 * was created for and the forwarding share of every face. Its header is not
 * part of this model; each accessor below states the behaviour assumed of it.
 */
module ForwardingInfo {

  import opened Shares

  class MtForwardingInfo {
    /** The FIB prefix recorded at creation (setPrefix). */
    var prefix: seq<string>
    /** Face id to forwarding share. */
    var forwPerc: ShareMap

    /** A fresh record holds no faces. */
    constructor ()
      ensures prefix == [] && forwPerc == map[]
    {
      prefix := [];
      forwPerc := map[];
    }

    /** getforwPerc: assumed a lookup that yields 0.0 for a face not held, and stores nothing. */
    function GetForwPerc(faceId: FaceId): (r: real)
      reads this
      ensures faceId in forwPerc ==> r == forwPerc[faceId]
      ensures faceId !in forwPerc ==> r == 0.0
    {
      Get(forwPerc, faceId)
    }

    /** getFaceCount: assumed the number of faces held. */
    function GetFaceCount(): (n: nat)
      reads this
      ensures n == 0 <==> forwPerc == map[]
      ensures forall f :: f in forwPerc ==> n >= 1
    {
      |forwPerc|
    }

    /** getForwPercMap: the whole map, taken as a copy by its caller. */
    function GetForwPercMap(): ShareMap
      reads this
    {
      forwPerc
    }

    /** setforwPerc: assumed a store. */
    method SetForwPerc(faceId: FaceId, perc: real)
      modifies this
      ensures forwPerc == old(forwPerc)[faceId := perc]
      ensures prefix == old(prefix)
    {
      forwPerc := forwPerc[faceId := perc];
    }

    /** increaseforwPerc: assumed an add to the current share, storing the face if it was absent. */
    method IncreaseForwPerc(faceId: FaceId, delta: real)
      modifies this
      ensures forwPerc == old(forwPerc)[faceId := Get(old(forwPerc), faceId) + delta]
      ensures prefix == old(prefix)
    {
      forwPerc := forwPerc[faceId := Get(forwPerc, faceId) + delta];
    }

    /** setPrefix: records the prefix; the model keeps the name where the source keeps its URI. */
    method SetPrefix(name: seq<string>)
      modifies this
      ensures prefix == name
      ensures forwPerc == old(forwPerc)
    {
      prefix := name;
    }
  }
}
