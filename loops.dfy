/**
 The loop builder (`makeLoops`): each intersection record of one face becomes
 one boundary fragment in that face's local frame.
 */
module Loops {
  import opened MeshTypes

  /** The record's segment start in the local frame of `t`. */
  function StartOf(k: Kernel, t: Tri, rec: MeshIntersection): Point2
  {
    Project(k, rec.result.start, t)
  }

  /** The record's segment end in the local frame of `t`. */
  function EndOf(k: Kernel, t: Tri, rec: MeshIntersection): Point2
  {
    Project(k, rec.result.end, t)
  }

  /** The loop one record becomes: a single point when its projected
      endpoints coincide within EPS_SMALL, else the edge with its ends swapped. */
  function LoopOf(k: Kernel, t: Tri, rec: MeshIntersection): Loop
  {
    var ps, pe := StartOf(k, t, rec), EndOf(k, t, rec);
    if k.equals2d(ps, pe) then Loop(true, ps, ps) else Loop(false, pe, ps)
  }

  /** The loops of a record list, one per record, in record order. */
  function LoopsOf(k: Kernel, t: Tri, records: seq<MeshIntersection>): seq<Loop>
  {
    seq(|records|, n requires 0 <= n < |records| => LoopOf(k, t, records[n]))
  }

  /**
   Builds the loops of face (a, b, c) from its records: exactly one loop per
   record, in record order; a record whose projected ends are equal within
   EPS_SMALL gives a single-point loop at its start, any other gives the edge
   from its end to its start.
   */
  method MakeLoops(k: Kernel, a: Point3, b: Point3, c: Point3, records: seq<MeshIntersection>)
    returns (loops: seq<Loop>)
    ensures |loops| == |records|
    ensures forall n :: 0 <= n < |records| ==>
      (loops[n].hasOne <==> k.equals2d(StartOf(k, Tri(a, b, c), records[n]), EndOf(k, Tri(a, b, c), records[n])))
    ensures forall n :: 0 <= n < |records| && loops[n].hasOne ==>
      loops[n].v1 == StartOf(k, Tri(a, b, c), records[n]) && loops[n].v2 == loops[n].v1
    ensures forall n :: 0 <= n < |records| && !loops[n].hasOne ==>
      loops[n].v1 == EndOf(k, Tri(a, b, c), records[n]) && loops[n].v2 == StartOf(k, Tri(a, b, c), records[n])
    ensures loops == LoopsOf(k, Tri(a, b, c), records)
  {
    ghost var t := Tri(a, b, c);
    loops := [];
    for n := 0 to |records|
      invariant loops == LoopsOf(k, t, records[..n])
    {
      var ps := k.projectOnTriangle(records[n].result.start, a, b, c);
      var pe := k.projectOnTriangle(records[n].result.end, a, b, c);
      if k.equals2d(ps, pe) {
        loops := loops + [Loop(true, ps, ps)];
      } else {
        loops := loops + [Loop(false, pe, ps)];
      }
      assert records[..n + 1] == records[..n] + [records[n]];
    }
    assert records[..|records|] == records;
  }

  /** Loops of a concatenation are the concatenation of the loops: each record
      is turned into a loop on its own, independently of its neighbours. */
  lemma LoopsOfAppend(k: Kernel, t: Tri, r1: seq<MeshIntersection>, r2: seq<MeshIntersection>)
    ensures LoopsOf(k, t, r1 + r2) == LoopsOf(k, t, r1) + LoopsOf(k, t, r2)
  {
    var lhs, rhs := LoopsOf(k, t, r1 + r2), LoopsOf(k, t, r1) + LoopsOf(k, t, r2);
    forall n | 0 <= n < |lhs| ensures lhs[n] == rhs[n] {
      if n < |r1| {
        assert (r1 + r2)[n] == r1[n];
      } else {
        assert (r1 + r2)[n] == r2[n - |r1|];
      }
    }
  }

  /** The condition negated by the debug branch: the face's only loop is a
      single point (no debug vector is built then). It holds exactly when there
      is one record and its projected ends coincide. */
  lemma SinglePointOnly(k: Kernel, t: Tri, records: seq<MeshIntersection>)
    ensures var loops := LoopsOf(k, t, records);
      (|loops| == 1 && loops[0].hasOne)
      <==> (|records| == 1 && k.equals2d(StartOf(k, t, records[0]), EndOf(k, t, records[0])))
  {
  }
}
