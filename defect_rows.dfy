/**
 * How a detection result becomes an `HSDefect` row in the controllers
 * that talk to the detection server: the class name comes from
 * `DEFECT_NAMES` with no fallback, the box is printed comma-separated.
 */
module DefectRows {
  import opened Wrappers
  import opened Tables
  import opened Protocol
  import opened Models

  /** `",".join(map(str, box))`, with `render` standing for `str(float)`. */
  function BboxText(b: Box, render: real -> string): string
  {
    render(b.x1) + "," + render(b.y1) + "," + render(b.x2) + "," + render(b.y2)
  }

  /** The row for one result, when its class id has a name. */
  function RowOf(d: Det, name: string, imageId: nat, render: real -> string): Defect
  {
    Defect(name, Some(BboxText(d.box, render)), Some(d.confidence), imageId)
  }

  predicate Named(results: seq<Det>)
  {
    forall i :: 0 <= i < |results| ==> DefectName(results[i].classId).Some?
  }

  /**
   * The rows added for a result list: one per result, in result order;
   * None when some class id has no name (`DEFECT_NAMES[class_id]` raises).
   */
  function Rows(results: seq<Det>, imageId: nat, render: real -> string): (r: Option<seq<Defect>>)
    ensures r.Some? <==> Named(results)
    ensures r.Some? ==> |r.value| == |results|
    ensures r.Some? ==> forall i :: 0 <= i < |results| ==>
      r.value[i] == RowOf(results[i], DefectName(results[i].classId).value, imageId, render)
  {
    if results == [] then Some([])
    else
      var n := |results| - 1;
      match Rows(results[..n], imageId, render)
      case None => None
      case Some(prev) =>
        match DefectName(results[n].classId)
        case None => None
        case Some(name) => Some(prev + [RowOf(results[n], name, imageId, render)])
  }

  /** Every row belongs to the image, and each row's type is one of the four names. */
  lemma RowsBelongToImage(results: seq<Det>, imageId: nat, render: real -> string)
    requires Rows(results, imageId, render).Some?
    ensures forall k :: 0 <= k < |results| ==>
      Rows(results, imageId, render).value[k].imageId == imageId
      && Rows(results, imageId, render).value[k].defectType in DefectNames
  {
    forall k | 0 <= k < |results|
      ensures Rows(results, imageId, render).value[k].defectType in DefectNames
    {
      var c := results[k].classId;
      assert DefectName(c).Some?;
      if c >= 0 { assert DefectName(c).value == DefectNames[c]; }
      else { assert DefectName(c).value == DefectNames[4 + c]; }
    }
  }

  /**
   * The `for det in response.results: db.session.add(HSDefect(...))`
   * loop: the rows in order, or None at the first class id without a name.
   */
  method SaveDefects(results: seq<Det>, imageId: nat, render: real -> string) returns (r: Option<seq<Defect>>)
    ensures r == Rows(results, imageId, render)
  {
    var rows: seq<Defect> := [];
    for i := 0 to |results|
      invariant Rows(results[..i], imageId, render) == Some(rows)
    {
      var d := results[i];
      assert results[..i + 1][..i] == results[..i];
      match DefectName(d.classId)
      case None =>
        assert !Named(results) by { assert DefectName(results[i].classId).None?; }
        return None;
      case Some(name) =>
        rows := rows + [RowOf(d, name, imageId, render)];
    }
    assert results[..|results|] == results;
    r := Some(rows);
  }
}
