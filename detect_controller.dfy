/**
 * The detection endpoints: `single-detect` runs one stored image through
 * the detection server and records the outcome; `batch-detect` does the
 * same for every undetected image of a batch and streams one progress
 * message per image after an initial list of the pending ids.
 */
module DetectController {
  import opened Wrappers
  import opened Text
  import opened Tables
  import opened Protocol
  import opened Dates
  import opened Models
  import opened DefectRows

  /** What reading an image's file and sending its bytes to the detector gives. */
  datatype Probe = Unreadable | Raises | Responds(response: DetectResponse)

  /** `f"{splitext(orig)[0]}_processed{splitext(orig)[1]}"`. */
  function ProcessedName(original: string): (r: string)
    ensures SplitExt(r) == (SplitExt(original).0 + "_processed", SplitExt(original).1)
  {
    var tag := "_processed";
    assert Lacks(tag, '.') && Lacks(tag, '/') by {
      forall k | 0 <= k < |tag| ensures tag[k] != '.' && tag[k] != '/' {
        assert tag[k] in "_processed";
      }
    }
    SuffixedSplit(original, tag);
    Suffixed(original, tag)
  }

  /** The row after a detection: processed name and detect time set, nothing else touched. */
  function Marked(img: Image, now: DateTime): Image
  {
    img.(processedPath := Some(ProcessedName(img.originalPath)), detectTime := Some(now))
  }

  /**
   * The commit that follows a response: the image row marked and one
   * defect row per result. None when some class id has no name, since
   * the exception comes before the commit.
   */
  function Record(db: Db, img: Image, resp: DetectResponse, now: DateTime, render: real -> string): Option<Db>
  {
    match Rows(resp.results, img.imageId, render)
    case None => None
    case Some(rows) => Some(Db(db.batches, UpdateImage(db.images, Marked(img, now)), db.defects + rows))
  }

  // ------------------------------------------------------------------
  // single-detect

  /** The `imageId` argument resolved to a stored image, if any. */
  function Lookup(db: Db, arg: Option<string>): Option<Image>
  {
    if arg.None? || arg.value == "" then None
    else match KeyOf(arg.value)
      case None => None
      case Some(key) => FindImage(db.images, key)
  }

  /** The answers of `single-detect`; `Crashed` is an exception Flask turns into a 500. */
  datatype SingleReply =
    | MissingImageId
    | ImageNotFound
    | ReadFailed
    | Crashed
    | Report(hasDefect: bool, imageId: nat, detectTime: DateTime, processed: string, defects: seq<Defect>)

  function SingleStatus(r: SingleReply): nat
  {
    match r
    case MissingImageId => 400
    case ImageNotFound => 404
    case ReadFailed => 500
    case Crashed => 500
    case Report(_, _, _, _, _) => 200
  }

  /**
   * `single-detect` as a function of the tables, the argument, the probe
   * of each image (by id) and the clock. The report lists every defect
   * row of the image, the new ones after those of earlier runs.
   */
  function SingleDetect(db: Db, arg: Option<string>, probe: nat -> Probe, now: DateTime, render: real -> string)
    : (r: (Db, SingleReply))
    requires Valid(now)
    ensures r.1 == MissingImageId <==> arg.None? || arg.value == ""
    ensures r.1 == ImageNotFound <==> arg.Some? && arg.value != "" && Lookup(db, arg).None?
    ensures r.1 == ReadFailed <==> Lookup(db, arg).Some? && probe(Lookup(db, arg).value.imageId) == Unreadable
    ensures r.1 == Crashed <==> Lookup(db, arg).Some? && Fatal(probe(Lookup(db, arg).value.imageId))
    ensures !r.1.Report? ==> r.0 == db
    ensures r.1.Report? ==>
      var img := Lookup(db, arg).value;
      var resp := probe(img.imageId).response;
      var rows := Rows(resp.results, img.imageId, render).value;
      && probe(img.imageId).Responds?
      && (r.1.hasDefect <==> |resp.results| > 0)
      && r.1.imageId == img.imageId && r.1.detectTime == now
      && r.1.processed == DayText(now) + "/" + ProcessedName(img.originalPath)
      && r.0 == Db(db.batches, UpdateImage(db.images, Marked(img, now)), db.defects + rows)
      && |rows| == |resp.results|
      && r.1.defects == DefectsOf(db.defects, img.imageId) + rows
  {
    if arg.None? || arg.value == "" then (db, MissingImageId)
    else match Lookup(db, arg)
      case None => (db, ImageNotFound)
      case Some(img) =>
        match probe(img.imageId)
        case Unreadable => (db, ReadFailed)
        case Raises => (db, Crashed)
        case Responds(resp) =>
          match Record(db, img, resp, now, render)
          case None => (db, Crashed)
          case Some(db1) =>
            var rows := Rows(resp.results, img.imageId, render).value;
            RowsBelongToImage(resp.results, img.imageId, render);
            DefectsOfAppend(db.defects, rows, img.imageId);
            (db1, Report(|resp.results| > 0, img.imageId, now, DayText(now) + "/" + ProcessedName(img.originalPath),
                         DefectsOf(db1.defects, img.imageId)))
  }

  /** The handler: the checks in order, then the defect loop and the commit. */
  method HandleSingleDetect(db: Db, arg: Option<string>, probe: nat -> Probe, now: DateTime, render: real -> string)
    returns (out: Db, reply: SingleReply)
    requires Valid(now)
    ensures (out, reply) == SingleDetect(db, arg, probe, now, render)
  {
    if arg.None? || arg.value == "" {
      return db, MissingImageId;
    }
    var found := Lookup(db, arg);
    if found.None? {
      return db, ImageNotFound;
    }
    var img := found.value;
    var p := probe(img.imageId);
    if p.Unreadable? {
      return db, ReadFailed;
    }
    if p.Raises? {
      return db, Crashed;
    }
    var resp := p.response;
    var rows := SaveDefects(resp.results, img.imageId, render);
    if rows.None? {
      return db, Crashed;
    }
    out := Db(db.batches, UpdateImage(db.images, Marked(img, now)), db.defects + rows.value);
    reply := Report(|resp.results| > 0, img.imageId, now, DayText(now) + "/" + ProcessedName(img.originalPath),
                    DefectsOf(out.defects, img.imageId));
  }

  /** The first row with the id is the updated one. */
  lemma {:induction false} FindUpdated(images: seq<Image>, img: Image)
    requires FindImage(images, img.imageId).Some?
    ensures FindImage(UpdateImage(images, img), img.imageId) == Some(img)
  {
    var u := UpdateImage(images, img);
    if images[0].imageId != img.imageId {
      assert u[1..] == UpdateImage(images[1..], img);
      FindUpdated(images[1..], img);
    }
  }

  /**
   * Running `single-detect` twice on the same image with the same
   * response stores the rows twice: nothing removes the earlier rows, and
   * the second report lists both sets.
   */
  lemma RerunDuplicatesDefects(db: Db, arg: Option<string>, probe: nat -> Probe, t1: DateTime, t2: DateTime, render: real -> string)
    requires Valid(t1) && Valid(t2)
    requires SingleDetect(db, arg, probe, t1, render).1.Report?
    ensures var db1 := SingleDetect(db, arg, probe, t1, render).0;
      var img := Lookup(db, arg).value;
      var rows := Rows(probe(img.imageId).response.results, img.imageId, render).value;
      SingleDetect(db1, arg, probe, t2, render).1.Report?
      && SingleDetect(db1, arg, probe, t2, render).1.defects == DefectsOf(db.defects, img.imageId) + rows + rows
  {
    var img := Lookup(db, arg).value;
    var rows := Rows(probe(img.imageId).response.results, img.imageId, render).value;
    var db1 := SingleDetect(db, arg, probe, t1, render).0;
    AfterFirstRun(db, arg, probe, t1, render);
    ReportOfFound(db1, arg, probe, t2, render, Marked(img, t1));
  }

  /** A found image whose response names every class gets a report listing its stored rows and then the new ones. */
  lemma ReportOfFound(db: Db, arg: Option<string>, probe: nat -> Probe, now: DateTime, render: real -> string, img: Image)
    requires Valid(now)
    requires Lookup(db, arg) == Some(img)
    requires probe(img.imageId).Responds? && Named(probe(img.imageId).response.results)
    ensures var r := SingleDetect(db, arg, probe, now, render).1;
      r.Report? && r.defects == DefectsOf(db.defects, img.imageId) + Rows(probe(img.imageId).response.results, img.imageId, render).value
  {
  }

  /** After a successful run the argument finds the marked row, and the image's list grew by the new rows. */
  lemma AfterFirstRun(db: Db, arg: Option<string>, probe: nat -> Probe, t1: DateTime, render: real -> string)
    requires Valid(t1)
    requires SingleDetect(db, arg, probe, t1, render).1.Report?
    ensures var db1 := SingleDetect(db, arg, probe, t1, render).0;
      var img := Lookup(db, arg).value;
      var rows := Rows(probe(img.imageId).response.results, img.imageId, render).value;
      && Lookup(db1, arg) == Some(Marked(img, t1))
      && DefectsOf(db1.defects, img.imageId) == DefectsOf(db.defects, img.imageId) + rows
  {
    var img := Lookup(db, arg).value;
    var resp := probe(img.imageId).response;
    var rows := Rows(resp.results, img.imageId, render).value;
    var db1 := SingleDetect(db, arg, probe, t1, render).0;
    assert db1.defects == db.defects + rows;
    RowsBelongToImage(resp.results, img.imageId, render);
    DefectsOfAppend(db.defects, rows, img.imageId);
    FindUpdated(db.images, Marked(img, t1));
  }

  // ------------------------------------------------------------------
  // batch-detect

  /** One chunk of the stream. */
  datatype Message = Pending(ids: seq<nat>) | ReadError(imageId: nat) | Checked(imageId: nat, hasDefect: bool)

  /** The loop's state: the tables as committed so far, the per-image messages, and whether an exception ended it. */
  datatype Progress = Progress(db: Db, messages: seq<Message>, aborted: bool)

  /** A probe that ends the stream: the detector raised, or a class id has no name. */
  predicate Fatal(p: Probe)
  {
    p.Raises? || (p.Responds? && !Named(p.response.results))
  }

  /** The loop body for one image, with `t` the clock reading taken for it. */
  function Step(p: Progress, img: Image, t: DateTime, probe: nat -> Probe, render: real -> string): Progress
  {
    if p.aborted then p
    else match probe(img.imageId)
      case Unreadable => p.(messages := p.messages + [ReadError(img.imageId)])
      case Raises => p.(aborted := true)
      case Responds(resp) =>
        match Record(p.db, img, resp, t, render)
        case None => p.(aborted := true)
        case Some(db1) => Progress(db1, p.messages + [Checked(img.imageId, |resp.results| > 0)], false)
  }

  /** What one message says about the image it reports on. */
  predicate Reports(m: Message, img: Image, probe: nat -> Probe)
  {
    && !m.Pending?
    && m.imageId == img.imageId
    && (m.ReadError? <==> probe(img.imageId) == Unreadable)
    && (m.Checked? ==> probe(img.imageId).Responds? && (m.hasDefect <==> |probe(img.imageId).response.results| > 0))
  }

  /**
   * One pass of the loop body: an aborted loop stays as it is; otherwise
   * either the image raises and nothing is added, or exactly one message
   * about the image is appended. Batches and the number of rows stay.
   */
  lemma StepFacts(p: Progress, img: Image, t: DateTime, probe: nat -> Probe, render: real -> string)
    ensures var q := Step(p, img, t, probe, render);
      && q.db.batches == p.db.batches && |q.db.images| == |p.db.images|
      && (p.aborted ==> q == p)
      && (!p.aborted && q.aborted ==> q.messages == p.messages && Fatal(probe(img.imageId)))
      && (!q.aborted ==>
            && !p.aborted
            && |q.messages| == |p.messages| + 1
            && q.messages == p.messages + [q.messages[|p.messages|]]
            && Reports(q.messages[|p.messages|], img, probe))
  {
  }

  /**
   * The loop over the undetected images in query order; `clock(i)` is the
   * time taken for the `i`-th. Each image is committed on its own, so an
   * exception keeps what earlier images committed.
   */
  function Run(db: Db, todo: seq<Image>, probe: nat -> Probe, clock: nat -> DateTime, render: real -> string): (r: Progress)
    ensures |r.messages| <= |todo|
  {
    if todo == [] then Progress(db, [], false)
    else
      var n := |todo| - 1;
      Step(Run(db, todo[..n], probe, clock, render), todo[n], clock(n), probe, render)
  }

  /**
   * One message per image in query order until an image ends the stream:
   * a read error exactly for an unreadable file, a `hasDefect` that says
   * whether the response had results; all `N` messages unless aborted,
   * and then the image after the last message is the one that raised.
   * Batches and the number of image rows stay as they were.
   */
  lemma RunMessages(db: Db, todo: seq<Image>, probe: nat -> Probe, clock: nat -> DateTime, render: real -> string)
    ensures var r := Run(db, todo, probe, clock, render);
      && |r.messages| <= |todo|
      && (!r.aborted ==> |r.messages| == |todo|)
      && (r.aborted ==> |r.messages| < |todo| && Fatal(probe(todo[|r.messages|].imageId)))
      && (forall k :: 0 <= k < |r.messages| ==> Reports(r.messages[k], todo[k], probe))
      && r.db.batches == db.batches && |r.db.images| == |db.images|
  {
    RunShape(db, todo, probe, clock, render);
    RunReports(db, todo, probe, clock, render);
  }

  /** How many messages the loop yields, and why it stopped early when it did. */
  lemma {:induction false} RunShape(db: Db, todo: seq<Image>, probe: nat -> Probe, clock: nat -> DateTime, render: real -> string)
    ensures var r := Run(db, todo, probe, clock, render);
      && (!r.aborted ==> |r.messages| == |todo|)
      && (r.aborted ==> |r.messages| < |todo| && Fatal(probe(todo[|r.messages|].imageId)))
      && r.db.batches == db.batches && |r.db.images| == |db.images|
  {
    if todo != [] {
      var n := |todo| - 1;
      var prev := Run(db, todo[..n], probe, clock, render);
      assert Run(db, todo, probe, clock, render) == Step(prev, todo[n], clock(n), probe, render);
      RunShape(db, todo[..n], probe, clock, render);
      StepFacts(prev, todo[n], clock(n), probe, render);
      if prev.aborted {
        assert todo[..n][|prev.messages|] == todo[|prev.messages|];
      }
    }
  }

  /** Each message reports on the image at its own position. */
  lemma {:induction false} RunReports(db: Db, todo: seq<Image>, probe: nat -> Probe, clock: nat -> DateTime, render: real -> string)
    ensures var r := Run(db, todo, probe, clock, render);
      forall k :: 0 <= k < |r.messages| ==> Reports(r.messages[k], todo[k], probe)
  {
    if todo != [] {
      var n := |todo| - 1;
      var prev := Run(db, todo[..n], probe, clock, render);
      var r := Run(db, todo, probe, clock, render);
      assert r == Step(prev, todo[n], clock(n), probe, render);
      RunReports(db, todo[..n], probe, clock, render);
      StepFacts(prev, todo[n], clock(n), probe, render);
      if !r.aborted {
        RunShape(db, todo[..n], probe, clock, render);
      }
      ReportsExtend(prev.messages, r.messages, todo, probe);
    }
  }

  /** Appending one report on the last image, or nothing, keeps every message on its own image. */
  lemma ReportsExtend(before: seq<Message>, after: seq<Message>, todo: seq<Image>, probe: nat -> Probe)
    requires |todo| > 0 && |before| < |todo|
    requires forall k :: 0 <= k < |before| ==> Reports(before[k], todo[..|todo| - 1][k], probe)
    requires after == before
          || (|before| == |todo| - 1 && |after| == |before| + 1 && after == before + [after[|before|]]
              && Reports(after[|before|], todo[|todo| - 1], probe))
    ensures forall k :: 0 <= k < |after| ==> Reports(after[k], todo[k], probe)
  {
    forall k | 0 <= k < |after| ensures Reports(after[k], todo[k], probe) {
      if k < |before| {
        assert after[k] == before[k] && todo[..|todo| - 1][k] == todo[k];
      }
    }
  }

  /** Once an image ends the stream, later images change nothing. */
  lemma {:induction false} AbortIsFinal(db: Db, todo: seq<Image>, j: nat, probe: nat -> Probe, clock: nat -> DateTime, render: real -> string)
    requires j <= |todo|
    requires Run(db, todo[..j], probe, clock, render).aborted
    ensures Run(db, todo, probe, clock, render) == Run(db, todo[..j], probe, clock, render)
    decreases |todo| - j
  {
    if j < |todo| {
      var prev := Run(db, todo[..j], probe, clock, render);
      assert todo[..j + 1][..j] == todo[..j];
      assert Run(db, todo[..j + 1], probe, clock, render) == Step(prev, todo[j], clock(j), probe, render);
      StepFacts(prev, todo[j], clock(j), probe, render);
      AbortIsFinal(db, todo, j + 1, probe, clock, render);
    } else {
      assert todo[..j] == todo;
    }
  }

  /** Every row the database holds for an image with a `Checked` message carries a detect time and a processed name. */
  predicate MarkedIn(images: seq<Image>, id: nat)
  {
    forall j :: 0 <= j < |images| && images[j].imageId == id ==> images[j].detectTime.Some? && images[j].processedPath.Some?
  }

  lemma {:induction false} CheckedImagesAreDetected(db: Db, todo: seq<Image>, probe: nat -> Probe, clock: nat -> DateTime, render: real -> string)
    ensures var r := Run(db, todo, probe, clock, render);
      forall k :: 0 <= k < |r.messages| && r.messages[k].Checked? ==> MarkedIn(r.db.images, todo[k].imageId)
  {
    if todo != [] {
      var n := |todo| - 1;
      var prev := Run(db, todo[..n], probe, clock, render);
      var r := Run(db, todo, probe, clock, render);
      assert r == Step(prev, todo[n], clock(n), probe, render);
      CheckedImagesAreDetected(db, todo[..n], probe, clock, render);
      RunShape(db, todo[..n], probe, clock, render);
      StepFacts(prev, todo[n], clock(n), probe, render);
      StepMarks(prev, todo[n], clock(n), probe, render);
      forall k | 0 <= k < |r.messages| && r.messages[k].Checked?
        ensures MarkedIn(r.db.images, todo[k].imageId)
      {
        if k < |prev.messages| {
          assert r.messages[k] == prev.messages[k] && todo[..n][k] == todo[k];
          assert MarkedIn(prev.db.images, todo[k].imageId);
        } else {
          assert k == n == |r.messages| - 1;
        }
      }
    }
  }

  /** One step keeps every marked id marked, and marks the image it reports as checked. */
  lemma StepMarks(p: Progress, img: Image, t: DateTime, probe: nat -> Probe, render: real -> string)
    ensures var q := Step(p, img, t, probe, render);
      && (forall id :: MarkedIn(p.db.images, id) ==> MarkedIn(q.db.images, id))
      && (!q.aborted && |q.messages| > 0 && q.messages[|q.messages| - 1].Checked? ==> MarkedIn(q.db.images, img.imageId))
  {
    var q := Step(p, img, t, probe, render);
    if !p.aborted && probe(img.imageId).Responds? && Record(p.db, img, probe(img.imageId).response, t, render).Some? {
      var m := Marked(img, t);
      assert q.db.images == UpdateImage(p.db.images, m);
      forall id | MarkedIn(p.db.images, id) ensures MarkedIn(q.db.images, id) {
        MarkedAfterUpdate(p.db.images, m, id);
      }
      MarkedAfterUpdate(p.db.images, m, img.imageId);
    }
  }

  /** Marking a row keeps every marked id marked, and marks the row's own id. */
  lemma MarkedAfterUpdate(images: seq<Image>, m: Image, id: nat)
    requires m.detectTime.Some? && m.processedPath.Some?
    requires MarkedIn(images, id) || id == m.imageId
    ensures MarkedIn(UpdateImage(images, m), id)
  {
  }

  /** The ids of the images, in order. */
  function Ids(todo: seq<Image>): (r: seq<nat>)
    ensures |r| == |todo| && forall k :: 0 <= k < |todo| ==> r[k] == todo[k].imageId
  {
    seq(|todo|, k requires 0 <= k < |todo| => todo[k].imageId)
  }

  /** The answers of `batch-detect`: 400, 404, the single "all detected" payload, or the stream. */
  datatype BatchReply = MissingBatchId | BatchNotFound | AllDetected | Stream(messages: seq<Message>)

  /** The batch's images still to detect, in query order. */
  function Todo(db: Db, batchId: nat): seq<Image>
  {
    Undetected(ImagesOf(db.images, batchId))
  }

  /** `batch-detect`: the id list first, then what the loop produced. */
  function BatchDetect(db: Db, arg: Option<string>, probe: nat -> Probe, clock: nat -> DateTime, render: real -> string)
    : (r: (Db, BatchReply))
    ensures r.1 == MissingBatchId <==> arg.None? || arg.value == ""
    ensures r.1 == BatchNotFound <==>
      arg.Some? && arg.value != "" && (KeyOf(arg.value).None? || FindBatch(db.batches, KeyOf(arg.value).value).None?)
    ensures r.1 == AllDetected <==>
      arg.Some? && KeyOf(arg.value).Some? && FindBatch(db.batches, KeyOf(arg.value).value).Some?
      && Todo(db, KeyOf(arg.value).value) == []
    ensures !r.1.Stream? ==> r.0 == db
    ensures r.1.Stream? ==>
      var todo := Todo(db, KeyOf(arg.value).value);
      var run := Run(db, todo, probe, clock, render);
      && todo != []
      && r.1.messages == [Pending(Ids(todo))] + run.messages
      && r.0 == run.db
      && 2 <= |r.1.messages| + (if run.aborted then 1 else 0) <= |todo| + 1
      && (|r.1.messages| == |todo| + 1 <==> !run.aborted)
  {
    if arg.None? || arg.value == "" then (db, MissingBatchId)
    else match KeyOf(arg.value)
      case None => (db, BatchNotFound)
      case Some(key) =>
        match FindBatch(db.batches, key)
        case None => (db, BatchNotFound)
        case Some(b) =>
          assert b.batchId == key;
          var todo := Todo(db, key);
          if todo == [] then (db, AllDetected)
          else
            var run := Run(db, todo, probe, clock, render);
            RunMessages(db, todo, probe, clock, render);
            (run.db, Stream([Pending(Ids(todo))] + run.messages))
  }

  /** The `generate()` loop: yield the ids, then one message per image until the end or an exception. */
  method Generate(db: Db, todo: seq<Image>, probe: nat -> Probe, clock: nat -> DateTime, render: real -> string)
    returns (out: Db, messages: seq<Message>)
    ensures var run := Run(db, todo, probe, clock, render);
      out == run.db && messages == [Pending(Ids(todo))] + run.messages
  {
    var ids := seq(|todo|, k requires 0 <= k < |todo| => todo[k].imageId);
    var p := Progress(db, [], false);
    var i := 0;
    while i < |todo| && !p.aborted
      invariant 0 <= i <= |todo|
      invariant p == Run(db, todo[..i], probe, clock, render)
    {
      assert todo[..i + 1][..i] == todo[..i];
      p := DetectOne(p, todo[i], clock(i), probe, render);
      i := i + 1;
    }
    if p.aborted {
      AbortIsFinal(db, todo, i, probe, clock, render);
    } else {
      assert todo[..i] == todo;
    }
    out := p.db;
    messages := [Pending(ids)] + p.messages;
  }

  /** One pass of the loop body: read, detect, store the rows and commit, then yield. */
  method DetectOne(p: Progress, img: Image, t: DateTime, probe: nat -> Probe, render: real -> string) returns (q: Progress)
    requires !p.aborted
    ensures q == Step(p, img, t, probe, render)
  {
    var outcome := probe(img.imageId);
    match outcome
    case Unreadable =>
      q := p.(messages := p.messages + [ReadError(img.imageId)]);
    case Raises =>
      q := p.(aborted := true);
    case Responds(resp) =>
      var rows := SaveDefects(resp.results, img.imageId, render);
      if rows.None? {
        q := p.(aborted := true);
      } else {
        var db1 := Db(p.db.batches, UpdateImage(p.db.images, Marked(img, t)), p.db.defects + rows.value);
        q := Progress(db1, p.messages + [Checked(img.imageId, |resp.results| > 0)], false);
      }
  }
}
