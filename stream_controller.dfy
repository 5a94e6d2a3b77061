/**
 * The live-video socket handler (`handle_video_frame`): every frame is
 * sent to the detection server, the overlay boxes and notifications are
 * emitted back to the sending client, and a frame with results is stored
 * under a batch that the client's session creates on its first such
 * frame and reuses afterwards.
 *
 * The server state is a value (`Server`) so that properties of several
 * frames can be stated; `VideoSessions` is the same state as the mutable
 * module-level objects the handler updates, and its `HandleFrame` is
 * proved to perform `OnFrame`.
 */
module StreamController {
  import opened Wrappers
  import opened Text
  import opened Tables
  import opened Protocol
  import opened Dates
  import opened Models
  import opened DefectRows
  import opened Numbers

  /**
   * The overlay label: `DEFECT_NAMES[class_id]` below `len(DEFECT_NAMES)`
   * (negative ids index from the end), `str(class_id)` from 4 up. An id
   * below -4 raises `IndexError` (None).
   */
  function Label(classId: int): (r: Option<string>)
    ensures 0 <= classId < 4 ==> r == Some(DefectNames[classId])
    ensures -4 <= classId < 0 ==> r == Some(DefectNames[4 + classId])
    ensures classId >= 4 ==> r == Some(IntToString(classId))
    ensures r.None? <==> classId < -4
  {
    if classId < |DefectNames| then DefectName(classId) else Some(IntToString(classId))
  }

  /** A fallback label is never mistaken for a defect name. */
  lemma FallbackIsNotAName(classId: int)
    requires classId >= 4
    ensures Label(classId).value !in DefectNames
  {
    var l := Label(classId).value;
    assert IsDigit(l[0]);
    forall k | 0 <= k < |DefectNames| ensures DefectNames[k] != l {
      assert !IsDigit(DefectNames[k][0]);
    }
  }

  /** One overlay box as emitted: `x`, `y`, `w`, `h` in whole pixels and the label text. */
  datatype Overlay = Overlay(x: int, y: int, w: int, h: int, text: string)

  /** One notification: a 1-based id, the label as its type, and a severity. */
  datatype Notice = Notice(id: nat, kind: string, severity: string)

  /** `{"x": int(x1), "y": int(y1), "w": int(x2 - x1), "h": int(y2 - y1), "label": label}`. */
  function OverlayOf(d: Det, text: string): Overlay
  {
    Overlay(Trunc(d.box.x1), Trunc(d.box.y1), Trunc(d.box.x2 - d.box.x1), Trunc(d.box.y2 - d.box.y1), text)
  }

  predicate Labelled(results: seq<Det>)
  {
    forall i :: 0 <= i < |results| ==> Label(results[i].classId).Some?
  }

  /**
   * The `defects` and `notifications` lists for a frame: one entry each
   * per result, in result order, notification `i` numbered `i + 1` with
   * severity "danger"; None when a label lookup raises.
   */
  function FrameLists(results: seq<Det>): (r: Option<(seq<Overlay>, seq<Notice>)>)
    ensures r.Some? <==> Labelled(results)
    ensures r.Some? ==> |r.value.0| == |results| && |r.value.1| == |results|
    ensures r.Some? ==> forall i :: 0 <= i < |results| ==>
      && r.value.0[i] == OverlayOf(results[i], Label(results[i].classId).value)
      && r.value.1[i] == Notice(i + 1, Label(results[i].classId).value, "danger")
  {
    if results == [] then Some(([], []))
    else
      var n := |results| - 1;
      match FrameLists(results[..n])
      case None => None
      case Some(prev) =>
        match Label(results[n].classId)
        case None => None
        case Some(l) => Some((prev.0 + [OverlayOf(results[n], l)], prev.1 + [Notice(n + 1, l, "danger")]))
  }

  /** The loop that fills `defects` and `notifications_list`. */
  method BuildLists(results: seq<Det>) returns (r: Option<(seq<Overlay>, seq<Notice>)>)
    ensures r == FrameLists(results)
  {
    var defects: seq<Overlay> := [];
    var notes: seq<Notice> := [];
    for i := 0 to |results|
      invariant FrameLists(results[..i]) == Some((defects, notes))
    {
      var d := results[i];
      assert results[..i + 1][..i] == results[..i];
      var lab := Label(d.classId);
      if lab.None? {
        assert !Labelled(results) by { assert Label(results[i].classId).None?; }
        return None;
      }
      defects := defects + [OverlayOf(d, lab.value)];
      notes := notes + [Notice(i + 1, lab.value, "danger")];
    }
    assert results[..|results|] == results;
    r := Some((defects, notes));
  }

  /** A socket event sent to one client (`room=sid`). */
  datatype Event =
    | Processed(to: string, image: Bytes, defects: seq<Overlay>, notes: seq<Notice>)
    | Failure(to: string)

  /**
   * One incoming frame with everything the handler reads from outside:
   * the detector's reply (None when the call raises), the hex SHA-256 of
   * the frame, the `%H%M%S%f` stamp, the clock readings taken for a new
   * batch's import time, for the image's create time and for its detect
   * time (three separate `datetime.now()` calls), and the size PIL
   * reports (None when the bytes cannot be opened as an image).
   */
  datatype Frame = Frame(sid: string, reply: Option<DetectResponse>, digest: string, stamp: string,
                         batchTime: DateTime, createTime: DateTime, detectTime: DateTime,
                         size: Option<(int, int)>)

  /** Everything the handler changes: the session map, the tables, the events sent, the files written, and the next ids. */
  datatype Server = Server(sessions: map<string, nat>, db: Db, outbox: seq<Event>, files: seq<string>,
                           nextBatchId: nat, nextImageId: nat)

  /** The stored frame's name: `sha256 + "_" + stamp + ".jpg"`. */
  function FrameName(digest: string, stamp: string): string
  {
    digest + "_" + stamp + ".jpg"
  }

  /** The size columns `save_thumbnail` yields: both null when the image could not be opened. */
  function SizeColumns(size: Option<(int, int)>): (Option<int>, Option<int>)
  {
    if size.Some? then (Some(size.value.0), Some(size.value.1)) else (None, None)
  }

  /** The session's batch: the one recorded for `sid`, or a new one created and recorded now. */
  function SessionBatch(s: Server, sid: string, now: DateTime): (r: (Server, nat))
  {
    if sid in s.sessions then (s, s.sessions[sid])
    else
      (s.(db := s.db.(batches := s.db.batches + [Batch(s.nextBatchId, now)]),
          sessions := s.sessions[sid := s.nextBatchId],
          nextBatchId := s.nextBatchId + 1),
       s.nextBatchId)
  }

  /**
   * Storing a frame with results: the session's batch, the raw, thumbnail
   * and processed files, the image row (created, then given its processed
   * name and detect time), and the defect rows. A class id without a
   * name aborts the defect rows and sends an error event instead.
   */
  function Persist(s: Server, f: Frame, results: seq<Det>, render: real -> string): Server
  {
    var (s1, batchId) := SessionBatch(s, f.sid, f.batchTime);
    StoreSpec(s1, f, results, batchId, render)
  }

  /** Files, image row and defect rows of a frame stored under `batchId`. */
  function StoreSpec(s: Server, f: Frame, results: seq<Det>, batchId: nat, render: real -> string): Server
  {
    var fname := FrameName(f.digest, f.stamp);
    var (w, h) := SizeColumns(f.size);
    var img := Image(s.nextImageId, fname, Some(Suffixed(fname, "_processed")), Some(f.detectTime), f.createTime, w, h, batchId);
    var s2 := s.(db := s.db.(images := s.db.images + [img]),
                 files := s.files + [fname, Suffixed(fname, "_thumbnail"), Suffixed(fname, "_processed")],
                 nextImageId := s.nextImageId + 1);
    match Rows(results, img.imageId, render)
    case None => s2.(outbox := s2.outbox + [Failure(f.sid)])
    case Some(rows) => s2.(db := s2.db.(defects := s2.db.defects + rows))
  }

  /** `handle_video_frame` as a state transition. */
  function OnFrame(s: Server, f: Frame, render: real -> string): Server
  {
    match f.reply
    case None => s.(outbox := s.outbox + [Failure(f.sid)])
    case Some(resp) =>
      match FrameLists(resp.results)
      case None => s.(outbox := s.outbox + [Failure(f.sid)])
      case Some(lists) =>
        var shown := s.(outbox := s.outbox + [Processed(f.sid, resp.processedImage, lists.0, lists.1)]);
        if resp.results == [] then shown else Persist(shown, f, resp.results, render)
  }

  /** Ids already handed out are below the counters, and every session points at a stored batch. */
  predicate Consistent(s: Server)
  {
    && (forall sid :: sid in s.sessions ==> exists k :: 0 <= k < |s.db.batches| && s.db.batches[k].batchId == s.sessions[sid])
    && (forall k :: 0 <= k < |s.db.batches| ==> s.db.batches[k].batchId < s.nextBatchId)
    && (forall k :: 0 <= k < |s.db.images| ==> s.db.images[k].imageId < s.nextImageId)
  }

  lemma OnFrameKeepsConsistent(s: Server, f: Frame, render: real -> string)
    requires Consistent(s)
    ensures Consistent(OnFrame(s, f, render))
  {
    if f.reply.Some? && FrameLists(f.reply.value.results).Some? && f.reply.value.results != [] {
      var lists := FrameLists(f.reply.value.results).value;
      var shown := s.(outbox := s.outbox + [Processed(f.sid, f.reply.value.processedImage, lists.0, lists.1)]);
      SessionBatchKeepsConsistent(shown, f.sid, f.batchTime);
      PersistKeepsConsistent(shown, f, f.reply.value.results, render);
    }
  }

  lemma SessionBatchKeepsConsistent(s: Server, sid: string, now: DateTime)
    requires Consistent(s)
    ensures Consistent(SessionBatch(s, sid, now).0)
    ensures SessionBatch(s, sid, now).1 == SessionBatch(s, sid, now).0.sessions[sid]
  {
    if sid !in s.sessions {
      var t := SessionBatch(s, sid, now).0;
      var n := |s.db.batches|;
      assert t.db.batches[n].batchId == t.sessions[sid];
      forall other | other in t.sessions
        ensures exists k :: 0 <= k < |t.db.batches| && t.db.batches[k].batchId == t.sessions[other]
      {
        if other != sid {
          var k :| 0 <= k < |s.db.batches| && s.db.batches[k].batchId == s.sessions[other];
          assert t.db.batches[k] == s.db.batches[k];
        }
      }
    }
  }

  lemma PersistKeepsConsistent(s: Server, f: Frame, results: seq<Det>, render: real -> string)
    requires Consistent(s)
    ensures Consistent(Persist(s, f, results, render))
  {
    SessionBatchKeepsConsistent(s, f.sid, f.batchTime);
    var s1 := SessionBatch(s, f.sid, f.batchTime).0;
    var t := Persist(s, f, results, render);
    assert t.sessions == s1.sessions && t.db.batches == s1.db.batches && t.nextBatchId == s1.nextBatchId;
    assert t.db.images[..|s1.db.images|] == s1.db.images;
  }

  /**
   * Events go to the sending client only. A frame whose detection and
   * labelling succeed emits its processed frame first, before anything
   * is stored; an error event can follow it.
   */
  lemma FrameEvents(s: Server, f: Frame, render: real -> string)
    ensures var o := OnFrame(s, f, render).outbox;
      && |s.outbox| < |o| <= |s.outbox| + 2
      && o[..|s.outbox|] == s.outbox
      && (forall k :: |s.outbox| <= k < |o| ==> o[k].to == f.sid)
    ensures var o := OnFrame(s, f, render).outbox;
      f.reply.Some? && Labelled(f.reply.value.results) ==>
        o[|s.outbox|] == Processed(f.sid, f.reply.value.processedImage,
                                   FrameLists(f.reply.value.results).value.0, FrameLists(f.reply.value.results).value.1)
    ensures var o := OnFrame(s, f, render).outbox;
      o[|o| - 1].Failure? <==> f.reply.None? || !Labelled(f.reply.value.results) || !Named(f.reply.value.results)
  {
    var o := OnFrame(s, f, render).outbox;
    if f.reply.Some? && Labelled(f.reply.value.results) {
      var resp := f.reply.value;
      var lists := FrameLists(resp.results).value;
      var shown := s.(outbox := s.outbox + [Processed(f.sid, resp.processedImage, lists.0, lists.1)]);
      if resp.results == [] {
        assert Named(resp.results);
        assert o == shown.outbox;
      } else {
        PersistOutbox(shown, f, resp.results, render);
        assert o == shown.outbox + (if Named(resp.results) then [] else [Failure(f.sid)]);
      }
    }
  }

  /** Storing a frame sends nothing unless a class id has no name, and then one error event to the sender. */
  lemma PersistOutbox(s: Server, f: Frame, results: seq<Det>, render: real -> string)
    ensures Persist(s, f, results, render).outbox == s.outbox + (if Named(results) then [] else [Failure(f.sid)])
  {
    var s1 := SessionBatch(s, f.sid, f.batchTime).0;
    assert s1.outbox == s.outbox;
  }

  /** A frame without results stores nothing and leaves the sessions alone. */
  lemma NoResultsStoresNothing(s: Server, f: Frame, render: real -> string)
    requires f.reply.Some? && f.reply.value.results == []
    ensures var t := OnFrame(s, f, render);
      t.db == s.db && t.sessions == s.sessions && t.files == s.files
      && t.nextBatchId == s.nextBatchId && t.nextImageId == s.nextImageId
  {
  }

  /**
   * A session's first stored frame creates one batch and records it;
   * any later stored frame of that session lands in the same batch and
   * creates none. Either way the image row points at the session's batch.
   */
  lemma SessionBatchCreatedOnce(s: Server, f: Frame, render: real -> string)
    requires f.reply.Some? && f.reply.value.results != [] && Labelled(f.reply.value.results)
    ensures var t := OnFrame(s, f, render);
      && f.sid in t.sessions
      && |t.db.images| == |s.db.images| + 1
      && t.db.images[|s.db.images|].batchId == t.sessions[f.sid]
      && (f.sid in s.sessions ==> t.sessions == s.sessions && t.db.batches == s.db.batches)
      && (f.sid !in s.sessions ==>
            t.sessions == s.sessions[f.sid := s.nextBatchId] && t.db.batches == s.db.batches + [Batch(s.nextBatchId, f.batchTime)])
  {
  }

  /** Sessions are never forgotten or re-pointed. */
  lemma SessionsOnlyGrow(s: Server, f: Frame, render: real -> string)
    ensures var t := OnFrame(s, f, render);
      forall sid :: sid in s.sessions ==> sid in t.sessions && t.sessions[sid] == s.sessions[sid]
  {
  }

  /** Two stored frames of one session, one after the other, share one batch. */
  lemma TwoFramesOneBatch(s: Server, f: Frame, g: Frame, render: real -> string)
    requires f.sid == g.sid
    requires f.reply.Some? && f.reply.value.results != [] && Labelled(f.reply.value.results)
    requires g.reply.Some? && g.reply.value.results != [] && Labelled(g.reply.value.results)
    ensures var t := OnFrame(s, f, render);
      var u := OnFrame(t, g, render);
      && |u.db.batches| <= |s.db.batches| + 1
      && u.db.images[|s.db.images|].batchId == u.db.images[|s.db.images| + 1].batchId
  {
    SessionBatchCreatedOnce(s, f, render);
    var t := OnFrame(s, f, render);
    SessionBatchCreatedOnce(t, g, render);
  }

  /**
   * A class id from 4 up gets a fallback label on screen but has no
   * defect name: the image row is stored, no defect row is, and an
   * error follows the processed frame.
   */
  lemma UnnamedClassStoresImageOnly(s: Server, f: Frame, render: real -> string)
    requires f.reply.Some? && Labelled(f.reply.value.results) && !Named(f.reply.value.results)
    ensures var t := OnFrame(s, f, render);
      && |t.db.images| == |s.db.images| + 1
      && t.db.defects == s.db.defects
      && t.outbox[|t.outbox| - 1] == Failure(f.sid)
      && t.outbox[|s.outbox|].Processed?
  {
    assert f.reply.value.results != [];
  }

  /** The thumbnail and processed names add their tag before `.jpg`. */
  lemma FrameFileNames(digest: string, stamp: string)
    requires digest != [] && Lacks(digest, '.') && Lacks(digest, '/')
    requires Lacks(stamp, '.') && Lacks(stamp, '/')
    ensures Suffixed(FrameName(digest, stamp), "_thumbnail") == digest + "_" + stamp + "_thumbnail.jpg"
    ensures Suffixed(FrameName(digest, stamp), "_processed") == digest + "_" + stamp + "_processed.jpg"
  {
    var stem := digest + "_" + stamp;
    assert Lacks(stem, '.') && Lacks(stem, '/') by {
      forall k | 0 <= k < |stem| ensures stem[k] != '.' && stem[k] != '/' {
        if k < |digest| { assert stem[k] == digest[k]; }
        else if k > |digest| { assert stem[k] == stamp[k - |digest| - 1]; }
      }
    }
    assert IsExt(".jpg");
    assert FrameName(digest, stamp) == stem + ".jpg";
    SplitStemExt(stem, ".jpg");
    assert stem + "_thumbnail" + ".jpg" == digest + "_" + stamp + "_thumbnail.jpg";
    assert stem + "_processed" + ".jpg" == digest + "_" + stamp + "_processed.jpg";
  }

  /** The module-level `sessions` dict together with the database, the socket and the upload folder. */
  class VideoSessions {
    var sessions: map<string, nat>
    var db: Db
    var outbox: seq<Event>
    var files: seq<string>
    var nextBatchId: nat
    var nextImageId: nat

    function State(): Server
      reads this
    {
      Server(sessions, db, outbox, files, nextBatchId, nextImageId)
    }

    /** A fresh process over an existing database: no sessions yet. */
    constructor (db0: Db, nextBatch: nat, nextImage: nat)
      ensures State() == Server(map[], db0, [], [], nextBatch, nextImage)
    {
      sessions, db, outbox, files := map[], db0, [], [];
      nextBatchId, nextImageId := nextBatch, nextImage;
    }

    method HandleFrame(f: Frame, render: real -> string)
      modifies this
      ensures State() == OnFrame(old(State()), f, render)
    {
      if f.reply.None? {
        outbox := outbox + [Failure(f.sid)];
        return;
      }
      var resp := f.reply.value;
      var lists := BuildLists(resp.results);
      if lists.None? {
        outbox := outbox + [Failure(f.sid)];
        return;
      }
      outbox := outbox + [Processed(f.sid, resp.processedImage, lists.value.0, lists.value.1)];
      if resp.results == [] {
        return;
      }
      ghost var shown := State();
      if f.sid !in sessions {
        db := db.(batches := db.batches + [Batch(nextBatchId, f.batchTime)]);
        sessions := sessions[f.sid := nextBatchId];
        nextBatchId := nextBatchId + 1;
      }
      var batchId := sessions[f.sid];
      assert (State(), batchId) == SessionBatch(shown, f.sid, f.batchTime);
      StoreFrame(f, resp.results, batchId, render);
    }

    /** The part of the handler after the batch is known: files, image row, defect rows. */
    method StoreFrame(f: Frame, results: seq<Det>, batchId: nat, render: real -> string)
      modifies this
      ensures State() == StoreSpec(old(State()), f, results, batchId, render)
    {
      var fname := FrameName(f.digest, f.stamp);
      var thumbName := SplitExt(fname).0 + "_thumbnail" + SplitExt(fname).1;
      var (width, height) := SizeColumns(f.size);
      var procName := SplitExt(fname).0 + "_processed" + SplitExt(fname).1;
      files := files + [fname, thumbName, procName];
      var img := Image(nextImageId, fname, Some(procName), Some(f.detectTime), f.createTime, width, height, batchId);
      db := db.(images := db.images + [img]);
      nextImageId := nextImageId + 1;
      var rows := SaveDefects(results, img.imageId, render);
      if rows.None? {
        outbox := outbox + [Failure(f.sid)];
      } else {
        db := db.(defects := db.defects + rows.value);
      }
    }
  }
}
