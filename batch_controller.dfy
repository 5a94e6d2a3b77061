/**
 * The batch endpoints: `create-batch` (store the accepted uploads of a
 * new batch), `get-batch-list` (date-range, status and order filters)
 * and `get-batch-detail` (per-image status and thumbnail).
 */
module BatchController {
  import opened Wrappers
  import opened Text
  import opened Protocol
  import opened Dates
  import opened Models
  import opened Uploads

  // ------------------------------------------------------------------
  // create-batch

  /**
   * What the loop draws from outside: the hex SHA-256 of a file's bytes,
   * the 16 hex characters of `os.urandom(8)` drawn for upload position
   * `i`, the clock reading for the batch and the one taken for upload
   * position `i`, the ids the database hands out, and whether PIL can
   * write the opened image of upload position `i` in the format its
   * stored name asks for (it cannot write RGBA as JPEG, for instance).
   */
  datatype Env = Env(digest: Bytes -> string, nonce: nat -> string, batchTime: DateTime, stamp: nat -> DateTime,
                     batchId: nat, firstImageId: nat, writable: nat -> bool)

  /** A file the loop keeps: present, allowed by name, and openable as an image. */
  predicate Kept(u: Upload)
  {
    Present(u) && AllowedFile(u.filename) && u.size.Some?
  }

  /**
   * `image.save(file_path)` succeeds: the stored name has an extension
   * (PIL raises "unknown file extension" on a name without one) and the
   * image can be written in that format.
   */
  predicate Saves(u: Upload, i: nat, env: Env)
  {
    SplitExt(u.filename).1 != "" && env.writable(i)
  }

  /** Some kept file makes `image.save` raise; nothing catches it, so the request ends in a 500. */
  predicate SaveFails(files: seq<Upload>, env: Env)
  {
    exists i :: 0 <= i < |files| && Kept(files[i]) && !Saves(files[i], i, env)
  }

  /** Every kept file among the first `n` was saved. */
  predicate SavedBefore(files: seq<Upload>, env: Env, n: nat)
    requires n <= |files|
  {
    forall j :: 0 <= j < n && Kept(files[j]) ==> Saves(files[j], j, env)
  }

  lemma SavedBeforeStep(files: seq<Upload>, env: Env, n: nat)
    requires n < |files| && SavedBefore(files, env, n)
    requires Kept(files[n]) ==> Saves(files[n], n, env)
    ensures SavedBefore(files, env, n + 1)
  {
  }

  lemma FailureWitness(files: seq<Upload>, env: Env, i: nat)
    requires i < |files| && Kept(files[i]) && !Saves(files[i], i, env)
    ensures SaveFails(files, env)
  {
  }

  lemma SaveFailsIff(files: seq<Upload>, env: Env)
    ensures SaveFails(files, env) <==> !SavedBefore(files, env, |files|)
  {
  }

  /** `sha256 + "_" + nonce + splitext(filename)[1]`. */
  function StoredName(u: Upload, digest: Bytes -> string, nonce: string): string
  {
    digest(u.content) + "_" + nonce + SplitExt(u.filename).1
  }

  /** The entry for the kept file at upload position `i`, which is the `k`-th entry. */
  function EntryOf(u: Upload, i: nat, k: nat, env: Env): Image
  {
    var w := if u.size.Some? then Some(u.size.value.0) else None;
    var h := if u.size.Some? then Some(u.size.value.1) else None;
    Image(env.firstImageId + k, StoredName(u, env.digest, env.nonce(i)), None, None, env.stamp(i), w, h, env.batchId)
  }

  /** The loop's verdict on each upload. */
  function Verdicts(files: seq<Upload>): (r: seq<bool>)
    ensures |r| == |files| && forall i :: 0 <= i < |files| ==> r[i] == Kept(files[i])
  {
    seq(|files|, i requires 0 <= i < |files| => Kept(files[i]))
  }

  /** The upload positions of the kept files, in upload order. */
  function KeptAt(files: seq<Upload>): (r: seq<nat>)
    ensures |r| <= |files|
    ensures forall k :: 0 <= k < |r| ==> r[k] < |files| && Kept(files[r[k]])
    ensures forall i :: 0 <= i < |files| && Kept(files[i]) ==> i in r
  {
    Positions(Verdicts(files))
  }

  /** Positions come in upload order; all files are kept iff all are listed, none iff none is. */
  lemma KeptAtCounts(files: seq<Upload>)
    ensures forall k, l :: 0 <= k < l < |KeptAt(files)| ==> KeptAt(files)[k] < KeptAt(files)[l]
    ensures |KeptAt(files)| == |files| <==> forall i :: 0 <= i < |files| ==> Kept(files[i])
    ensures KeptAt(files) == [] <==> forall i :: 0 <= i < |files| ==> !Kept(files[i])
  {
    PositionsIncreasing(Verdicts(files));
    PositionsAll(Verdicts(files));
    if KeptAt(files) != [] {
      assert Kept(files[KeptAt(files)[0]]);
    }
  }

  /** The entries for the files whose flag is set among the first `|flags|`. */
  function Build(files: seq<Upload>, flags: seq<bool>, env: Env): seq<Image>
    requires |flags| <= |files|
  {
    Gather(files, flags, (u: Upload, i: nat, k: nat) => EntryOf(u, i, k, env))
  }

  /** `image_entries` after the loop: the `k`-th entry comes from the `k`-th kept file, with the `k`-th new id. */
  function Entries(files: seq<Upload>, env: Env): (r: seq<Image>)
    ensures |r| == |KeptAt(files)|
    ensures forall k :: 0 <= k < |r| ==> r[k] == EntryOf(files[KeptAt(files)[k]], KeptAt(files)[k], k, env)
    ensures forall k :: 0 <= k < |r| ==>
      && r[k].imageId == env.firstImageId + k && r[k].batchId == env.batchId && r[k].createTime == env.stamp(KeptAt(files)[k])
      && r[k].detectTime.None? && r[k].processedPath.None? && r[k].width.Some? && r[k].height.Some?
  {
    Build(files, Verdicts(files), env)
  }

  /** The response of `create-batch`. */
  datatype CreateReply = Rejected | Crashed | Partial(batchId: nat, stored: nat, uploaded: nat) | Created(batchId: nat)

  function CreateStatus(r: CreateReply): nat
  {
    match r
    case Rejected => 400
    case Crashed => 500
    case Partial(_, _, _) => 206
    case Created(_) => 201
  }

  /**
   * `create-batch` as a function of the stored tables and the uploads
   * (None when the request has no `images` part). A batch without any
   * kept file is rolled back; a failed `image.save` raises out of the
   * handler, and the flushed batch is discarded with the session;
   * otherwise the batch and its entries are committed together.
   */
  function CreateOutcome(db: Db, files: Option<seq<Upload>>, env: Env): (r: (Db, CreateReply))
    ensures CreateStatus(r.1) == 400 <==> files.None? || KeptAt(files.value) == []
    ensures CreateStatus(r.1) == 500 <==> files.Some? && SaveFails(files.value, env)
    ensures CreateStatus(r.1) == 400 || CreateStatus(r.1) == 500 ==> r.0 == db
    ensures CreateStatus(r.1) == 201 <==>
      files.Some? && files.value != [] && |KeptAt(files.value)| == |files.value| && !SaveFails(files.value, env)
    ensures r.1.Partial? ==>
      && r.1.stored == |KeptAt(files.value)| && r.1.uploaded == |files.value|
      && 0 < r.1.stored < r.1.uploaded
    ensures r.1.Partial? || r.1.Created? ==>
      && r.1.batchId == env.batchId
      && r.0 == Db(db.batches + [Batch(env.batchId, env.batchTime)], db.images + Entries(files.value, env), db.defects)
  {
    if files.None? || files.value == [] then (db, Rejected)
    else
      var e := Entries(files.value, env);
      if |e| == 0 then (db, Rejected)
      else if SaveFails(files.value, env) then (db, Crashed)
      else
        var db1 := Db(db.batches + [Batch(env.batchId, env.batchTime)], db.images + e, db.defects);
        if |e| != |files.value| then (db1, Partial(env.batchId, |e|, |files.value|))
        else (db1, Created(env.batchId))
  }

  /** The handler: the loop over the uploads, then the 500, the rollback or the commit. */
  method CreateBatch(db: Db, files: Option<seq<Upload>>, env: Env) returns (out: Db, reply: CreateReply)
    ensures (out, reply) == CreateOutcome(db, files, env)
  {
    if files.None? || files.value == [] {
      return db, Rejected;
    }
    var fs := files.value;
    var entries, crashed := CollectEntries(fs, env);
    if crashed {
      return db, Crashed;
    }
    if |entries| == 0 {
      return db, Rejected;
    }
    out := Db(db.batches + [Batch(env.batchId, env.batchTime)], db.images + entries, db.defects);
    if |entries| != |fs| {
      reply := Partial(env.batchId, |entries|, |fs|);
    } else {
      reply := Created(env.batchId);
    }
  }

  /**
   * The loop that fills `image_entries`: a file PIL cannot open is
   * skipped; a failed `image.save` leaves the loop by the exception
   * (`crashed`).
   */
  method CollectEntries(fs: seq<Upload>, env: Env) returns (entries: seq<Image>, crashed: bool)
    ensures crashed <==> SaveFails(fs, env)
    ensures !crashed ==> entries == Entries(fs, env)
  {
    ghost var verdicts := Verdicts(fs);
    entries, crashed := [], false;
    for i := 0 to |fs|
      invariant entries == Build(fs, verdicts[..i], env)
      invariant SavedBefore(fs, env, i) && !crashed
    {
      GatherStep(fs, verdicts, (u: Upload, j: nat, k: nat) => EntryOf(u, j, k, env), i, entries);
      var u := fs[i];
      if Present(u) && AllowedFile(u.filename) {
        if u.size.None? {
          SavedBeforeStep(fs, env, i);
          continue;
        }
        if !Saves(u, i, env) {
          FailureWitness(fs, env, i);
          crashed := true;
          return;
        }
        SavedBeforeStep(fs, env, i);
        entries := entries + [EntryOf(u, i, |entries|, env)];
      } else {
        SavedBeforeStep(fs, env, i);
      }
    }
    assert verdicts[..|fs|] == verdicts;
    SaveFailsIff(fs, env);
  }

  /** A kept upload whose name `splitext` gives no extension ends the request in a 500 that stores nothing. */
  lemma ExtensionlessUploadCrashes(db: Db, files: seq<Upload>, env: Env, i: nat)
    requires i < |files| && Kept(files[i]) && SplitExt(files[i].filename).1 == ""
    ensures CreateOutcome(db, Some(files), env) == (db, Crashed)
  {
    assert !Saves(files[i], i, env);
    assert i in KeptAt(files);
  }

  /** An openable upload named `.png` passes `allowed_file` and then makes `image.save` raise. */
  lemma HiddenPngCrashes(db: Db, u: Upload, env: Env)
    requires u.filename == ".png" && u.size.Some?
    ensures CreateOutcome(db, Some([u]), env) == (db, Crashed)
  {
    HiddenNameAllowedWithoutExtension();
    ExtensionlessUploadCrashes(db, [u], env, 0);
  }

  /** The thumbnail keeps the stored file's extension and tags its stem. */
  lemma ThumbnailName(u: Upload, digest: Bytes -> string, nonce: string)
    requires digest(u.content) != [] && Lacks(digest(u.content), '.') && Lacks(digest(u.content), '/')
    requires Lacks(nonce, '.') && Lacks(nonce, '/')
    ensures Suffixed(StoredName(u, digest, nonce), "_thumbnail")
         == digest(u.content) + "_" + nonce + "_thumbnail" + SplitExt(u.filename).1
  {
    var h := digest(u.content);
    var stem := h + "_" + nonce;
    assert Lacks(stem, '.') && Lacks(stem, '/') by {
      forall k | 0 <= k < |stem| ensures stem[k] != '.' && stem[k] != '/' {
        if k < |h| { assert stem[k] == h[k]; }
        else if k > |h| { assert stem[k] == nonce[k - |h| - 1]; }
      }
    }
    SplitStemExt(stem, SplitExt(u.filename).1);
  }

  /** With fixed-width digests and nonces, different nonces give different stored names, whatever the content. */
  lemma NoncesSeparateNames(u: Upload, v: Upload, digest: Bytes -> string, n1: string, n2: string)
    requires |digest(u.content)| == |digest(v.content)| && |n1| == |n2|
    requires n1 != n2
    ensures StoredName(u, digest, n1) != StoredName(v, digest, n2)
  {
    var a, b := StoredName(u, digest, n1), StoredName(v, digest, n2);
    var w := |digest(u.content)| + 1;
    assert a[w..w + |n1|] == n1;
    assert b[w..w + |n2|] == n2;
  }

  // ------------------------------------------------------------------
  // get-batch-list

  /** The `selectedDate` argument: absent, the literal "undefined", or a text `parse` turns into a datetime or rejects (None). */
  datatype DateArg = Absent | Undefined | Given(parsed: Option<DateTime>)

  /** A 400 answer, or an uncaught exception (500). */
  datatype Failure = BadRequest | ServerError

  /**
   * The import-time window, or None when no date filter applies. A
   * missing `selectedDate` reaches `parse(None)`, which raises a
   * `TypeError`; month mode can step below the smallest datetime.
   */
  function DateRange(sel: DateArg, mode: Option<string>): (r: Result<Option<(DateTime, DateTime)>, Failure>)
    requires sel.Given? && sel.parsed.Some? ==> Valid(sel.parsed.value)
    ensures sel.Undefined? <==> r == Ok(None)
    ensures sel.Absent? ==> r == Err(ServerError)
    ensures sel == Given(None) ==> r == Err(BadRequest)
    ensures sel.Given? && sel.parsed.Some? && mode !in {Some("year"), Some("month"), Some("day")} ==> r == Err(BadRequest)
    ensures r.Ok? && r.value.Some? ==> Valid(r.value.value.0) && Valid(r.value.value.1)
  {
    match sel
    case Absent => Err(ServerError)
    case Undefined => Ok(None)
    case Given(None) => Err(BadRequest)
    case Given(Some(d)) =>
      DaysInBound(d.year, d.month);
      if mode == Some("year") then
        Ok(Some((d.(month := 1, day := 1), d.(month := 12, day := 31, hour := 23, minute := 59, second := 59))))
      else if mode == Some("month") then
        var next := d.month % 12 + 1;
        match SubSecond(d.(month := next, day := 1))
        case None => Err(ServerError)
        case Some(end) => Ok(Some((d.(day := 1), end)))
      else if mode == Some("day") then
        Ok(Some((d, d.(hour := 23, minute := 59, second := 59))))
      else Err(BadRequest)
  }

  /** The selected date lies inside its own year, month (but December) and day windows. */
  lemma RangeContainsSelectedDate(d: DateTime, mode: string)
    requires Valid(d) && mode in {"year", "month", "day"}
    requires mode == "month" ==> d.month < 12
    ensures DateRange(Given(Some(d)), Some(mode)).Ok?
    ensures var w := DateRange(Given(Some(d)), Some(mode)).value.value; InRange(d, w.0, w.1)
  {
    if mode == "month" && (d.hour, d.minute, d.second) == (0, 0, 0) {
      SubSecondFromFirstOfMonth(d.year, d.month + 1, d.micro);
    }
  }

  /** The year window starts on January 1 at the selected time of day, so earlier hours of New Year's Day fall outside. */
  lemma YearRangeKeepsTimeOfDay(d: DateTime, t: DateTime)
    requires Valid(d) && Valid(t) && t.year == d.year && t.month == 1 && t.day == 1
    requires t.hour < d.hour
    ensures var w := DateRange(Given(Some(d)), Some("year")).value.value; !InRange(t, w.0, w.1)
  {
  }

  /** The day window closes at 23:59:59 with the selected microsecond: a later fraction of the last second is outside. */
  lemma DayRangeCutsLastSecond(d: DateTime, t: DateTime)
    requires Valid(d) && Valid(t)
    requires (t.year, t.month, t.day, t.hour, t.minute, t.second) == (d.year, d.month, d.day, 23, 59, 59)
    requires t.micro > d.micro
    ensures var w := DateRange(Given(Some(d)), Some("day")).value.value; !InRange(t, w.0, w.1)
  {
  }

  /** For a date at midnight below December, the month window ends at the last second of the month. */
  lemma MonthRangeEnd(d: DateTime)
    requires Valid(d) && d.month < 12 && (d.hour, d.minute, d.second) == (0, 0, 0)
    ensures DateRange(Given(Some(d)), Some("month"))
         == Ok(Some((d.(day := 1), DateTime(d.year, d.month, DaysIn(d.year, d.month), 23, 59, 59, d.micro))))
  {
    SubSecondFromFirstOfMonth(d.year, d.month + 1, d.micro);
    assert d.(month := d.month + 1, day := 1) == DateTime(d.year, d.month + 1, 1, 0, 0, 0, d.micro);
  }

  /**
   * The end keeps the selected time of day as well: for a selected time
   * after midnight the window runs on into the first day of the next
   * month, up to one second before that time.
   */
  lemma MonthRangeSpillsIntoNextMonth(d: DateTime)
    requires Valid(d) && d.month < 12 && d.hour > 0
    ensures var t := DateTime(d.year, d.month + 1, 1, 0, 0, 0, 0);
      var w := DateRange(Given(Some(d)), Some("month")).value.value;
      InRange(t, w.0, w.1)
  {
  }

  /**
   * December wraps to January of the same year, so the window ends
   * before it starts and selects nothing; at midnight in year 1 the step
   * back overflows and the request fails.
   */
  lemma DecemberSelectsNothing(d: DateTime, t: DateTime)
    requires Valid(d) && d.month == 12
    ensures d.year == 1 && (d.hour, d.minute, d.second) == (0, 0, 0) ==>
      DateRange(Given(Some(d)), Some("month")) == Err(ServerError)
    ensures d.year > 1 || (d.hour, d.minute, d.second) != (0, 0, 0) ==>
      && DateRange(Given(Some(d)), Some("month")).Ok?
      && !InRange(t, DateRange(Given(Some(d)), Some("month")).value.value.0, DateRange(Given(Some(d)), Some("month")).value.value.1)
  {
    var x := d.(month := 1, day := 1);
    assert Valid(x);
    if d.year > 1 || (d.hour, d.minute, d.second) != (0, 0, 0) {
      var w := DateRange(Given(Some(d)), Some("month")).value.value;
      assert w.1 == SubSecond(x).value;
      BeforeIsStrictOrder(w.1, x, w.0);
      InvertedRangeIsEmpty(w.0, w.1, t);
    }
  }

  /** The `finishedStatus` filter: other values filter nothing. */
  predicate StatusMatches(db: Db, b: Batch, status: Option<string>)
  {
    if status == Some("finished") then GetBatchStatus(db, b.batchId) == Finished
    else if status == Some("unfinished") then GetBatchStatus(db, b.batchId) == Unfinished
    else true
  }

  predicate Selected(db: Db, b: Batch, window: Option<(DateTime, DateTime)>, status: Option<string>)
  {
    (window.None? || InRange(b.importTime, window.value.0, window.value.1)) && StatusMatches(db, b, status)
  }

  /** The filtered query, in table order. */
  function Select(db: Db, bs: seq<Batch>, window: Option<(DateTime, DateTime)>, status: Option<string>): (r: seq<Batch>)
    ensures |r| <= |bs|
    ensures forall b :: b in r <==> b in bs && Selected(db, b, window, status)
  {
    if bs == [] then []
    else
      var n := |bs| - 1;
      var prev := Select(db, bs[..n], window, status);
      assert bs == bs[..n] + [bs[n]];
      if Selected(db, bs[n], window, status) then prev + [bs[n]] else prev
  }

  /** Whether `a` may precede `b` under `ORDER BY import_time` ascending (or descending). */
  predicate InOrder(a: Batch, b: Batch, asc: bool)
  {
    if asc then NotAfter(a.importTime, b.importTime) else NotAfter(b.importTime, a.importTime)
  }

  predicate SortedBy(bs: seq<Batch>, asc: bool)
  {
    forall i, j :: 0 <= i < j < |bs| ==> InOrder(bs[i], bs[j], asc)
  }

  lemma InOrderTotalPreorder(a: Batch, b: Batch, c: Batch, asc: bool)
    ensures InOrder(a, b, asc) || InOrder(b, a, asc)
    ensures InOrder(a, b, asc) && InOrder(b, c, asc) ==> InOrder(a, c, asc)
  {
    NotAfterTotalPreorder(a.importTime, b.importTime, c.importTime);
    NotAfterTotalPreorder(c.importTime, b.importTime, a.importTime);
  }

  /** Inserts `b` behind every batch it does not strictly precede, so it follows the batches with its own import time. */
  function Insert(b: Batch, bs: seq<Batch>, asc: bool): (r: seq<Batch>)
    requires SortedBy(bs, asc)
    ensures SortedBy(r, asc)
    ensures multiset(r) == multiset(bs) + multiset{b}
  {
    if bs == [] then [b]
    else if !InOrder(bs[0], b, asc) then
      InOrderTotalPreorder(b, bs[0], bs[0], asc);
      InsertFront(b, bs, asc);
      [b] + bs
    else
      var rest := Insert(b, bs[1..], asc);
      InsertBehind(bs[0], b, bs[1..], rest, asc);
      assert bs == [bs[0]] + bs[1..];
      [bs[0]] + rest
  }

  lemma InsertFront(b: Batch, bs: seq<Batch>, asc: bool)
    requires SortedBy(bs, asc) && bs != [] && InOrder(b, bs[0], asc)
    ensures SortedBy([b] + bs, asc)
  {
    forall j | 0 < j < |bs| ensures InOrder(b, bs[j], asc) {
      InOrderTotalPreorder(b, bs[0], bs[j], asc);
    }
  }

  lemma InsertBehind(x: Batch, b: Batch, tail: seq<Batch>, rest: seq<Batch>, asc: bool)
    requires SortedBy([x] + tail, asc) && InOrder(x, b, asc)
    requires SortedBy(rest, asc) && multiset(rest) == multiset(tail) + multiset{b}
    ensures SortedBy([x] + rest, asc)
  {
    forall j | 0 <= j < |rest| ensures InOrder(x, rest[j], asc) {
      assert rest[j] in multiset(rest);
      assert ([x] + tail)[0] == x;
      if rest[j] != b {
        assert rest[j] in multiset(tail);
        var k :| 0 <= k < |tail| && tail[k] == rest[j];
        assert ([x] + tail)[k + 1] == tail[k];
      }
    }
  }

  /** `query.order_by(HSBatch.import_time)`; ties keep no particular order in SQL, here they keep the input order (`SortKeepsTies`). */
  function SortBatches(bs: seq<Batch>, asc: bool): (r: seq<Batch>)
    ensures SortedBy(r, asc)
    ensures multiset(r) == multiset(bs)
  {
    if bs == [] then []
    else
      assert bs == bs[..|bs| - 1] + [bs[|bs| - 1]];
      Insert(bs[|bs| - 1], SortBatches(bs[..|bs| - 1], asc), asc)
  }

  /** The batches with import time `t`, in their order. */
  function WithTime(bs: seq<Batch>, t: DateTime): seq<Batch>
  {
    if bs == [] then []
    else (if bs[0].importTime == t then [bs[0]] else []) + WithTime(bs[1..], t)
  }

  lemma {:induction false} WithTimeAppend(a: seq<Batch>, b: seq<Batch>, t: DateTime)
    ensures WithTime(a + b, t) == WithTime(a, t) + WithTime(b, t)
  {
    if a == [] {
      assert a + b == b;
    } else {
      assert (a + b)[0] == a[0] && (a + b)[1..] == a[1..] + b;
      WithTimeAppend(a[1..], b, t);
    }
  }

  lemma {:induction false} NoneWithTime(bs: seq<Batch>, t: DateTime)
    requires forall k :: 0 <= k < |bs| ==> bs[k].importTime != t
    ensures WithTime(bs, t) == []
  {
    if bs != [] {
      NoneWithTime(bs[1..], t);
    }
  }

  /** A batch strictly before the head of a sorted list shares its import time with none of it. */
  lemma StrictFrontNoTie(b: Batch, bs: seq<Batch>, asc: bool)
    requires SortedBy(bs, asc) && bs != [] && !InOrder(bs[0], b, asc)
    ensures forall k :: 0 <= k < |bs| ==> bs[k].importTime != b.importTime
  {
    InOrderTotalPreorder(bs[0], bs[0], bs[0], asc);
    assert forall k :: 0 <= k < |bs| ==> InOrder(bs[0], bs[k], asc);
  }

  /** Inserting `b` adds it behind the batches of its own import time and moves no other tie. */
  lemma {:induction false} InsertKeepsTies(b: Batch, bs: seq<Batch>, asc: bool, t: DateTime)
    requires SortedBy(bs, asc)
    ensures WithTime(Insert(b, bs, asc), t) == WithTime(bs, t) + (if b.importTime == t then [b] else [])
  {
    var tie: seq<Batch> := if b.importTime == t then [b] else [];
    if bs == [] {
      assert Insert(b, bs, asc) == [b];
      assert [b][1..] == [];
      assert WithTime([b], t) == tie + WithTime([], t);
    } else if !InOrder(bs[0], b, asc) {
      assert Insert(b, bs, asc) == [b] + bs;
      assert ([b] + bs)[0] == b && ([b] + bs)[1..] == bs;
      assert WithTime([b] + bs, t) == tie + WithTime(bs, t);
      if b.importTime == t {
        StrictFrontNoTie(b, bs, asc);
        NoneWithTime(bs, t);
      }
    } else {
      var rest := Insert(b, bs[1..], asc);
      assert Insert(b, bs, asc) == [bs[0]] + rest;
      InsertKeepsTies(b, bs[1..], asc, t);
      var head: seq<Batch> := if bs[0].importTime == t then [bs[0]] else [];
      assert ([bs[0]] + rest)[0] == bs[0] && ([bs[0]] + rest)[1..] == rest;
      assert WithTime([bs[0]] + rest, t) == head + WithTime(rest, t);
      assert WithTime(bs, t) == head + WithTime(bs[1..], t);
      assert head + (WithTime(bs[1..], t) + tie) == (head + WithTime(bs[1..], t)) + tie;
    }
  }

  /** Sorting is stable: for every import time, the batches carrying it keep their input order. */
  lemma {:induction false} SortKeepsTies(bs: seq<Batch>, asc: bool, t: DateTime)
    ensures WithTime(SortBatches(bs, asc), t) == WithTime(bs, t)
  {
    if bs != [] {
      var init, last := bs[..|bs| - 1], bs[|bs| - 1];
      assert bs == init + [last];
      var sorted := SortBatches(init, asc);
      var tie: seq<Batch> := if last.importTime == t then [last] else [];
      assert ([last])[1..] == [];
      assert WithTime([last], t) == tie + WithTime([], t);
      calc {
        WithTime(SortBatches(bs, asc), t);
        WithTime(Insert(last, sorted, asc), t);
        { InsertKeepsTies(last, sorted, asc, t); }
        WithTime(sorted, t) + tie;
        { SortKeepsTies(init, asc, t); }
        WithTime(init, t) + WithTime([last], t);
        { WithTimeAppend(init, [last], t); }
        WithTime(bs, t);
      }
    }
  }

  /** One entry of the batch list. */
  datatype BatchRow = BatchRow(batchId: nat, importTime: DateTime, finished: bool, size: nat)

  function RowOf(db: Db, b: Batch): BatchRow
  {
    BatchRow(b.batchId, b.importTime, GetBatchStatus(db, b.batchId) == Finished, BatchSize(db, b.batchId))
  }

  function Ordered(bs: seq<Batch>, sort: Option<string>): (r: seq<Batch>)
    ensures multiset(r) == multiset(bs)
    ensures sort == Some("time") ==> SortedBy(r, true)
    ensures sort == Some("-time") ==> SortedBy(r, false)
  {
    if sort == Some("time") then SortBatches(bs, true)
    else if sort == Some("-time") then SortBatches(bs, false)
    else bs
  }

  function ListRows(db: Db, bs: seq<Batch>): (r: seq<BatchRow>)
    ensures |r| == |bs| && forall k :: 0 <= k < |bs| ==> r[k] == RowOf(db, bs[k])
  {
    seq(|bs|, k requires 0 <= k < |bs| => RowOf(db, bs[k]))
  }

  lemma ListRowsAppend(db: Db, a: seq<Batch>, b: seq<Batch>)
    ensures ListRows(db, a + b) == ListRows(db, a) + ListRows(db, b)
  {
    var l, m := ListRows(db, a + b), ListRows(db, a) + ListRows(db, b);
    assert |l| == |m|;
    forall k | 0 <= k < |l| ensures l[k] == m[k] {
      if k < |a| {
        assert l[k] == RowOf(db, a[k]) == m[k];
      } else {
        assert l[k] == RowOf(db, b[k - |a|]) == m[k];
      }
    }
  }

  /** Taking out the batch at `j` takes one copy of it out of the multiset. */
  lemma RemoveAt(cs: seq<Batch>, j: nat)
    requires j < |cs|
    ensures cs[..j] + [cs[j]] + cs[j + 1..] == cs
    ensures multiset(cs[..j] + cs[j + 1..]) == multiset(cs) - multiset{cs[j]}
  {
    assert cs == cs[..j] + [cs[j]] + cs[j + 1..];
  }

  /** The rows of `front + [x] + back` are those of `front + back` and the row of `x`. */
  lemma RowsAround(db: Db, front: seq<Batch>, x: Batch, back: seq<Batch>)
    ensures multiset(ListRows(db, front + [x] + back)) == multiset(ListRows(db, front + back)) + multiset{RowOf(db, x)}
  {
    ListRowsAppend(db, front + [x], back);
    ListRowsAppend(db, front, [x]);
    ListRowsAppend(db, front, back);
  }

  /** Reordering the batches reorders their rows: the same rows, each as often. */
  lemma {:induction false} RowsPermute(db: Db, bs: seq<Batch>, cs: seq<Batch>)
    requires multiset(bs) == multiset(cs)
    ensures multiset(ListRows(db, bs)) == multiset(ListRows(db, cs))
    decreases |bs|
  {
    if bs != [] {
      var n := |bs| - 1;
      var x := bs[n];
      assert x in multiset(cs);
      var j :| 0 <= j < |cs| && cs[j] == x;
      RemoveAt(bs, n);
      RemoveAt(cs, j);
      RowsPermute(db, bs[..n] + bs[n + 1..], cs[..j] + cs[j + 1..]);
      RowsAround(db, bs[..n], x, bs[n + 1..]);
      RowsAround(db, cs[..j], x, cs[j + 1..]);
    }
  }

  /** The listed rows are exactly those of the selected batches, in the requested order. */
  lemma ListedExactly(db: Db, w: Option<(DateTime, DateTime)>, status: Option<string>, sort: Option<string>)
    ensures var rows := ListRows(db, Ordered(Select(db, db.batches, w, status), sort));
      && (forall k :: 0 <= k < |rows| ==> RowOfSelected(db, w, status, rows[k]))
      && (forall b :: b in db.batches && Selected(db, b, w, status) ==> RowOf(db, b) in rows)
  {
    var chosen := Select(db, db.batches, w, status);
    var ordered := Ordered(chosen, sort);
    SameElements(chosen, ordered);
    RowsAreSelected(db, w, status, ordered);
    SelectedAreRows(db, w, status, ordered);
  }

  /** Rows keep the import-time order of their batches. */
  lemma RowsInOrder(db: Db, bs: seq<Batch>, asc: bool)
    ensures SortedBy(bs, asc) ==> forall i, j :: 0 <= i < j < |ListRows(db, bs)| ==>
      if asc then NotAfter(ListRows(db, bs)[i].importTime, ListRows(db, bs)[j].importTime)
      else NotAfter(ListRows(db, bs)[j].importTime, ListRows(db, bs)[i].importTime)
  {
    var rows := ListRows(db, bs);
    if SortedBy(bs, asc) {
      forall i, j | 0 <= i < j < |rows|
        ensures if asc then NotAfter(rows[i].importTime, rows[j].importTime) else NotAfter(rows[j].importTime, rows[i].importTime)
      {
        assert InOrder(bs[i], bs[j], asc);
      }
    }
  }

  /** The row of some stored batch that passes the filters. */
  predicate RowOfSelected(db: Db, w: Option<(DateTime, DateTime)>, status: Option<string>, row: BatchRow)
  {
    exists b :: b in db.batches && Selected(db, b, w, status) && row == RowOf(db, b)
  }

  /** Every row comes from a batch that passes the filters. */
  lemma RowsAreSelected(db: Db, w: Option<(DateTime, DateTime)>, status: Option<string>, bs: seq<Batch>)
    requires forall b :: b in bs ==> b in db.batches && Selected(db, b, w, status)
    ensures forall k :: 0 <= k < |ListRows(db, bs)| ==> RowOfSelected(db, w, status, ListRows(db, bs)[k])
  {
    var rows := ListRows(db, bs);
    forall k | 0 <= k < |rows| ensures RowOfSelected(db, w, status, rows[k]) {
      var b := bs[k];
      assert b in bs;
      assert b in db.batches && Selected(db, b, w, status) && rows[k] == RowOf(db, b);
    }
  }

  /** Every batch that passes the filters has its row. */
  lemma SelectedAreRows(db: Db, w: Option<(DateTime, DateTime)>, status: Option<string>, bs: seq<Batch>)
    requires forall b :: b in db.batches && Selected(db, b, w, status) ==> b in bs
    ensures forall b :: b in db.batches && Selected(db, b, w, status) ==> RowOf(db, b) in ListRows(db, bs)
  {
    var rows := ListRows(db, bs);
    forall b | b in db.batches && Selected(db, b, w, status) ensures RowOf(db, b) in rows {
      var k :| 0 <= k < |bs| && bs[k] == b;
      assert rows[k] == RowOf(db, b);
    }
  }

  /** Sequences with the same multiset hold the same elements. */
  lemma SameElements(xs: seq<Batch>, ys: seq<Batch>)
    requires multiset(xs) == multiset(ys)
    ensures forall b :: b in xs <==> b in ys
  {
    forall b ensures b in xs <==> b in ys {
      assert b in xs <==> b in multiset(xs);
      assert b in ys <==> b in multiset(ys);
    }
  }

  /**
   * `get-batch-list`: fails exactly when the date window does; otherwise
   * lists every batch inside the window that passes the status filter,
   * and nothing else, in import-time order when one is asked for.
   */
  function GetBatchList(db: Db, sel: DateArg, mode: Option<string>, sort: Option<string>, status: Option<string>)
    : (r: Result<seq<BatchRow>, Failure>)
    requires sel.Given? && sel.parsed.Some? ==> Valid(sel.parsed.value)
    ensures r.Err? <==> DateRange(sel, mode).Err?
    ensures r.Ok? ==>
      && (forall k :: 0 <= k < |r.value| ==> RowOfSelected(db, DateRange(sel, mode).value, status, r.value[k]))
      && (forall b :: b in db.batches && Selected(db, b, DateRange(sel, mode).value, status) ==> RowOf(db, b) in r.value)
    ensures r.Ok? ==>
      multiset(r.value) == multiset(ListRows(db, Select(db, db.batches, DateRange(sel, mode).value, status)))
    ensures r.Ok? && sort == Some("time") ==>
      forall i, j :: 0 <= i < j < |r.value| ==> NotAfter(r.value[i].importTime, r.value[j].importTime)
    ensures r.Ok? && sort == Some("-time") ==>
      forall i, j :: 0 <= i < j < |r.value| ==> NotAfter(r.value[j].importTime, r.value[i].importTime)
  {
    match DateRange(sel, mode)
    case Err(e) => Err(e)
    case Ok(w) =>
      var ordered := Ordered(Select(db, db.batches, w, status), sort);
      ListedExactly(db, w, status, sort);
      RowsPermute(db, ordered, Select(db, db.batches, w, status));
      RowsInOrder(db, ordered, true);
      RowsInOrder(db, ordered, false);
      Ok(ListRows(db, ordered))
  }

  // ------------------------------------------------------------------
  // get-batch-detail

  datatype ImageRow = ImageRow(imageId: nat, status: ImageStatus, thumbnail: string)

  datatype Detail = Detail(batchId: nat, importTime: DateTime, size: nat, finished: bool, images: seq<ImageRow>)

  datatype DetailError = MissingId | NoSuchBatch

  /** `f"{create_date}/{stem}_thumbnail{ext}"`, under the static URL prefix. */
  function ThumbnailPath(img: Image): string
    requires Valid(img.createTime)
  {
    DayText(img.createTime) + "/" + Suffixed(img.originalPath, "_thumbnail")
  }

  /** Stored datetimes are values `datetime` accepts. */
  predicate DatesValid(db: Db)
  {
    forall k :: 0 <= k < |db.images| ==> Valid(db.images[k].createTime)
  }

  /** `get-batch-detail`: one row per image of the batch, in table order, with its status and thumbnail. */
  function GetBatchDetail(db: Db, arg: Option<string>): (r: Result<Detail, DetailError>)
    requires DatesValid(db)
    ensures arg.None? || arg == Some("") ==> r == Err(MissingId)
    ensures r == Err(NoSuchBatch) <==>
      arg.Some? && arg.value != "" && (KeyOf(arg.value).None? || FindBatch(db.batches, KeyOf(arg.value).value).None?)
    ensures r.Ok? ==> var mine := ImagesOf(db.images, r.value.batchId);
      && KeyOf(arg.value) == Some(r.value.batchId)
      && r.value.size == |r.value.images| == |mine|
      && (r.value.finished <==> forall k :: 0 <= k < |mine| ==> mine[k].detectTime.Some?)
      && forall k :: 0 <= k < |mine| ==>
           r.value.images[k].imageId == mine[k].imageId
           && (r.value.images[k].status == Untouched <==> mine[k].detectTime.None?)
           && (r.value.images[k].status == Faulty <==> mine[k].detectTime.Some? && HasDefects(db.defects, mine[k].imageId))
  {
    if arg.None? || arg.value == "" then Err(MissingId)
    else match KeyOf(arg.value)
      case None => Err(NoSuchBatch)
      case Some(key) =>
        match FindBatch(db.batches, key)
        case None => Err(NoSuchBatch)
        case Some(b) =>
          var mine := ImagesOf(db.images, b.batchId);
          assert forall k :: 0 <= k < |mine| ==> Valid(mine[k].createTime);
          Ok(Detail(b.batchId, b.importTime, BatchSize(db, b.batchId), GetBatchStatus(db, b.batchId) == Finished,
            ImageRows(db, mine)))
  }

  /** One row per image, in order: its id, its status and its thumbnail. */
  function ImageRows(db: Db, mine: seq<Image>): (rows: seq<ImageRow>)
    requires forall k :: 0 <= k < |mine| ==> Valid(mine[k].createTime)
    ensures |rows| == |mine|
    ensures forall k :: 0 <= k < |mine| ==>
      && rows[k].imageId == mine[k].imageId
      && (rows[k].status == Untouched <==> mine[k].detectTime.None?)
      && (rows[k].status == Faulty <==> mine[k].detectTime.Some? && HasDefects(db.defects, mine[k].imageId))
  {
    seq(|mine|, k requires 0 <= k < |mine| => ImageRow(mine[k].imageId, GetImageStatus(db, mine[k]), ThumbnailPath(mine[k])))
  }

}
