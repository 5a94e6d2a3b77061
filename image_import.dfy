/**
 * The older upload endpoint `create-batch` of the import blueprint: it
 * keeps every present file whose name passes `allowed_file`, names it by
 * its content hash and extension alone, and records the full joined path.
 */
module ImageImport {
  import opened Wrappers
  import opened Text
  import opened Protocol
  import opened Dates
  import opened Models
  import opened Uploads

  /**
   * What the handler draws from outside: the hex SHA-256 of a file's
   * bytes, the upload folder, the clock reading for the batch and the one
   * for the entry of upload position `i`, and the ids the database hands out.
   */
  datatype Env = Env(
    digest: Bytes -> string,
    folder: string,
    batchTime: DateTime,
    stamp: nat -> DateTime,
    batchId: nat,
    firstImageId: nat)

  /** A file the loop admits: present and allowed by name (the bytes are never opened). */
  predicate Admitted(u: Upload)
  {
    Present(u) && AllowedFile(u.filename)
  }

  /** `sha256 + splitext(filename)[1]`: no random part. */
  function StoredName(u: Upload, digest: Bytes -> string): string
  {
    digest(u.content) + SplitExt(u.filename).1
  }

  /** `os.path.join(folder, name)` (POSIX): an absolute name wins, otherwise one slash separates the two. */
  function JoinPath(folder: string, name: string): string
  {
    if name != [] && name[0] == '/' then name
    else if folder == [] || folder[|folder| - 1] == '/' then folder + name
    else folder + "/" + name
  }

  /** The joined path ends in the name; it is the name alone only when the name is absolute or the folder empty. */
  lemma JoinPathShape(folder: string, name: string)
    ensures var r := JoinPath(folder, name);
      && |r| >= |name| && r[|r| - |name|..] == name
      && (r == name <==> (name != [] && name[0] == '/') || folder == [])
  {
  }

  /** The entry for the admitted file at upload position `i`, which is the `k`-th entry. */
  function EntryOf(u: Upload, i: nat, k: nat, env: Env): Image
  {
    Image(env.firstImageId + k, JoinPath(env.folder, StoredName(u, env.digest)), None, None, env.stamp(i), None, None, env.batchId)
  }

  /** The loop's verdict on each upload. */
  function Verdicts(files: seq<Upload>): (r: seq<bool>)
    ensures |r| == |files| && forall i :: 0 <= i < |files| ==> r[i] == Admitted(files[i])
  {
    seq(|files|, i requires 0 <= i < |files| => Admitted(files[i]))
  }

  /** The upload positions of the admitted files, in upload order. */
  function AdmittedAt(files: seq<Upload>): (r: seq<nat>)
    ensures |r| <= |files|
    ensures forall k :: 0 <= k < |r| ==> r[k] < |files| && Admitted(files[r[k]])
    ensures forall i :: 0 <= i < |files| && Admitted(files[i]) ==> i in r
  {
    Positions(Verdicts(files))
  }

  /** Positions come in upload order; all files are admitted iff all are listed, none iff none is. */
  lemma AdmittedAtCounts(files: seq<Upload>)
    ensures forall k, l :: 0 <= k < l < |AdmittedAt(files)| ==> AdmittedAt(files)[k] < AdmittedAt(files)[l]
    ensures |AdmittedAt(files)| == |files| <==> forall i :: 0 <= i < |files| ==> Admitted(files[i])
    ensures AdmittedAt(files) == [] <==> forall i :: 0 <= i < |files| ==> !Admitted(files[i])
  {
    PositionsIncreasing(Verdicts(files));
    PositionsAll(Verdicts(files));
    if AdmittedAt(files) != [] {
      assert Admitted(files[AdmittedAt(files)[0]]);
    }
  }

  /** The entries for the files whose flag is set among the first `|flags|`. */
  function Build(files: seq<Upload>, flags: seq<bool>, env: Env): seq<Image>
    requires |flags| <= |files|
  {
    Gather(files, flags, (u: Upload, i: nat, k: nat) => EntryOf(u, i, k, env))
  }

  /** `image_entries` after the loop: the `k`-th entry comes from the `k`-th admitted file. */
  function Entries(files: seq<Upload>, env: Env): (r: seq<Image>)
    ensures |r| == |AdmittedAt(files)|
    ensures forall k :: 0 <= k < |r| ==> r[k] == EntryOf(files[AdmittedAt(files)[k]], AdmittedAt(files)[k], k, env)
    ensures forall k :: 0 <= k < |r| ==>
      && r[k].imageId == env.firstImageId + k && r[k].batchId == env.batchId
      && r[k].detectTime.None? && r[k].processedPath.None? && r[k].width.None? && r[k].height.None?
  {
    Build(files, Verdicts(files), env)
  }

  /** The response: 400, 206 with an error text but no batch id, or 201 with the batch id. */
  datatype ImportReply = Rejected | Partial(stored: nat, uploaded: nat) | Created(batchId: nat)

  function ImportStatus(r: ImportReply): nat
  {
    match r
    case Rejected => 400
    case Partial(_, _) => 206
    case Created(_) => 201
  }

  /**
   * `create-batch` as a function of the stored tables and the uploads
   * (None when the request has no `images` part). The batch is only
   * flushed before the loop; when no file is admitted nothing is
   * committed, so the tables stay as they were.
   */
  function ImportOutcome(db: Db, files: Option<seq<Upload>>, env: Env): (r: (Db, ImportReply))
    ensures ImportStatus(r.1) == 400 <==> files.None? || AdmittedAt(files.value) == []
    ensures r.1.Rejected? ==> r.0 == db
    ensures r.1.Created? <==> files.Some? && files.value != [] && |AdmittedAt(files.value)| == |files.value|
    ensures r.1.Partial? ==>
      && r.1.stored == |AdmittedAt(files.value)| && r.1.uploaded == |files.value|
      && 0 < r.1.stored < r.1.uploaded
    ensures r.1.Created? ==> r.1.batchId == env.batchId
    ensures !r.1.Rejected? ==>
      r.0 == Db(db.batches + [Batch(env.batchId, env.batchTime)], db.images + Entries(files.value, env), db.defects)
  {
    if files.None? || files.value == [] then (db, Rejected)
    else
      var e := Entries(files.value, env);
      if |e| == 0 then (db, Rejected)
      else
        var db1 := Db(db.batches + [Batch(env.batchId, env.batchTime)], db.images + e, db.defects);
        if |e| != |files.value| then (db1, Partial(|e|, |files.value|))
        else (db1, Created(env.batchId))
  }

  /** The handler: the loop over the uploads, then the commit or the 400. */
  method CreateBatch(db: Db, files: Option<seq<Upload>>, env: Env) returns (out: Db, reply: ImportReply)
    ensures (out, reply) == ImportOutcome(db, files, env)
  {
    if files.None? || files.value == [] {
      return db, Rejected;
    }
    var fs := files.value;
    var entries := CollectEntries(fs, env);
    if |entries| == 0 {
      return db, Rejected;
    }
    out := Db(db.batches + [Batch(env.batchId, env.batchTime)], db.images + entries, db.defects);
    if |entries| != |fs| {
      reply := Partial(|entries|, |fs|);
    } else {
      reply := Created(env.batchId);
    }
  }

  /** The loop that fills `image_entries`, one entry per admitted file in upload order. */
  method CollectEntries(fs: seq<Upload>, env: Env) returns (entries: seq<Image>)
    ensures entries == Entries(fs, env)
  {
    ghost var verdicts := Verdicts(fs);
    entries := [];
    for i := 0 to |fs|
      invariant entries == Build(fs, verdicts[..i], env)
    {
      GatherStep(fs, verdicts, (u: Upload, j: nat, k: nat) => EntryOf(u, j, k, env), i, entries);
      var u := fs[i];
      if Present(u) && AllowedFile(u.filename) {
        entries := entries + [EntryOf(u, i, |entries|, env)];
      }
    }
    assert verdicts[..|fs|] == verdicts;
  }

  /** Identical bytes under the same extension land on the same path, whatever else differs. */
  lemma SameContentSamePath(files: seq<Upload>, env: Env, k: nat, l: nat)
    requires k < |Entries(files, env)| && l < |Entries(files, env)|
    requires var u, v := files[AdmittedAt(files)[k]], files[AdmittedAt(files)[l]];
      u.content == v.content && SplitExt(u.filename).1 == SplitExt(v.filename).1
    ensures Entries(files, env)[k].originalPath == Entries(files, env)[l].originalPath
  {
  }

  /**
   * The record holds the joined path, not the bare stored name: under a
   * folder without a trailing slash the path is the folder, a slash and
   * the name, and so never the name alone.
   */
  lemma FullPathStored(u: Upload, i: nat, k: nat, env: Env)
    requires env.folder != [] && env.folder[|env.folder| - 1] != '/'
    requires env.digest(u.content) != [] && env.digest(u.content)[0] != '/'
    ensures EntryOf(u, i, k, env).originalPath == env.folder + "/" + env.digest(u.content) + SplitExt(u.filename).1
    ensures EntryOf(u, i, k, env).originalPath != StoredName(u, env.digest)
  {
    var name := StoredName(u, env.digest);
    assert name[0] == env.digest(u.content)[0];
    assert env.folder + "/" + name == env.folder + "/" + env.digest(u.content) + SplitExt(u.filename).1;
  }

  /**
   * The bytes are never opened: a present file with an allowed name is
   * stored, under its own position among the admitted files, even when
   * PIL could not read it, and the request is then never refused.
   */
  lemma UnreadableFileAdmitted(db: Db, files: seq<Upload>, env: Env, i: nat)
    requires i < |files| && files[i].size.None? && Present(files[i]) && AllowedFile(files[i].filename)
    ensures !ImportOutcome(db, Some(files), env).1.Rejected?
    ensures exists k :: 0 <= k < |AdmittedAt(files)| && AdmittedAt(files)[k] == i
                        && Entries(files, env)[k] == EntryOf(files[i], i, k, env)
  {
    var at := AdmittedAt(files);
    assert i in at;
    var k :| 0 <= k < |at| && at[k] == i;
    assert Entries(files, env)[k] == EntryOf(files[i], i, k, env);
  }
}
