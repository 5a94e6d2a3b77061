/**
 * The persisted records (`HSBatch`, `HSImage`, `HSDefect`) and the two
 * batch queries. A nullable column is an `Option`; a non-nullable one is
 * a plain value, so a record cannot lack it. The database is a value
 * holding the three tables in insertion (primary-key) order.
 */
module Models {
  import opened Wrappers
  import opened Text
  import opened Dates

  datatype Batch = Batch(batchId: nat, importTime: DateTime)

  datatype Image = Image(
    imageId: nat,
    originalPath: string,
    processedPath: Option<string>,
    detectTime: Option<DateTime>,
    createTime: DateTime,
    width: Option<int>,
    height: Option<int>,
    batchId: nat)

  datatype Defect = Defect(defectType: string, bbox: Option<string>, confidence: Option<real>, imageId: nat)

  datatype Db = Db(batches: seq<Batch>, images: seq<Image>, defects: seq<Defect>)

  datatype BatchStatus = Finished | Unfinished

  datatype ImageStatus = Untouched | Faulty | Flawless

  /** `batch.images`: the batch's images in table order. */
  function ImagesOf(images: seq<Image>, batchId: nat): (r: seq<Image>)
    ensures forall k :: 0 <= k < |r| ==> r[k] in images && r[k].batchId == batchId
  {
    if images == [] then []
    else
      var last := images[|images| - 1];
      ImagesOf(images[..|images| - 1], batchId) + (if last.batchId == batchId then [last] else [])
  }

  /** Every image of the batch is listed. */
  lemma {:induction false} ImagesOfComplete(images: seq<Image>, batchId: nat, k: nat)
    requires k < |images| && images[k].batchId == batchId
    ensures images[k] in ImagesOf(images, batchId)
  {
    var n := |images| - 1;
    if k < n {
      assert images[..n][k] == images[k];
      ImagesOfComplete(images[..n], batchId, k);
    }
  }

  /** `batch.images.filter(HSImage.detect_time.is_(None))`: the undetected ones, in the same order. */
  function Undetected(images: seq<Image>): (r: seq<Image>)
    ensures forall k :: 0 <= k < |r| ==> r[k] in images && r[k].detectTime.None?
    ensures |r| <= |images|
  {
    if images == [] then []
    else
      var last := images[|images| - 1];
      Undetected(images[..|images| - 1]) + (if last.detectTime.None? then [last] else [])
  }

  /** Every undetected image is listed. */
  lemma {:induction false} UndetectedComplete(images: seq<Image>, k: nat)
    requires k < |images| && images[k].detectTime.None?
    ensures images[k] in Undetected(images)
  {
    var n := |images| - 1;
    if k < n {
      assert images[..n][k] == images[k];
      UndetectedComplete(images[..n], k);
    }
  }

  /** Nothing is left to detect exactly when every image has a detect time. */
  lemma {:induction false} NoneUndetectedIff(images: seq<Image>)
    ensures |Undetected(images)| == 0 <==> forall k :: 0 <= k < |images| ==> images[k].detectTime.Some?
  {
    if images != [] {
      var n := |images| - 1;
      NoneUndetectedIff(images[..n]);
      assert forall k :: 0 <= k < n ==> images[..n][k] == images[k];
    }
  }

  /** The positions of the table holding an image of the batch. */
  function Members(images: seq<Image>, batchId: nat): set<int>
  {
    set k | 0 <= k < |images| && images[k].batchId == batchId
  }

  /** `HSBatch.get_batch_size`: how many image rows point at the batch. */
  function BatchSize(db: Db, batchId: nat): nat
  {
    |ImagesOf(db.images, batchId)|
  }

  lemma {:induction false} BatchSizeCountsMembers(images: seq<Image>, batchId: nat)
    ensures |ImagesOf(images, batchId)| == |Members(images, batchId)|
  {
    if images != [] {
      var n := |images| - 1;
      BatchSizeCountsMembers(images[..n], batchId);
      MembersOfLast(images, batchId);
    }
  }

  lemma MembersOfLast(images: seq<Image>, batchId: nat)
    requires images != []
    ensures var n := |images| - 1;
      Members(images, batchId) == Members(images[..n], batchId) + (if images[n].batchId == batchId then {n} else {})
      && n !in Members(images[..n], batchId)
  {
  }

  /** `HSBatch.get_batch_status`: unfinished while some image of the batch has no detect time. */
  function GetBatchStatus(db: Db, batchId: nat): (r: BatchStatus)
    ensures r == Unfinished <==> exists k :: 0 <= k < |db.images| && db.images[k].batchId == batchId && db.images[k].detectTime.None?
    ensures r == Finished <==>
      forall k :: 0 <= k < |ImagesOf(db.images, batchId)| ==> ImagesOf(db.images, batchId)[k].detectTime.Some?
  {
    NoneUndetectedIff(ImagesOf(db.images, batchId));
    OpenImagesOfBatch(db.images, batchId);
    if |Undetected(ImagesOf(db.images, batchId))| > 0 then Unfinished else Finished
  }

  /** The batch's filtered list is non-empty exactly when the table holds an undetected row of the batch. */
  lemma OpenImagesOfBatch(images: seq<Image>, batchId: nat)
    ensures |Undetected(ImagesOf(images, batchId))| > 0 <==>
      exists k :: 0 <= k < |images| && images[k].batchId == batchId && images[k].detectTime.None?
  {
    var mine := ImagesOf(images, batchId);
    var open := Undetected(mine);
    if exists k :: 0 <= k < |images| && images[k].batchId == batchId && images[k].detectTime.None? {
      var k :| 0 <= k < |images| && images[k].batchId == batchId && images[k].detectTime.None?;
      ImagesOfComplete(images, batchId, k);
      var j :| 0 <= j < |mine| && mine[j] == images[k];
      UndetectedComplete(mine, j);
    }
    if |open| > 0 {
      assert open[0] in mine && open[0].detectTime.None?;
      var j :| 0 <= j < |mine| && mine[j] == open[0];
      assert mine[j] in images && mine[j].batchId == batchId;
      var k :| 0 <= k < |images| && images[k] == mine[j];
      assert images[k].batchId == batchId && images[k].detectTime.None?;
    }
  }

  /** A batch without images counts as finished. */
  lemma EmptyBatchIsFinished(db: Db, batchId: nat)
    requires forall k :: 0 <= k < |db.images| ==> db.images[k].batchId != batchId
    ensures GetBatchStatus(db, batchId) == Finished && BatchSize(db, batchId) == 0
  {
    BatchSizeCountsMembers(db.images, batchId);
    assert Members(db.images, batchId) == {};
  }

  /** `image.defects.count() > 0`. */
  predicate HasDefects(defects: seq<Defect>, imageId: nat)
  {
    exists k :: 0 <= k < |defects| && defects[k].imageId == imageId
  }

  /** The image status shown by the batch detail view. */
  function GetImageStatus(db: Db, img: Image): (r: ImageStatus)
    ensures r == Untouched <==> img.detectTime.None?
    ensures r == Faulty <==> img.detectTime.Some? && HasDefects(db.defects, img.imageId)
    ensures r == Flawless <==> img.detectTime.Some? && !HasDefects(db.defects, img.imageId)
  {
    if img.detectTime.None? then Untouched
    else if CountDefects(db.defects, img.imageId) > 0 then Faulty
    else Flawless
  }

  function CountDefects(defects: seq<Defect>, imageId: nat): (n: nat)
    ensures n > 0 <==> HasDefects(defects, imageId)
  {
    if defects == [] then 0
    else CountDefects(defects[..|defects| - 1], imageId) + (if defects[|defects| - 1].imageId == imageId then 1 else 0)
  }

  /** The first row whose key is `id`: the lookup behind `query.get` and `filter_by(...).first()`. */
  function FindBy<T>(rows: seq<T>, key: T -> nat, id: nat): (r: Option<T>)
    ensures r.Some? ==> r.value in rows && key(r.value) == id
    ensures r.None? ==> forall k :: 0 <= k < |rows| ==> key(rows[k]) != id
  {
    if rows == [] then None
    else if key(rows[0]) == id then Some(rows[0])
    else FindBy(rows[1..], key, id)
  }

  /** `HSBatch.query.get(batch_id)`. */
  function FindBatch(batches: seq<Batch>, batchId: nat): (r: Option<Batch>)
    ensures r.Some? ==> r.value in batches && r.value.batchId == batchId
    ensures r.None? ==> forall k :: 0 <= k < |batches| ==> batches[k].batchId != batchId
  {
    FindBy(batches, (b: Batch) => b.batchId, batchId)
  }

  /** `HSImage.query.filter_by(image_id=...).first()`. */
  function FindImage(images: seq<Image>, imageId: nat): (r: Option<Image>)
    ensures r.Some? ==> r.value in images && r.value.imageId == imageId
    ensures r.None? ==> forall k :: 0 <= k < |images| ==> images[k].imageId != imageId
  {
    FindBy(images, (i: Image) => i.imageId, imageId)
  }

  /** Replaces every row with the image's id by the new value (an UPDATE by primary key). */
  function UpdateImage(images: seq<Image>, img: Image): (r: seq<Image>)
    ensures |r| == |images|
    ensures forall k :: 0 <= k < |images| ==> r[k] == (if images[k].imageId == img.imageId then img else images[k])
  {
    seq(|images|, k requires 0 <= k < |images| => if images[k].imageId == img.imageId then img else images[k])
  }

  /** The id text as the database compares it with the integer key, for plain decimal digits; any other text finds no row. */
  function KeyOf(arg: string): (r: Option<nat>)
    ensures r.Some? <==> arg != "" && AllDigits(arg)
  {
    if arg != "" && AllDigits(arg) then Some(ParseDigits(arg)) else None
  }

  /** The printed id finds its row again. */
  lemma KeyOfPrintedId(n: nat)
    ensures KeyOf(NatToString(n)) == Some(n)
  {
    ParseNatToString(n);
  }

  /** `image.defects`: the image's defect rows in insertion order. */
  function DefectsOf(defects: seq<Defect>, imageId: nat): (r: seq<Defect>)
    ensures forall k :: 0 <= k < |r| ==> r[k] in defects && r[k].imageId == imageId
    ensures |r| == CountDefects(defects, imageId)
  {
    if defects == [] then []
    else
      var last := defects[|defects| - 1];
      DefectsOf(defects[..|defects| - 1], imageId) + (if last.imageId == imageId then [last] else [])
  }

  /** Appending rows appends the image's own rows to its list. */
  lemma {:induction false} DefectsOfAppend(defects: seq<Defect>, added: seq<Defect>, imageId: nat)
    requires forall k :: 0 <= k < |added| ==> added[k].imageId == imageId
    ensures DefectsOf(defects + added, imageId) == DefectsOf(defects, imageId) + added
  {
    if added != [] {
      var n := |added| - 1;
      var front, d := added[..n], added[n];
      assert added == front + [d];
      var all := defects + added;
      assert all[..|all| - 1] == defects + front && all[|all| - 1] == d;
      assert DefectsOf(all, imageId) == DefectsOf(defects + front, imageId) + [d];
      DefectsOfAppend(defects, front, imageId);
    } else {
      assert defects + added == defects;
    }
  }
}
