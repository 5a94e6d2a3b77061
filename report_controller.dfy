/**
 * The second part of the PDF report (`create-report`): for each of four
 * fixed defect types a numbered heading, then up to five example images,
 * each under three caption lines and scaled into an 800 x 200 box, with
 * a new page whenever the cursor `y_position` falls below 100.
 *
 * Only the cursor and what is placed where are modelled; the charts,
 * fonts and the drawing itself are not.
 */
module ReportController {
  import opened Wrappers
  import opened Text
  import opened Tables
  import opened Numbers

  /** The section order; the third name is not one the detector emits (`ThirdTypeNeverEmitted`). */
  const ReportTypes: seq<string> := ["表面杂质", "斑块缺陷", "横线裂纹", "边缘裂纹"]

  /**
   * The third heading is spelled with 线 where the detector's class name
   * has 向: no class id is ever given that name, so a defect row of that
   * type is never written and its section always shows the "not
   * detected" line. The other three headings are class names.
   */
  lemma ThirdTypeNeverEmitted()
    ensures ReportTypes[2] !in DefectNames
    ensures forall classId :: DefectName(classId) != Some(ReportTypes[2])
    ensures forall k :: 0 <= k < |ReportTypes| && k != 2 ==> ReportTypes[k] in DefectNames
  {
    var t := ReportTypes[2];
    forall j | 0 <= j < |DefectNames| ensures DefectNames[j] != t {
      assert DefectNames[j][0] != t[0] || DefectNames[j][1] != t[1];
    }
    assert ReportTypes[0] == DefectNames[2] && ReportTypes[1] == DefectNames[3] && ReportTypes[3] == DefectNames[0];
  }

  const StartY := 650
  const BreakY := 100
  const FreshPageY := 1350
  const MaxPerType := 5

  /** The columns the layout reads from a selected image row. */
  datatype Shot = Shot(width: Option<int>, height: Option<int>, processed: Option<string>)

  /** An exception inside the loop (a `TypeError` on a null column, a `ZeroDivisionError`): the request fails. */
  datatype ReportFault = Raised

  function Min(a: int, b: int): int { if a <= b then a else b }

  function MinReal(a: real, b: real): real { if a <= b then a else b }

  /** `min(800 / w, 200 / h, 1)`. */
  function Scale(w: int, h: int): (s: real)
    requires w != 0 && h != 0
    ensures w > 0 && h > 0 ==> 0.0 < s <= 1.0 && s * w as real <= 800.0 && s * h as real <= 200.0
  {
    var a := 800.0 / w as real;
    var b := 200.0 / h as real;
    var s := MinReal(MinReal(a, b), 1.0);
    MulBelow(s, a, w as real);
    MulBelow(s, b, h as real);
    s
  }

  lemma MulBelow(s: real, bound: real, x: real)
    ensures x > 0.0 && s <= bound ==> s * x <= bound * x
  {
  }

  /**
   * The scaled size of an image: `int(w * scale)` by `int(h * scale)`.
   * The path join fails on a null processed path, the division on a null
   * or zero width or height.
   */
  function ScaledDims(shot: Shot): (r: Result<(int, int), ReportFault>)
    ensures r.Err? <==>
      shot.processed.None? || shot.width.None? || shot.height.None? || shot.width == Some(0) || shot.height == Some(0)
    ensures r.Ok? && shot.width.value > 0 && shot.height.value > 0 ==>
      && 0 <= r.value.0 <= 800 && r.value.0 <= shot.width.value
      && 0 <= r.value.1 <= 200 && r.value.1 <= shot.height.value
  {
    if shot.processed.None? || shot.width.None? || shot.height.None? then Err(Raised)
    else
      var w, h := shot.width.value, shot.height.value;
      if w == 0 || h == 0 then Err(Raised)
      else
        var s := Scale(w, h);
        ScaledBounds(w, s, 800);
        ScaledBounds(h, s, 200);
        Ok((Trunc(w as real * s), Trunc(h as real * s)))
  }

  /** With `0 < s <= 1` and `s * x <= cap`, `int(x * s)` lies in `0..min(x, cap)`. */
  lemma ScaledBounds(x: int, s: real, cap: int)
    ensures x > 0 && 0.0 < s <= 1.0 && s * x as real <= cap as real ==>
      0 <= Trunc(x as real * s) <= cap && Trunc(x as real * s) <= x
  {
    if x > 0 && 0.0 < s <= 1.0 && s * x as real <= cap as real {
      var v := x as real * s;
      ScaleBelow(s, x, cap, v);
      TruncBounds(v, x, cap);
    }
  }

  /** A positive value at most `x` and at most `cap` truncates into `0..min(x, cap)`. */
  lemma TruncBounds(v: real, x: int, cap: int)
    requires 0.0 < v <= x as real && v <= cap as real
    ensures 0 <= Trunc(v) <= cap && Trunc(v) <= x
  {
  }

  /** Scaling a positive length by a factor in `(0, 1]` keeps it positive and no longer. */
  lemma ScaleBelow(s: real, x: int, cap: int, v: real)
    requires 0.0 < s <= 1.0 && 0 < x && s * x as real <= cap as real
    requires v == x as real * s
    ensures 0.0 < v <= x as real && v <= cap as real
  {
  }

  /** An image that already fits in 800 x 200 keeps its size. */
  lemma SmallImageKeepsSize(w: int, h: int, p: string)
    requires 0 < w <= 800 && 0 < h <= 200
    ensures ScaledDims(Shot(Some(w), Some(h), Some(p))) == Ok((w, h))
  {
    var a := 800.0 / w as real;
    var b := 200.0 / h as real;
    assert a >= 1.0 by { MulBelow(1.0, a, w as real); }
    assert b >= 1.0 by { MulBelow(1.0, b, h as real); }
  }

  /** An image row imported without its size (the import endpoint stores none) makes the report fail. */
  lemma UnsizedImageFails(h: Option<int>, p: Option<string>)
    ensures ScaledDims(Shot(None, h, p)) == Err(Raised)
  {
  }

  /** One placed image: the first caption line, the image's lower edge, and its drawn size. */
  datatype Picture = Picture(captionY: int, bottom: int, width: int, height: int)

  /** One defect type's part: the numbered heading, where it stands, and the images (none: the "not detected" line). */
  datatype Section = Section(title: string, titleY: int, pictures: seq<Picture>)

  /** `y_position` and how many page breaks the loop has made. */
  datatype Cursor = Cursor(y: int, pages: nat)

  /** `f"{defect_types.index(defect_type) + 1}. {defect_type}"` for the `k`-th type. */
  function Title(k: nat): string
    requires k < |ReportTypes|
  {
    IntToString(k + 1) + ". " + ReportTypes[k]
  }

  /**
   * One image: three caption lines of 20, the image of height `h` below
   * them and a gap of 20; below 100 the page ends and `y` restarts at 1350.
   */
  function PlaceImage(c: Cursor, w: int, h: int): (r: (Cursor, Picture))
    ensures r.1.captionY == c.y && r.1.bottom == c.y - 60 - h
    ensures r.0.y >= BreakY
    ensures r.0.y == c.y - 80 - h || (c.y - 80 - h < BreakY && r.0 == Cursor(FreshPageY, c.pages + 1))
  {
    var y := c.y - 60 - (20 + h);
    var pic := Picture(c.y, c.y - 60 - h, w, h);
    if y < BreakY then (Cursor(FreshPageY, c.pages + 1), pic) else (Cursor(y, c.pages), pic)
  }

  /** The images of one type in order, or the fault of the first that cannot be scaled. */
  function PlaceImages(c: Cursor, shots: seq<Shot>): (r: Result<(Cursor, seq<Picture>), ReportFault>)
    ensures r.Ok? ==> |r.value.1| == |shots|
    ensures r.Ok? && shots != [] ==> r.value.0.y >= BreakY
  {
    if shots == [] then Ok((c, []))
    else
      var n := |shots| - 1;
      match PlaceImages(c, shots[..n])
      case Err(e) => Err(e)
      case Ok((c1, pics)) =>
        match ScaledDims(shots[n])
        case Err(e) => Err(e)
        case Ok((w, h)) =>
          var (c2, pic) := PlaceImage(c1, w, h);
          Ok((c2, pics + [pic]))
  }

  /** The first caption stands where the cursor started. */
  lemma {:induction false} FirstCaption(c: Cursor, shots: seq<Shot>)
    requires PlaceImages(c, shots).Ok? && shots != []
    ensures PlaceImages(c, shots).value.1[0].captionY == c.y
  {
    var n := |shots| - 1;
    if n > 0 {
      FirstCaption(c, shots[..n]);
    }
  }

  /** A row with a positive stored size. */
  predicate Sized(shot: Shot)
  {
    shot.width.Some? && shot.height.Some? && shot.width.value > 0 && shot.height.value > 0
  }

  /** With positive sizes the cursor only moves down, and a page break puts it back at 1350: it never ends above 1350. */
  lemma {:induction false} CursorMovesDown(c: Cursor, shots: seq<Shot>)
    requires forall i :: 0 <= i < |shots| ==> Sized(shots[i])
    requires c.y <= FreshPageY && PlaceImages(c, shots).Ok?
    ensures PlaceImages(c, shots).value.0.y <= FreshPageY
  {
    if shots != [] {
      var n := |shots| - 1;
      assert forall i :: 0 <= i < n ==> shots[..n][i] == shots[i];
      CursorMovesDown(c, shots[..n]);
      assert Sized(shots[n]);
    }
  }

  /** Placing fails exactly when some image cannot be scaled. */
  lemma {:induction false} PlaceImagesFailsIff(c: Cursor, shots: seq<Shot>)
    ensures PlaceImages(c, shots).Err? <==> exists i :: 0 <= i < |shots| && ScaledDims(shots[i]).Err?
  {
    if shots != [] {
      var n := |shots| - 1;
      PlaceImagesFailsIff(c, shots[..n]);
      assert forall i :: 0 <= i < n ==> shots[..n][i] == shots[i];
    }
  }

  /** Every placed image is the scaled size of its row, within 800 x 200 for a row of positive size. */
  lemma {:induction false} PicturesFitBox(c: Cursor, shots: seq<Shot>)
    requires PlaceImages(c, shots).Ok?
    ensures forall i :: 0 <= i < |shots| ==>
      var pic := PlaceImages(c, shots).value.1[i];
      && ScaledDims(shots[i]) == Ok((pic.width, pic.height))
      && (shots[i].width.value > 0 && shots[i].height.value > 0 ==> pic.width <= 800 && pic.height <= 200)
  {
    if shots != [] {
      var n := |shots| - 1;
      PicturesFitBox(c, shots[..n]);
      assert forall i :: 0 <= i < n ==> shots[..n][i] == shots[i];
    }
  }

  /** `random.sample(images, min(len(images), 5))`, with the sample's order given by the caller. */
  function Selected(images: seq<Shot>): (r: seq<Shot>)
    ensures |r| == Min(|images|, MaxPerType)
  {
    images[..Min(|images|, MaxPerType)]
  }

  /**
   * One type: the heading lowers `y` by 30; with no images a notice line
   * lowers it by 30 more and no page break is checked.
   */
  function PlaceSection(c: Cursor, k: nat, images: seq<Shot>): (r: Result<(Cursor, Section), ReportFault>)
    requires k < |ReportTypes|
    ensures r.Ok? ==> r.value.1.title == Title(k) && r.value.1.titleY == c.y
    ensures r.Ok? ==> |r.value.1.pictures| == Min(|images|, MaxPerType)
    ensures images == [] ==> r == Ok((Cursor(c.y - 60, c.pages), Section(Title(k), c.y, [])))
    ensures images != [] && r.Ok? ==> r.value.0.y >= BreakY && r.value.1.pictures[0].captionY == c.y - 30
  {
    var below := Cursor(c.y - 30, c.pages);
    if images == [] then Ok((Cursor(below.y - 30, c.pages), Section(Title(k), c.y, [])))
    else
      match PlaceImages(below, Selected(images))
      case Err(e) => Err(e)
      case Ok((c1, pics)) =>
        FirstCaption(below, Selected(images));
        Ok((c1, Section(Title(k), c.y, pics)))
  }

  /** The first `n` types laid out from the top of the showcase page. */
  function LayoutSpec(query: string -> seq<Shot>, n: nat): (r: Result<(Cursor, seq<Section>), ReportFault>)
    requires n <= |ReportTypes|
    ensures r.Ok? ==> |r.value.1| == n
    ensures r.Ok? ==> forall k :: 0 <= k < n ==>
      && r.value.1[k].title == Title(k)
      && |r.value.1[k].pictures| == Min(|query(ReportTypes[k])|, MaxPerType)
  {
    if n == 0 then Ok((Cursor(StartY, 0), []))
    else
      match LayoutSpec(query, n - 1)
      case Err(e) => Err(e)
      case Ok((c, sections)) =>
        match PlaceSection(c, n - 1, query(ReportTypes[n - 1]))
        case Err(e) => Err(e)
        case Ok((c1, s)) => Ok((c1, sections + [s]))
  }

  /** Every row any query returns has a positive stored size. */
  predicate AllSized(query: string -> seq<Shot>)
  {
    forall k, i :: 0 <= k < |ReportTypes| && 0 <= i < |query(ReportTypes[k])| ==> Sized(query(ReportTypes[k])[i])
  }

  /** With sized rows the cursor never rises above the fresh-page position, so no heading is placed above it. */
  lemma {:induction false} CursorStaysBelowTop(query: string -> seq<Shot>, n: nat)
    requires n <= |ReportTypes| && AllSized(query)
    requires LayoutSpec(query, n).Ok?
    ensures LayoutSpec(query, n).value.0.y <= FreshPageY
    ensures forall k :: 0 <= k < n ==> LayoutSpec(query, n).value.1[k].titleY <= FreshPageY
  {
    if n > 0 {
      CursorStaysBelowTop(query, n - 1);
      var prev := LayoutSpec(query, n - 1).value;
      var c := prev.0;
      var images := query(ReportTypes[n - 1]);
      var placed := PlaceSection(c, n - 1, images);
      assert placed.Ok? && LayoutSpec(query, n).value == (placed.value.0, prev.1 + [placed.value.1]);
      assert forall i :: 0 <= i < |images| ==> Sized(images[i]);
      SectionStaysBelowTop(c, n - 1, images);
      forall k | 0 <= k < n ensures LayoutSpec(query, n).value.1[k].titleY <= FreshPageY {
        if k < n - 1 {
          assert LayoutSpec(query, n).value.1[k] == prev.1[k];
        }
      }
    }
  }

  /** One section laid out from a cursor at or below 1350 leaves both its heading and the cursor there. */
  lemma SectionStaysBelowTop(c: Cursor, k: nat, images: seq<Shot>)
    requires k < |ReportTypes| && c.y <= FreshPageY
    requires forall i :: 0 <= i < |images| ==> Sized(images[i])
    requires PlaceSection(c, k, images).Ok?
    ensures PlaceSection(c, k, images).value.0.y <= FreshPageY
    ensures PlaceSection(c, k, images).value.1.titleY <= FreshPageY
  {
    if images != [] {
      var sel := Selected(images);
      assert forall i :: 0 <= i < |sel| ==> sel[i] == images[i];
      CursorMovesDown(Cursor(c.y - 30, c.pages), sel);
    }
  }

  /**
   * The page break is checked only after an image, so a section that
   * starts low draws its first image partly below the page's lower edge.
   */
  lemma SectionCanDrawBelowPage(c: Cursor, k: nat, p: string)
    requires k < |ReportTypes| && c.y < 290
    ensures var r := PlaceSection(c, k, [Shot(Some(800), Some(200), Some(p))]);
      r.Ok? && r.value.1.pictures[0].bottom < 0
  {
    var shot := Shot(Some(800), Some(200), Some(p));
    SmallImageKeepsSize(800, 200, p);
    assert Selected([shot]) == [shot];
    assert [shot][..0] == [];
    var below := Cursor(c.y - 30, c.pages);
    assert PlaceImages(below, [shot][..0]) == Ok((below, []));
    assert ScaledDims([shot][0]) == Ok((800, 200));
    assert [] + [PlaceImage(below, 800, 200).1] == [PlaceImage(below, 800, 200).1];
    assert PlaceImages(below, [shot]) == Ok((PlaceImage(below, 800, 200).0, [PlaceImage(below, 800, 200).1]));
  }

  /** A run of types without images keeps lowering the cursor, with no page break, below the page. */
  lemma EmptyTypesRunOffThePage(c: Cursor)
    requires c.y < 160
    ensures var (c1, _) := PlaceSection(c, 1, []).value;
      var (c2, s2) := PlaceSection(c1, 2, []).value;
      s2.titleY < BreakY && c2.y < 40
  {
  }

  /** Once an image fails, later types change nothing: the whole layout fails. */
  lemma {:induction false} LayoutErrPersists(query: string -> seq<Shot>, j: nat, n: nat)
    requires j <= n <= |ReportTypes|
    requires LayoutSpec(query, j).Err?
    ensures LayoutSpec(query, n).Err?
  {
    if j < n {
      LayoutErrPersists(query, j, n - 1);
    }
  }

  lemma {:induction false} PlaceImagesErrPersists(c: Cursor, shots: seq<Shot>, j: nat)
    requires j <= |shots|
    requires PlaceImages(c, shots[..j]).Err?
    ensures PlaceImages(c, shots).Err?
  {
    if j < |shots| {
      var n := |shots| - 1;
      assert shots[..n][..j] == shots[..j];
      PlaceImagesErrPersists(c, shots[..n], j);
    } else {
      assert shots[..j] == shots;
    }
  }

  /** One more image: the previous placement extended by it, or the fault of the first image that fails. */
  lemma PlaceImagesStep(c: Cursor, shots: seq<Shot>, j: nat)
    requires j < |shots|
    ensures var prev := PlaceImages(c, shots[..j]);
      if prev.Err? || ScaledDims(shots[j]).Err? then PlaceImages(c, shots[..j + 1]).Err?
      else
        var (w, h) := ScaledDims(shots[j]).value;
        PlaceImages(c, shots[..j + 1]) == Ok((PlaceImage(prev.value.0, w, h).0, prev.value.1 + [PlaceImage(prev.value.0, w, h).1]))
  {
    var s := shots[..j + 1];
    assert s[..j] == shots[..j] && s[j] == shots[j] && |s| - 1 == j;
  }

  /**
   * The showcase loop: the four types in order, the images of each, the
   * cursor moved and reset on the way; the first failing image ends it.
   */
  method LayoutDefects(query: string -> seq<Shot>) returns (r: Result<(Cursor, seq<Section>), ReportFault>)
    ensures r == LayoutSpec(query, |ReportTypes|)
  {
    var y := StartY;
    var pages := 0;
    var sections: seq<Section> := [];
    for k := 0 to |ReportTypes|
      invariant LayoutSpec(query, k) == Ok((Cursor(y, pages), sections))
    {
      var images := query(ReportTypes[k]);
      var titleY := y;
      y := y - 30;
      if images == [] {
        y := y - 30;
        sections := sections + [Section(Title(k), titleY, [])];
        continue;
      }
      var selected := images[..Min(|images|, MaxPerType)];
      var placed := PlaceSelected(Cursor(y, pages), selected);
      if placed.Err? {
        assert LayoutSpec(query, k + 1).Err?;
        LayoutErrPersists(query, k + 1, |ReportTypes|);
        assert LayoutSpec(query, |ReportTypes|).error.Raised?;
        return Err(Raised);
      }
      y, pages := placed.value.0.y, placed.value.0.pages;
      sections := sections + [Section(Title(k), titleY, placed.value.1)];
    }
    r := Ok((Cursor(y, pages), sections));
  }

  /** The inner loop over the selected images of one type. */
  method PlaceSelected(start: Cursor, selected: seq<Shot>) returns (r: Result<(Cursor, seq<Picture>), ReportFault>)
    ensures r == PlaceImages(start, selected)
  {
    var y, pages := start.y, start.pages;
    var pictures: seq<Picture> := [];
    for j := 0 to |selected|
      invariant PlaceImages(start, selected[..j]) == Ok((Cursor(y, pages), pictures))
    {
      PlaceImagesStep(start, selected, j);
      var dims := ScaledDims(selected[j]);
      if dims.Err? {
        PlaceImagesErrPersists(start, selected, j + 1);
        assert PlaceImages(start, selected).error.Raised?;
        return Err(Raised);
      }
      var (w, h) := dims.value;
      pictures := pictures + [Picture(y, y - 60 - h, w, h)];
      y := y - 60;
      y := y - (20 + h);
      if y < BreakY {
        pages := pages + 1;
        y := FreshPageY;
      }
    }
    assert selected[..|selected|] == selected;
    r := Ok((Cursor(y, pages), pictures));
  }
}
