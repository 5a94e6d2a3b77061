/**
 * The detection server's request handler (`DetectorServicer.Detect`):
 * it blends one colour layer per instance mask onto the image, in the
 * order the model emitted the masks, and copies every box into the
 * response. The model, the resize of a mask to the image and the
 * weighted blend itself are inputs here.
 */
module GrpcServer {
  import opened Wrappers
  import opened Tables
  import opened Protocol

  /** A decoded image: rows of pixels (height rows of width pixels). */
  type Image = seq<seq<Px>>

  /** One instance mask after scaling by 255, the uint8 cast and the resize to the image. */
  type Mask = seq<seq<nat>>

  predicate SameDims<S, T>(a: seq<seq<S>>, b: seq<seq<T>>)
  {
    |a| == |b| && forall y :: 0 <= y < |a| ==> |a[y]| == |b[y]|
  }

  /** What the model reports for the image: the boxes and, when it segments, one mask per box. */
  datatype Prediction = Prediction(boxes: seq<Det>, masks: Option<seq<Mask>>)

  /** A fault raised inside the handler: an index past the box list or past `colors`. */
  datatype Fault = IndexError

  /** The handler's reply before JPEG encoding: the result list and the composited image. */
  datatype Reply = Reply(results: seq<Det>, overlay: Image)

  /** The masks the handler iterates over: none when the model gave none. */
  function MasksOf(p: Prediction): seq<Mask>
  {
    if p.masks.Some? then p.masks.value else []
  }

  /** `colored_mask`: the class colour where the mask is positive, black elsewhere. */
  function ColorLayer(mask: Mask, color: Px): (layer: Image)
    ensures SameDims(layer, mask)
  {
    seq(|mask|, y requires 0 <= y < |mask| =>
      seq(|mask[y]|, x requires 0 <= x < |mask[y]| => if mask[y][x] > 0 then color else Black))
  }

  /** The layer is coloured exactly on the mask's support, and there it carries the class colour. */
  lemma LayerOnMask(mask: Mask, classId: int, y: nat, x: nat)
    requires ColorOf(classId).Some?
    requires y < |mask| && x < |mask[y]|
    ensures ColorLayer(mask, ColorOf(classId).value)[y][x] != Black <==> mask[y][x] > 0
    ensures mask[y][x] > 0 ==> ColorLayer(mask, ColorOf(classId).value)[y][x] == ColorOf(classId).value
  {
    ColorsNotBlack(classId);
  }

  /** A mask resized to the image gives a layer with the image's dimensions. */
  lemma LayerHasImageDims(img: Image, mask: Mask, color: Px)
    requires SameDims(mask, img)
    ensures SameDims(ColorLayer(mask, color), img)
  {
  }

  /**
   * The running image after the first `|masks|` masks, each blended on
   * top of the previous result; mask `i` takes the class of box `i`.
   */
  function Overlay(img: Image, boxes: seq<Det>, masks: seq<Mask>, blend: (Image, Image) -> Image): Result<Image, Fault>
  {
    if masks == [] then Ok(img)
    else
      var i := |masks| - 1;
      match Overlay(img, boxes, masks[..i], blend)
      case Err(e) => Err(e)
      case Ok(prev) =>
        if i >= |boxes| then Err(IndexError)
        else match ColorOf(boxes[i].classId)
          case None => Err(IndexError)
          case Some(c) => Ok(blend(prev, ColorLayer(masks[i], c)))
  }

  /** Mask `i` can be blended: it has a box and that box's class has a colour. */
  predicate Blendable(boxes: seq<Det>, i: nat)
  {
    i < |boxes| && ColorOf(boxes[i].classId).Some?
  }

  /** Compositing fails exactly when some mask has no box or an out-of-range class. */
  lemma {:induction false} OverlayFailsIff(img: Image, boxes: seq<Det>, masks: seq<Mask>, blend: (Image, Image) -> Image)
    ensures Overlay(img, boxes, masks, blend).Err? <==> exists i :: 0 <= i < |masks| && !Blendable(boxes, i)
  {
    if masks != [] {
      var n := |masks| - 1;
      OverlayFailsIff(img, boxes, masks[..n], blend);
      if exists i :: 0 <= i < |masks| && !Blendable(boxes, i) {
        var i :| 0 <= i < |masks| && !Blendable(boxes, i);
        if i < n {
          assert 0 <= i < |masks[..n]| && !Blendable(boxes, i);
        }
      } else {
        assert forall i :: 0 <= i < |masks[..n]| ==> Blendable(boxes, i);
        assert Blendable(boxes, n);
      }
    }
  }

  /** A failure at some mask is final: blending further masks does not recover. */
  lemma {:induction false} OverlayErrPersists(img: Image, boxes: seq<Det>, masks: seq<Mask>, j: nat, blend: (Image, Image) -> Image)
    requires j <= |masks|
    requires Overlay(img, boxes, masks[..j], blend).Err?
    ensures Overlay(img, boxes, masks, blend).Err?
  {
    if j < |masks| {
      var n := |masks| - 1;
      assert masks[..n][..j] == masks[..j];
      OverlayErrPersists(img, boxes, masks[..n], j, blend);
    } else {
      assert masks[..j] == masks;
    }
  }

  /** The handler's outcome as a function of the image and the prediction. */
  function Handle(img: Image, p: Prediction, blend: (Image, Image) -> Image): Result<Reply, Fault>
  {
    match Overlay(img, p.boxes, MasksOf(p), blend)
    case Err(e) => Err(e)
    case Ok(o) => Ok(Reply(p.boxes, o))
  }

  /** With no masks the image is returned untouched, whatever the boxes. */
  lemma NoMasksNoOverlay(img: Image, boxes: seq<Det>, blend: (Image, Image) -> Image)
    ensures Handle(img, Prediction(boxes, None), blend) == Ok(Reply(boxes, img))
    ensures Handle(img, Prediction(boxes, Some([])), blend) == Ok(Reply(boxes, img))
  {
  }

  /**
   * `DetectorServicer.Detect`: blend the masks in order, then add one
   * result per box. A failing index aborts the call with a fault.
   */
  method Detect(img: Image, p: Prediction, blend: (Image, Image) -> Image) returns (r: Result<Reply, Fault>)
    ensures r == Handle(img, p, blend)
    ensures r.Ok? ==> |r.value.results| == |p.boxes| && forall i :: 0 <= i < |p.boxes| ==> r.value.results[i] == p.boxes[i]
    ensures r.Ok? && MasksOf(p) == [] ==> r.value.overlay == img
    ensures r.Err? <==> exists i :: 0 <= i < |MasksOf(p)| && !Blendable(p.boxes, i)
  {
    OverlayFailsIff(img, p.boxes, MasksOf(p), blend);
    var masks := MasksOf(p);
    var cur := img;
    var i := 0;
    while i < |masks|
      invariant 0 <= i <= |masks|
      invariant Overlay(img, p.boxes, masks[..i], blend) == Ok(cur)
    {
      assert masks[..i + 1][..i] == masks[..i];
      if i >= |p.boxes| {
        OverlayErrPersists(img, p.boxes, masks, i + 1, blend);
        assert Overlay(img, p.boxes, masks, blend).error.IndexError?;
        return Err(IndexError);
      }
      var color := ColorOf(p.boxes[i].classId);
      if color.None? {
        assert Overlay(img, p.boxes, masks[..i + 1], blend) == Err(IndexError);
        OverlayErrPersists(img, p.boxes, masks, i + 1, blend);
        assert Overlay(img, p.boxes, masks, blend).error.IndexError?;
        return Err(IndexError);
      }
      cur := blend(cur, ColorLayer(masks[i], color.value));
      i := i + 1;
    }
    assert masks[..i] == masks;
    var results: seq<Det> := [];
    for j := 0 to |p.boxes|
      invariant results == p.boxes[..j]
    {
      var b := p.boxes[j];
      results := results + [Det(b.box, b.confidence, b.classId)];
    }
    assert results == p.boxes;
    r := Ok(Reply(results, cur));
  }
}
