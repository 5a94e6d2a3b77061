/**
 * The class tables the detection server and every consumer share:
 * the four defect names and the four overlay colours, indexed by the
 * detector's class id with Python list-indexing rules.
 */
module Tables {
  import opened Wrappers

  /** One colour-layer pixel: three 8-bit channels in the image's channel order. */
  datatype Px = Px(ch0: nat, ch1: nat, ch2: nat)

  const Black := Px(0, 0, 0)

  /** `DEFECT_NAMES`: edge crack, transverse crack, surface inclusion, patch defect. */
  const DefectNames: seq<string> := ["边缘裂纹", "横向裂纹", "表面杂质", "斑块缺陷"]

  /** `colors`, one per class id. */
  const Colors: seq<Px> := [Px(255, 0, 0), Px(0, 255, 0), Px(0, 255, 255), Px(0, 0, 255)]

  /** Python `xs[i]`: a negative index counts from the end, anything else out of range raises `IndexError` (None). */
  function PyIndex<T>(xs: seq<T>, i: int): (r: Option<T>)
    ensures r.Some? <==> -|xs| <= i < |xs|
    ensures 0 <= i < |xs| ==> r == Some(xs[i])
    ensures -|xs| <= i < 0 ==> r == Some(xs[|xs| + i])
  {
    if 0 <= i < |xs| then Some(xs[i])
    else if -|xs| <= i < 0 then Some(xs[|xs| + i])
    else None
  }

  /** `DEFECT_NAMES[class_id]`. */
  function DefectName(classId: int): Option<string>
  {
    PyIndex(DefectNames, classId)
  }

  /** `colors[class_id]`. */
  function ColorOf(classId: int): Option<Px>
  {
    PyIndex(Colors, classId)
  }

  /** The two tables stay in lock-step: a class id has a name exactly when it has a colour, and ids 4 and up have neither. */
  lemma TablesInLockStep(classId: int)
    ensures |DefectNames| == |Colors| == 4
    ensures DefectName(classId).Some? <==> ColorOf(classId).Some?
    ensures DefectName(classId).Some? <==> -4 <= classId < 4
  {
  }

  /** No overlay colour is black, so a coloured pixel is always visible in the layer. */
  lemma ColorsNotBlack(classId: int)
    requires ColorOf(classId).Some?
    ensures ColorOf(classId).value != Black
  {
  }
}
