/**
 * The detection wire contract (`Detect(image_bytes) -> DetectResponse`):
 * one result per detected instance and the rendered overlay image.
 */
module Protocol {

  newtype byte = x: int | 0 <= x < 256

  type Bytes = seq<byte>

  /** An axis-aligned box in source-image pixels, `(x1, y1, x2, y2)`. */
  datatype Box = Box(x1: real, y1: real, x2: real, y2: real)

  /** One `DetectResult`: the box, the confidence and the class id. */
  datatype Det = Det(box: Box, confidence: real, classId: int)

  /** `DetectResponse`: the results in emission order and the encoded overlay. */
  datatype DetectResponse = DetectResponse(results: seq<Det>, processedImage: Bytes)
}
