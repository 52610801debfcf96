/** The public value types of the library (types.go) and the two wrappers
    the model uses for nil-able values and Go's `(value, error)` returns. */
module Types {

  /** A value that may be absent: Go's nil slice or nil pointer. */
  datatype Option<+T> = None | Some(value: T)

  /** Go's `(value, error)` pair: exactly one of the two is meaningful. */
  datatype Result<+T, +E> = Ok(value: T) | Err(error: E)

  type Byte = bv8

  /** Location of a text block, normalised to [0,1] of the image
      (float64 in the source, exact `real` here). */
  datatype BoundingBox = BoundingBox(x: real, y: real, width: real, height: real)

  datatype TextBlock = TextBlock(text: string, box: BoundingBox)

  /** `Result`: the blocks in order and all text concatenated. */
  datatype OcrResult = OcrResult(blocks: seq<TextBlock>, text: string)

  /** `Input`: only one field should be set. An empty string means "not set"
      for the two string fields; `None` is the nil `Data` slice, so
      `Some([])` (an empty, non-nil slice) is set. */
  datatype Input = Input(filePath: string, url: string, data: Option<seq<Byte>>)

  /** `Options`: the input and the language hints. */
  datatype Options = Options(input: Input, languages: seq<string>)

  /** The texts of a sequence of blocks, in order. */
  function BlockTexts(bs: seq<TextBlock>): (ts: seq<string>)
    ensures |ts| == |bs|
    ensures forall k :: 0 <= k < |bs| ==> ts[k] == bs[k].text
  {
    seq(|bs|, k requires 0 <= k < |bs| => bs[k].text)
  }
}
