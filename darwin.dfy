/** The macOS entry point (ocr_darwin.go): resolve the input, hand the
    bytes and hints to the Vision backend, and convert its blocks into the
    public result. The Vision backend itself (internal/darwin) is an
    oracle: `vision(data, languages)` is what `darwin.Recognize` returns. */
module Darwin {
  import opened Types
  import opened Texts
  import opened InputResolve
  import WinrtAggregate

  /** A block as the Vision backend returns it: the text and the four
      normalised coordinates as separate fields. */
  datatype VisionBlock = VisionBlock(text: string, x: real, y: real, width: real, height: real)

  /** The two errors `Recognize` passes on unchanged. */
  datatype RecognizeError =
    | InputFailed(input: InputError) // from resolveInput
    | VisionFailed(message: string)  // from darwin.Recognize

  /** The public block for a Vision block: same text, same coordinates. */
  function PublicBlock(b: VisionBlock): (t: TextBlock)
    ensures t.text == b.text
    ensures t.box.x == b.x && t.box.y == b.y && t.box.width == b.width && t.box.height == b.height
  {
    TextBlock(b.text, BoundingBox(b.x, b.y, b.width, b.height))
  }

  /** The Vision texts, in order. */
  function VisionTexts(vs: seq<VisionBlock>): (ts: seq<string>)
    ensures |ts| == |vs| && forall k :: 0 <= k < |vs| ==> ts[k] == vs[k].text
  {
    seq(|vs|, k requires 0 <= k < |vs| => vs[k].text)
  }

  /** The conversion loop: one public block per Vision block, copied
      verbatim, and "\n" written before every block but the first, so the
      text is the texts joined by newlines, empty texts included. */
  method Convert(vs: seq<VisionBlock>) returns (r: OcrResult)
    ensures |r.blocks| == |vs|
    ensures forall k :: 0 <= k < |vs| ==> r.blocks[k] == PublicBlock(vs[k])
    ensures r.text == Join(VisionTexts(vs), Newline)
  {
    var blocks := new TextBlock[|vs|](_ => TextBlock("", BoundingBox(0.0, 0.0, 0.0, 0.0)));
    var text := "";
    for i := 0 to |vs|
      invariant forall k :: 0 <= k < i ==> blocks[k] == PublicBlock(vs[k])
      invariant text == Join(VisionTexts(vs[..i]), Newline)
    {
      var b := vs[i];
      blocks[i] := TextBlock(b.text, BoundingBox(b.x, b.y, b.width, b.height));
      TextStep(vs, i);
      if i > 0 {
        text := text + Newline;
      }
      text := text + b.text;
    }
    assert vs[..|vs|] == vs;
    r := OcrResult(blocks[..], text);
  }

  /** One turn of the text builder extends the join by one text. */
  lemma TextStep(vs: seq<VisionBlock>, i: nat)
    requires i < |vs|
    ensures Join(VisionTexts(vs[..i + 1]), Newline)
            == (if i > 0 then Join(VisionTexts(vs[..i]), Newline) + Newline else "") + vs[i].text
  {
    var before := VisionTexts(vs[..i]);
    assert VisionTexts(vs[..i + 1]) == before + [vs[i].text];
    if i > 0 {
      JoinSnoc(before, vs[i].text, Newline);
    } else {
      assert before + [vs[i].text] == [vs[i].text];
    }
  }

  /** Recognize: an input error is returned before Vision is called; a
      Vision error is returned with no result; otherwise the converted
      blocks. `readFile` and `get` are the answers of the file system and
      the network, `vision` that of the Vision backend. */
  method Recognize(opts: Options, readFile: Result<seq<Byte>, string>, get: HttpOutcome,
                   vision: (seq<Byte>, seq<string>) -> Result<seq<VisionBlock>, string>)
    returns (r: Result<OcrResult, RecognizeError>, visionCalled: bool)
    ensures var resolved := ResolveInput(opts.input, readFile, get).result;
            && (visionCalled <==> resolved.Ok?)
            && (resolved.Err? ==> r == Err(InputFailed(resolved.error)))
            && (resolved.Ok? && vision(resolved.value, opts.languages).Err? ==>
                  r == Err(VisionFailed(vision(resolved.value, opts.languages).error)))
    ensures r.Ok? <==> visionCalled && vision(ResolveInput(opts.input, readFile, get).result.value, opts.languages).Ok?
    ensures r.Ok? ==> exists vs :: vision(ResolveInput(opts.input, readFile, get).result.value, opts.languages) == Ok(vs)
                                   && |r.value.blocks| == |vs|
                                   && (forall k :: 0 <= k < |vs| ==> r.value.blocks[k] == PublicBlock(vs[k]))
                                   && r.value.text == Join(VisionTexts(vs), Newline)
  {
    var resolved := ResolveInput(opts.input, readFile, get).result;
    if resolved.Err? {
      return Err(InputFailed(resolved.error)), false;
    }
    var native := vision(resolved.value, opts.languages);
    visionCalled := true;
    if native.Err? {
      return Err(VisionFailed(native.error)), visionCalled;
    }
    var result := Convert(native.value);
    r := Ok(result);
  }

  /** The text splits back into the block texts when none of them holds a
      newline: no block is lost or merged, empty ones included. */
  lemma TextSplitsBack(vs: seq<VisionBlock>, text: string)
    requires |vs| > 0
    requires forall k :: 0 <= k < |vs| ==> '\n' !in vs[k].text
    requires text == Join(VisionTexts(vs), Newline)
    ensures Split(text, '\n') == VisionTexts(vs)
  {
    SplitJoin(VisionTexts(vs), '\n');
  }

  /** The text has exactly one newline per pair of neighbouring blocks on
      top of the block texts. */
  lemma TextLength(vs: seq<VisionBlock>, text: string)
    requires |vs| > 0
    requires text == Join(VisionTexts(vs), Newline)
    ensures |text| == SumLengths(VisionTexts(vs)) + |vs| - 1
  {
    JoinLength(VisionTexts(vs), Newline);
  }

  /** A leading empty text is where the two backends differ: macOS writes
      its newline before "a", Windows writes none because nothing was
      written yet. (With a non-empty first text they agree, see
      `WinrtAggregate.BuildTextFirstNonEmpty`.) */
  lemma LeadingEmptyTextDiffers()
    ensures Join(["", "a"], Newline) == "\na"
    ensures WinrtAggregate.BuildText(["", "a"]) == "a"
  {
    var ts := ["", "a"];
    assert ts[..1] == [""];
    assert [""][..0] == [];
    assert WinrtAggregate.BuildText([""]) == "";
    assert Join(ts, Newline) == "" + Newline + "a";
  }
}
