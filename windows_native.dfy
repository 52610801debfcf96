/** The C++ side of the cgo backend (internal/windows/ocr.cpp): engine
    selection, flattening the recognition tree into one block per word,
    the result handed to Go, and `sysocr_free_result`. The Windows Runtime
    calls are oracles gathered in `Services`: each either throws or returns
    a value. Strings are copied to the C heap as `CHeap.Heap` models it. */
module WindowsNative {
  import opened Types
  import opened Geometry
  import opened CHeap

  /** What the `catch` clauses distinguish: `hresult_error` with its
      message, `std::exception` with its `what()`, and anything else. */
  datatype Exception = HResultError(message: string) | StdException(what: string) | Unknown

  /** A Windows Runtime call: it throws or returns a value. */
  datatype Stage<+T> = Throws(exception: Exception) | Returns(value: T)

  type Engine = nat

  /** A positive pixel count; a decoded bitmap is never empty. */
  type Pixels = n: nat | n > 0 witness 1

  /** The decoded `SoftwareBitmap`; a failed decode is `None` (`!bitmap`). */
  datatype Bitmap = Bitmap(pixelWidth: Pixels, pixelHeight: Pixels)

  /** An `OcrWord`: its text and `BoundingRect()`. */
  datatype Word = Word(text: string, rect: Rect)

  /** The answers of the Windows Runtime calls one recognition makes:
      `init_apartment`, the bitmap decode, `Language` construction plus
      `TryCreateFromLanguage` for a tag, `TryCreateFromUserProfileLanguages`,
      `RecognizeAsync` on an engine (its lines, each a sequence of words),
      and whether `malloc` of the block array succeeds. */
  datatype Services = Services(
    initApartment: Stage<()>,
    bitmap: Stage<Option<Bitmap>>,
    fromLanguage: string -> Stage<Option<Engine>>,
    fromProfile: Stage<Option<Engine>>,
    recognize: Engine -> Stage<seq<seq<Word>>>,
    mallocSucceeds: bool)

  const BitmapFailed: string := "failed to create bitmap from image data"
  const NoEngine: string := "failed to create OCR engine, no supported language available"
  const AllocFailed: string := "failed to allocate memory for results"
  const UnknownDuringRecognition: string := "unknown error during OCR recognition"
  const InitFailed: string := "failed to initialize Windows Runtime"

  /** The message a `catch` clause stores; `unknown` is the `catch (...)` text. */
  function Caught(e: Exception, unknown: string): string
  {
    match e
    case HResultError(message) => message
    case StdException(what) => what
    case Unknown => unknown
  }

  // ---------------------------------------------------------------------
  // Engine selection

  /** The engine the code ends up with (or the exception it ends with). */
  function EngineChoice(languages: seq<string>, sv: Services): Stage<Option<Engine>>
  {
    var hinted := if |languages| > 0 then sv.fromLanguage(languages[0]) else Returns(None);
    if hinted.Throws? || hinted.value.Some? then hinted else sv.fromProfile
  }

  /** `engine{nullptr}`, then the first hint, then the profile languages. */
  method SelectEngine(languages: seq<string>, sv: Services) returns (engine: Stage<Option<Engine>>)
    ensures engine == EngineChoice(languages, sv)
  {
    engine := Returns(None);
    if |languages| > 0 {
      engine := sv.fromLanguage(languages[0]);
      if engine.Throws? {
        return;
      }
    }
    if engine.value.None? {
      engine := sv.fromProfile;
    }
  }

  /** The hinted engine is used when the first hint gives one (or throws);
      the profile languages are tried exactly when there is no hint or the
      first hint gives no engine. */
  lemma EngineFallback(languages: seq<string>, sv: Services)
    ensures |languages| > 0 && sv.fromLanguage(languages[0]) != Returns(None) ==>
              EngineChoice(languages, sv) == sv.fromLanguage(languages[0])
    ensures |languages| == 0 || sv.fromLanguage(languages[0]) == Returns(None) ==>
              EngineChoice(languages, sv) == sv.fromProfile
  {
  }

  /** Only the first language hint is ever tried. */
  lemma OnlyFirstHintTried(languages1: seq<string>, languages2: seq<string>, sv: Services)
    requires |languages1| > 0 && |languages2| > 0 && languages1[0] == languages2[0]
    ensures EngineChoice(languages1, sv) == EngineChoice(languages2, sv)
  {
  }

  // ---------------------------------------------------------------------
  // One block per word

  /** A word's box divided by the image size, each side independently. */
  function NormalizeRect(r: Rect, imageWidth: real, imageHeight: real): BoundingBox
    requires imageWidth > 0.0 && imageHeight > 0.0
  {
    BoundingBox(r.x / imageWidth, r.y / imageHeight, r.width / imageWidth, r.height / imageHeight)
  }

  function WordBlock(w: Word, imageWidth: real, imageHeight: real): TextBlock
    requires imageWidth > 0.0 && imageHeight > 0.0
  {
    TextBlock(w.text, NormalizeRect(w.rect, imageWidth, imageHeight))
  }

  function LineWords(ws: seq<Word>, imageWidth: real, imageHeight: real): seq<TextBlock>
    requires imageWidth > 0.0 && imageHeight > 0.0
  {
    if |ws| == 0 then []
    else LineWords(ws[..|ws| - 1], imageWidth, imageHeight) + [WordBlock(ws[|ws| - 1], imageWidth, imageHeight)]
  }

  /** The blocks the nested loops push, line after line. */
  function Flatten(lines: seq<seq<Word>>, imageWidth: real, imageHeight: real): seq<TextBlock>
    requires imageWidth > 0.0 && imageHeight > 0.0
  {
    if |lines| == 0 then []
    else Flatten(lines[..|lines| - 1], imageWidth, imageHeight) + LineWords(lines[|lines| - 1], imageWidth, imageHeight)
  }

  /** The number of words over all lines. */
  function WordCount(lines: seq<seq<Word>>): nat
  {
    if |lines| == 0 then 0 else WordCount(lines[..|lines| - 1]) + |lines[|lines| - 1]|
  }

  lemma {:induction false} LineWordsAt(ws: seq<Word>, imageWidth: real, imageHeight: real)
    requires imageWidth > 0.0 && imageHeight > 0.0
    ensures |LineWords(ws, imageWidth, imageHeight)| == |ws|
    ensures forall j :: 0 <= j < |ws| ==>
              LineWords(ws, imageWidth, imageHeight)[j] == WordBlock(ws[j], imageWidth, imageHeight)
  {
    if |ws| > 0 {
      var init := ws[..|ws| - 1];
      LineWordsAt(init, imageWidth, imageHeight);
      forall j | 0 <= j < |init| ensures init[j] == ws[j] {
      }
    }
  }

  lemma {:induction false} FlattenLength(lines: seq<seq<Word>>, imageWidth: real, imageHeight: real)
    requires imageWidth > 0.0 && imageHeight > 0.0
    ensures |Flatten(lines, imageWidth, imageHeight)| == WordCount(lines)
  {
    if |lines| > 0 {
      FlattenLength(lines[..|lines| - 1], imageWidth, imageHeight);
      LineWordsAt(lines[|lines| - 1], imageWidth, imageHeight);
    }
  }

  /** The index of the first block of line `i`. */
  function Offset(lines: seq<seq<Word>>, i: nat): nat
    requires i <= |lines|
  {
    WordCount(lines[..i])
  }

  lemma {:induction false} FlattenSlice(lines: seq<seq<Word>>, i: nat, imageWidth: real, imageHeight: real)
    requires imageWidth > 0.0 && imageHeight > 0.0
    requires i < |lines|
    ensures |Flatten(lines, imageWidth, imageHeight)| == WordCount(lines)
    ensures Offset(lines, i) + |lines[i]| <= WordCount(lines)
    ensures Flatten(lines, imageWidth, imageHeight)[Offset(lines, i)..Offset(lines, i) + |lines[i]|]
            == LineWords(lines[i], imageWidth, imageHeight)
  {
    var n := |lines| - 1;
    var init := lines[..n];
    FlattenLength(init, imageWidth, imageHeight);
    FlattenLength(lines, imageWidth, imageHeight);
    LineWordsAt(lines[n], imageWidth, imageHeight);
    if i < n {
      assert lines[i] == init[i];
      assert init[..i] == lines[..i];
      FlattenSlice(init, i, imageWidth, imageHeight);
    } else {
      assert lines[..i] == init;
    }
  }

  /** One block per word, in order: the block count is the total word
      count, and the words of line `i` give, in their order, the blocks
      from `Offset(lines, i)` on (word `j` is block `Offset(lines, i) + j`,
      by LineWordsAt). */
  lemma FlattenAt(lines: seq<seq<Word>>, imageWidth: real, imageHeight: real)
    requires imageWidth > 0.0 && imageHeight > 0.0
    ensures |Flatten(lines, imageWidth, imageHeight)| == WordCount(lines)
    ensures forall i :: 0 <= i < |lines| ==>
              Offset(lines, i) + |lines[i]| <= WordCount(lines)
              && Flatten(lines, imageWidth, imageHeight)[Offset(lines, i)..Offset(lines, i) + |lines[i]|]
                 == LineWords(lines[i], imageWidth, imageHeight)
  {
    FlattenLength(lines, imageWidth, imageHeight);
    forall i | 0 <= i < |lines|
      ensures Offset(lines, i) + |lines[i]| <= WordCount(lines)
              && Flatten(lines, imageWidth, imageHeight)[Offset(lines, i)..Offset(lines, i) + |lines[i]|]
                 == LineWords(lines[i], imageWidth, imageHeight)
    {
      FlattenSlice(lines, i, imageWidth, imageHeight);
    }
  }

  /** A word inside the image gives a block inside the unit square. */
  lemma WordInsideUnit(w: Word, imageWidth: real, imageHeight: real)
    requires imageWidth > 0.0 && imageHeight > 0.0
    requires InsideImage(w.rect, imageWidth, imageHeight)
    ensures InUnitSquare(WordBlock(w, imageWidth, imageHeight).box)
  {
    var r := w.rect;
    Ratio(r.x, r.x + r.width, imageWidth);
    Ratio(r.y, r.y + r.height, imageHeight);
    assert (r.x + r.width - r.x) == r.width;
    assert (r.y + r.height - r.y) == r.height;
  }

  // ---------------------------------------------------------------------
  // Blocks as laid out in C memory

  /** An `OCRTextBlock` holding `b`'s box and the text pointer `p`. */
  function CBlockOf(p: Ptr, b: TextBlock): CBlock
  {
    CBlock(p, b.box.x, b.box.y, b.box.width, b.box.height)
  }

  function TextPtrs(cbs: seq<CBlock>): (ps: seq<Ptr>)
    ensures |ps| == |cbs| && forall k :: 0 <= k < |cbs| ==> ps[k] == cbs[k].text
  {
    seq(|cbs|, k requires 0 <= k < |cbs| => cbs[k].text)
  }

  /** `cbs` holds the boxes of `bs`, and their texts were copied to fresh
      strings, so that `s1` is `s0` plus exactly those copies. */
  ghost predicate Laid(s0: map<Ptr, string>, s1: map<Ptr, string>, cbs: seq<CBlock>, bs: seq<TextBlock>)
  {
    && |cbs| == |bs|
    && (forall k :: 0 <= k < |cbs| ==> cbs[k] == CBlockOf(cbs[k].text, bs[k]))
    && Copies(s0, s1, TextPtrs(cbs), BlockTexts(bs))
  }

  lemma LaidPush(s0: map<Ptr, string>, s1: map<Ptr, string>, cbs: seq<CBlock>, bs: seq<TextBlock>, p: Ptr, b: TextBlock)
    requires Laid(s0, s1, cbs, bs) && p !in s1
    ensures Laid(s0, s1[p := UpToNul(b.text)], cbs + [CBlockOf(p, b)], bs + [b])
  {
    CopiesPush(s0, s1, TextPtrs(cbs), BlockTexts(bs), p, b.text);
    assert TextPtrs(cbs + [CBlockOf(p, b)]) == TextPtrs(cbs) + [p];
    assert BlockTexts(bs + [b]) == BlockTexts(bs) + [b.text];
  }

  /** The inner loop over one line's words: `_strdup` each text and push
      the block with the normalised box. */
  method FlattenLine(heap: Heap, words: seq<Word>, imageWidth: real, imageHeight: real,
                     blocks: seq<CBlock>, ghost s0: map<Ptr, string>, ghost done: seq<TextBlock>)
    returns (blocks': seq<CBlock>)
    requires heap.Valid() && imageWidth > 0.0 && imageHeight > 0.0
    requires Laid(s0, heap.strings, blocks, done)
    modifies heap
    ensures heap.Valid() && heap.arrays == old(heap.arrays) && heap.next >= old(heap.next)
    ensures Laid(s0, heap.strings, blocks', done + LineWords(words, imageWidth, imageHeight))
  {
    blocks' := blocks;
    var j := 0;
    while j < |words|
      invariant 0 <= j <= |words|
      invariant heap.Valid() && heap.arrays == old(heap.arrays) && heap.next >= old(heap.next)
      invariant Laid(s0, heap.strings, blocks', done + LineWords(words[..j], imageWidth, imageHeight))
    {
      var word := words[j];
      ghost var before := heap.strings;
      var text := heap.StrDup(word.text);
      var bbox := word.rect;
      var block := CBlock(text, bbox.x / imageWidth, bbox.y / imageHeight, bbox.width / imageWidth, bbox.height / imageHeight);
      WordStep(s0, before, blocks', done, words, j, text, imageWidth, imageHeight);
      blocks' := blocks' + [block];
      j := j + 1;
    }
    assert words[..j] == words;
  }

  /** One turn of the inner loop keeps the blocks laid out. */
  lemma WordStep(s0: map<Ptr, string>, s1: map<Ptr, string>, blocks: seq<CBlock>, done: seq<TextBlock>,
                 words: seq<Word>, j: nat, p: Ptr, imageWidth: real, imageHeight: real)
    requires j < |words| && imageWidth > 0.0 && imageHeight > 0.0
    requires Laid(s0, s1, blocks, done + LineWords(words[..j], imageWidth, imageHeight)) && p !in s1
    ensures var r := words[j].rect;
      Laid(s0, s1[p := UpToNul(words[j].text)],
           blocks + [CBlock(p, r.x / imageWidth, r.y / imageHeight, r.width / imageWidth, r.height / imageHeight)],
           done + LineWords(words[..j + 1], imageWidth, imageHeight))
  {
    var b := WordBlock(words[j], imageWidth, imageHeight);
    var r := words[j].rect;
    LaidPush(s0, s1, blocks, done + LineWords(words[..j], imageWidth, imageHeight), p, b);
    LineWordsSnoc(words, j, imageWidth, imageHeight);
    assert CBlock(p, r.x / imageWidth, r.y / imageHeight, r.width / imageWidth, r.height / imageHeight) == CBlockOf(p, b);
    assert done + LineWords(words[..j], imageWidth, imageHeight) + [b] == done + LineWords(words[..j + 1], imageWidth, imageHeight);
  }

  lemma LineWordsSnoc(words: seq<Word>, j: nat, imageWidth: real, imageHeight: real)
    requires j < |words| && imageWidth > 0.0 && imageHeight > 0.0
    ensures LineWords(words[..j + 1], imageWidth, imageHeight)
            == LineWords(words[..j], imageWidth, imageHeight) + [WordBlock(words[j], imageWidth, imageHeight)]
  {
    assert words[..j + 1][..j] == words[..j];
  }

  /** The nested loops over lines and words. */
  method FlattenWords(heap: Heap, lines: seq<seq<Word>>, imageWidth: real, imageHeight: real)
    returns (blocks: seq<CBlock>)
    requires heap.Valid() && imageWidth > 0.0 && imageHeight > 0.0
    modifies heap
    ensures heap.Valid() && heap.arrays == old(heap.arrays) && heap.next >= old(heap.next)
    ensures Laid(old(heap.strings), heap.strings, blocks, Flatten(lines, imageWidth, imageHeight))
  {
    blocks := [];
    assert AddressSet([]) == {};
    var i := 0;
    while i < |lines|
      invariant 0 <= i <= |lines|
      invariant heap.Valid() && heap.arrays == old(heap.arrays) && heap.next >= old(heap.next)
      invariant Laid(old(heap.strings), heap.strings, blocks, Flatten(lines[..i], imageWidth, imageHeight))
    {
      assert lines[..i + 1][..i] == lines[..i];
      blocks := FlattenLine(heap, lines[i], imageWidth, imageHeight, blocks, old(heap.strings),
                            Flatten(lines[..i], imageWidth, imageHeight));
      i := i + 1;
    }
    assert lines[..i] == lines;
  }

  // ---------------------------------------------------------------------
  // What a recognition delivers

  /** How far the `try` block of `RecognizeAsync` gets. */
  datatype Plan = Fails(message: string) | Recognized(lines: seq<seq<Word>>, bitmap: Bitmap)

  function RecognitionPlan(languages: seq<string>, sv: Services): Plan
  {
    match sv.bitmap
    case Throws(e) => Fails(Caught(e, UnknownDuringRecognition))
    case Returns(None) => Fails(BitmapFailed)
    case Returns(Some(bitmap)) =>
      match EngineChoice(languages, sv)
      case Throws(e) => Fails(Caught(e, UnknownDuringRecognition))
      case Returns(None) => Fails(NoEngine)
      case Returns(Some(engine)) =>
        match sv.recognize(engine)
        case Throws(e) => Fails(Caught(e, UnknownDuringRecognition))
        case Returns(lines) => Recognized(lines, bitmap)
  }

  /** The blocks of a recognised image, normalised by its pixel size. */
  function PlannedBlocks(lines: seq<seq<Word>>, bitmap: Bitmap): seq<TextBlock>
  {
    Flatten(lines, bitmap.pixelWidth as real, bitmap.pixelHeight as real)
  }

  /** What `RecognizeAsync` hands back: an error message, or the blocks. */
  function AsyncOutcome(languages: seq<string>, sv: Services): Result<seq<TextBlock>, string>
  {
    match RecognitionPlan(languages, sv)
    case Fails(m) => Err(m)
    case Recognized(lines, bitmap) =>
      var bs := PlannedBlocks(lines, bitmap);
      if bs != [] && !sv.mallocSucceeds then Err(AllocFailed) else Ok(bs)
  }

  /** What `sysocr_recognize` hands back. */
  function NativeOutcome(languages: seq<string>, sv: Services): Result<seq<TextBlock>, string>
  {
    match sv.initApartment
    case Throws(e) => Err(Caught(e, InitFailed))
    case Returns(_) => AsyncOutcome(languages, sv)
  }

  /** `r` and the heap (`s1`, `a1`) carry `outcome`, starting from the heap
      `s0`, `a0` whose blocks all lie below `base`: an error is a fresh
      error string with no blocks and a zero count; no blocks is the
      all-zero result; otherwise a fresh array of `count` blocks whose texts
      are fresh strings, and nothing else is new. */
  ghost predicate Delivers(s0: map<Ptr, string>, a0: map<Ptr, seq<CBlock>>, base: Ptr,
                           s1: map<Ptr, string>, a1: map<Ptr, seq<CBlock>>, r: CResult,
                           outcome: Result<seq<TextBlock>, string>)
  {
    match outcome
    case Err(m) =>
      && r.blocks == Null && r.count == 0 && r.error != Null && r.error >= base
      && s1 == s0[r.error := UpToNul(m)] && a1 == a0
    case Ok(bs) =>
      if bs == [] then r == CResult(Null, 0, Null) && s1 == s0 && a1 == a0
      else
        && r.error == Null && r.count == |bs| && r.blocks != Null && r.blocks >= base
        && r.blocks in a1 && r.blocks !in s1 && a1 == a0[r.blocks := a1[r.blocks]]
        && Laid(s0, s1, a1[r.blocks], bs)
  }

  /** A `catch` or an early `co_return` with an error: the message is
      duplicated into the error field, nothing else is set. */
  method Fail(heap: Heap, message: string) returns (result: CResult)
    requires heap.Valid()
    modifies heap
    ensures heap.Valid() && heap.next >= old(heap.next)
    ensures Delivers(old(heap.strings), old(heap.arrays), old(heap.next), heap.strings, heap.arrays,
                     result, Err(message))
  {
    var e := heap.StrDup(message);
    result := CResult(Null, 0, e);
  }

  /** The copy into the result once the words are laid out: nothing for
      no words, the `malloc`ed array, or on `malloc` failure the texts freed
      and the error set. */
  method Deliver(heap: Heap, blocks: seq<CBlock>, mallocSucceeds: bool,
                 ghost s0: map<Ptr, string>, ghost base: Ptr, ghost bs: seq<TextBlock>)
    returns (result: CResult)
    requires heap.Valid() && Laid(s0, heap.strings, blocks, bs)
    requires base <= heap.next && forall p :: p in s0 ==> p < base
    modifies heap
    ensures heap.Valid() && heap.next >= old(heap.next)
    ensures Delivers(s0, old(heap.arrays), base, heap.strings, heap.arrays, result,
                     if bs != [] && !mallocSucceeds then Err(AllocFailed) else Ok(bs))
  {
    result := CResult(Null, 0, Null);
    if |blocks| > 0 {
      var p := heap.AllocBlocks(blocks, mallocSucceeds);
      if p != Null {
        result := result.(blocks := p, count := |blocks|);
      } else {
        heap.FreeAll(TextPtrs(blocks), s0, BlockTexts(bs));
        result := Fail(heap, AllocFailed);
      }
    } else {
      CopiesNone(s0, heap.strings);
    }
  }

  /** `RecognizeAsync`: every failure inside the `try` block (a thrown
      exception, no bitmap, no engine, `malloc` failing) ends with only an
      error string; otherwise the flattened blocks are returned in a fresh
      array, or nothing at all when there are no words. */
  method RecognizeAsync(heap: Heap, languages: seq<string>, sv: Services) returns (result: CResult)
    requires heap.Valid()
    modifies heap
    ensures heap.Valid() && heap.next >= old(heap.next)
    ensures Delivers(old(heap.strings), old(heap.arrays), old(heap.next), heap.strings, heap.arrays,
                     result, AsyncOutcome(languages, sv))
  {
    if sv.bitmap.Throws? {
      result := Fail(heap, Caught(sv.bitmap.exception, UnknownDuringRecognition));
      return;
    }
    if sv.bitmap.value.None? {
      result := Fail(heap, BitmapFailed);
      return;
    }
    var bitmap := sv.bitmap.value.value;
    var engine := SelectEngine(languages, sv);
    if engine.Throws? {
      result := Fail(heap, Caught(engine.exception, UnknownDuringRecognition));
      return;
    }
    if engine.value.None? {
      result := Fail(heap, NoEngine);
      return;
    }
    var ocrResult := sv.recognize(engine.value.value);
    if ocrResult.Throws? {
      result := Fail(heap, Caught(ocrResult.exception, UnknownDuringRecognition));
      return;
    }
    var imageWidth := bitmap.pixelWidth as real;
    var imageHeight := bitmap.pixelHeight as real;
    var blocks := FlattenWords(heap, ocrResult.value, imageWidth, imageHeight);
    result := Deliver(heap, blocks, sv.mallocSucceeds, old(heap.strings), old(heap.next),
                      PlannedBlocks(ocrResult.value, bitmap));
  }

  /** `sysocr_recognize`: the apartment is initialised first; if that
      throws, the outer `catch` stores the error. */
  method SysocrRecognize(heap: Heap, languages: seq<string>, sv: Services) returns (result: CResult)
    requires heap.Valid()
    modifies heap
    ensures heap.Valid() && heap.next >= old(heap.next)
    ensures Delivers(old(heap.strings), old(heap.arrays), old(heap.next), heap.strings, heap.arrays,
                     result, NativeOutcome(languages, sv))
  {
    if sv.initApartment.Throws? {
      result := Fail(heap, Caught(sv.initApartment.exception, InitFailed));
      return;
    }
    result := RecognizeAsync(heap, languages, sv);
  }

  // ---------------------------------------------------------------------
  // Freeing a result

  /** What `sysocr_free_result` needs of its argument: the error is NULL or
      a live string; unless `blocks` is NULL, it is a live array with at
      least `count` blocks whose texts are NULL or distinct live strings
      other than the error. */
  ghost predicate Freeable(strings: map<Ptr, string>, arrays: map<Ptr, seq<CBlock>>, r: CResult)
  {
    && (r.error == Null || r.error in strings)
    && (r.blocks != Null ==>
          && r.blocks in arrays
          && r.count <= |arrays[r.blocks]|
          && (forall k :: 0 <= k < r.count ==>
                arrays[r.blocks][k].text == Null
                || (arrays[r.blocks][k].text in strings && arrays[r.blocks][k].text != r.error))
          && (forall k1, k2 :: 0 <= k1 < k2 < r.count ==>
                arrays[r.blocks][k1].text == Null || arrays[r.blocks][k1].text != arrays[r.blocks][k2].text))
  }

  /** The text pointers among the first `count` blocks. */
  ghost function FreedTexts(arrays: map<Ptr, seq<CBlock>>, r: CResult): set<Ptr>
  {
    if r.blocks == Null || r.blocks !in arrays then {}
    else set k | 0 <= k < r.count && k < |arrays[r.blocks]| :: arrays[r.blocks][k].text
  }

  /** `sysocr_free_result`: the `count` texts, then the array, then the
      error; NULL fields are skipped. */
  method FreeResult(heap: Heap, result: CResult)
    requires heap.Valid() && Freeable(heap.strings, heap.arrays, result)
    modifies heap
    ensures heap.Valid() && heap.next == old(heap.next)
    ensures heap.strings == old(heap.strings) - FreedTexts(old(heap.arrays), result) - {result.error}
    ensures heap.arrays == old(heap.arrays) - {result.blocks}
  {
    if result.blocks != Null {
      var arr := heap.arrays[result.blocks];
      var i := 0;
      while i < result.count
        invariant 0 <= i && (i <= result.count || i == 0)
        invariant heap.Valid() && heap.arrays == old(heap.arrays) && heap.next == old(heap.next)
        invariant heap.strings == old(heap.strings) - (set k | 0 <= k < i :: arr[k].text)
      {
        heap.Free(arr[i].text);
        i := i + 1;
      }
      assert (set k | 0 <= k < i :: arr[k].text) == FreedTexts(old(heap.arrays), result);
      heap.Free(result.blocks);
    }
    if result.error != Null {
      heap.Free(result.error);
    }
  }

  /** Ownership: what `sysocr_recognize` delivers is something
      `sysocr_free_result` accepts, and freeing it leaves the heap as it was
      before the call. */
  lemma DeliveredIsFreed(s0: map<Ptr, string>, a0: map<Ptr, seq<CBlock>>, base: Ptr,
                         s1: map<Ptr, string>, a1: map<Ptr, seq<CBlock>>, r: CResult,
                         outcome: Result<seq<TextBlock>, string>)
    requires forall p :: p in s0 ==> 0 < p < base
    requires forall p :: p in a0 ==> 0 < p < base
    requires s1.Keys !! a1.Keys
    requires Delivers(s0, a0, base, s1, a1, r, outcome)
    ensures Freeable(s1, a1, r)
    ensures s1 - FreedTexts(a1, r) - {r.error} == s0
    ensures a1 - {r.blocks} == a0
  {
    if outcome.Err? {
      assert r.error !in s0;
      assert (s1 - FreedTexts(a1, r) - {r.error}).Keys == s0.Keys;
    } else if outcome.value == [] {
      assert (s1 - FreedTexts(a1, r) - {r.error}).Keys == s0.Keys;
    } else {
      assert r.blocks !in a0;
      assert (a1 - {r.blocks}).Keys == a0.Keys;
      var cbs := a1[r.blocks];
      var ps := TextPtrs(cbs);
      assert FreedTexts(a1, r) == AddressSet(ps);
      CopiesRemoved(s0, s1, ps, BlockTexts(outcome.value));
      forall k | 0 <= k < r.count ensures cbs[k].text in s1 {
        assert ps[k] in AddressSet(ps);
      }
      assert (s1 - FreedTexts(a1, r) - {r.error}).Keys == s0.Keys;
    }
  }

  // ---------------------------------------------------------------------
  // Properties of the outcome

  /** Any exception, and every failure the code checks for, ends as an
      error message: the `hresult_error` message, the `what()` text, or the
      fixed text of the `catch (...)` that caught it. */
  lemma FailuresAreErrors(languages: seq<string>, sv: Services)
    ensures sv.initApartment.Throws? ==>
              NativeOutcome(languages, sv) == Err(Caught(sv.initApartment.exception, InitFailed))
    ensures sv.initApartment.Returns? && sv.bitmap.Throws? ==>
              NativeOutcome(languages, sv) == Err(Caught(sv.bitmap.exception, UnknownDuringRecognition))
    ensures sv.initApartment.Returns? && sv.bitmap == Returns(None) ==>
              NativeOutcome(languages, sv) == Err(BitmapFailed)
    ensures sv.initApartment.Returns? && sv.bitmap.Returns? && sv.bitmap.value.Some?
            && EngineChoice(languages, sv) == Returns(None) ==>
              NativeOutcome(languages, sv) == Err(NoEngine)
  {
  }

  /** With no words at all the result is empty and not an error, whether
      or not `malloc` would have succeeded. */
  lemma {:induction false} NoWordsNoBlocks(lines: seq<seq<Word>>, bitmap: Bitmap, languages: seq<string>, sv: Services)
    requires sv.initApartment.Returns?
    requires RecognitionPlan(languages, sv) == Recognized(lines, bitmap)
    requires forall i :: 0 <= i < |lines| ==> lines[i] == []
    ensures NativeOutcome(languages, sv) == Ok([])
  {
    assert WordCount(lines) == 0 by {
      WordCountZero(lines);
    }
    FlattenAt(lines, bitmap.pixelWidth as real, bitmap.pixelHeight as real);
  }

  lemma {:induction false} WordCountZero(lines: seq<seq<Word>>)
    requires forall i :: 0 <= i < |lines| ==> lines[i] == []
    ensures WordCount(lines) == 0
  {
    if |lines| > 0 {
      WordCountZero(lines[..|lines| - 1]);
    }
  }

  /** A recognised image with words gives exactly one block per word when
      `malloc` succeeds, and the allocation error otherwise. */
  lemma RecognizedBlocks(lines: seq<seq<Word>>, bitmap: Bitmap, languages: seq<string>, sv: Services)
    requires sv.initApartment.Returns?
    requires RecognitionPlan(languages, sv) == Recognized(lines, bitmap)
    requires WordCount(lines) > 0
    ensures sv.mallocSucceeds ==> NativeOutcome(languages, sv) == Ok(PlannedBlocks(lines, bitmap))
                                  && |PlannedBlocks(lines, bitmap)| == WordCount(lines)
    ensures !sv.mallocSucceeds ==> NativeOutcome(languages, sv) == Err(AllocFailed)
  {
    FlattenAt(lines, bitmap.pixelWidth as real, bitmap.pixelHeight as real);
  }
}
