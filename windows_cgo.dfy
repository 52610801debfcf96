/** The Go side of the cgo backend (internal/windows/ocr.go): reject empty
    data, copy the language hints to C strings, call `sysocr_recognize`,
    copy the C blocks into a Go slice, and free everything it or the C side
    allocated. */
module WindowsCgo {
  import opened Types
  import opened CHeap
  import opened WindowsNative

  const EmptyData: string := "empty image data"

  /** The language hints as the C side reads them. */
  function CStrings(ss: seq<string>): (cs: seq<string>)
    ensures |cs| == |ss| && forall k :: 0 <= k < |ss| ==> cs[k] == UpToNul(ss[k])
  {
    seq(|ss|, k requires 0 <= k < |ss| => UpToNul(ss[k]))
  }

  /** The Go blocks read back from C blocks: text through `C.GoString`,
      coordinates as they are. */
  function GoBlocks(bs: seq<TextBlock>): (gs: seq<TextBlock>)
    ensures |gs| == |bs|
    ensures forall k :: 0 <= k < |bs| ==> gs[k] == TextBlock(UpToNul(bs[k].text), bs[k].box)
  {
    seq(|bs|, k requires 0 <= k < |bs| => TextBlock(UpToNul(bs[k].text), bs[k].box))
  }

  /** What `Recognize` returns for the data, the hints and the native answers. */
  function Expected(data: seq<Byte>, languages: seq<string>, sv: Services): Result<seq<TextBlock>, string>
  {
    if |data| == 0 then Err(EmptyData)
    else match NativeOutcome(CStrings(languages), sv)
      case Err(m) => Err(UpToNul(m))
      case Ok(bs) => Ok(GoBlocks(bs))
  }

  /** Copying the hints: one `C.CString` per hint, at consecutive fresh addresses. */
  method CopyLanguages(heap: Heap, languages: seq<string>) returns (cLangs: seq<Ptr>)
    requires heap.Valid()
    modifies heap
    ensures heap.Valid() && heap.arrays == old(heap.arrays) && heap.next >= old(heap.next)
    ensures Copies(old(heap.strings), heap.strings, cLangs, languages)
  {
    cLangs := [];
    assert AddressSet([]) == {};
    var i := 0;
    while i < |languages|
      invariant 0 <= i <= |languages|
      invariant heap.Valid() && heap.arrays == old(heap.arrays) && heap.next >= old(heap.next)
      invariant Copies(old(heap.strings), heap.strings, cLangs, languages[..i])
    {
      ghost var before := heap.strings;
      var p := heap.StrDup(languages[i]);
      CopiesPush(old(heap.strings), before, cLangs, languages[..i], p, languages[i]);
      assert languages[..i] + [languages[i]] == languages[..i + 1];
      cLangs := cLangs + [p];
      i := i + 1;
    }
    assert languages[..i] == languages;
  }

  /** The copy loop over the C blocks into the preallocated Go slice. */
  method CopyBlocks(heap: Heap, cResult: CResult, ghost s0: map<Ptr, string>, ghost bs: seq<TextBlock>)
    returns (blocks: array<TextBlock>)
    requires heap.Valid() && cResult.count >= 0
    requires cResult.count > 0 ==> cResult.blocks != Null && cResult.blocks in heap.arrays
                                   && Laid(s0, heap.strings, heap.arrays[cResult.blocks], bs)
                                   && cResult.count == |bs|
    ensures fresh(blocks) && blocks.Length == cResult.count
    ensures cResult.count > 0 ==> blocks[..] == GoBlocks(bs)
  {
    blocks := new TextBlock[cResult.count](_ => TextBlock("", BoundingBox(0.0, 0.0, 0.0, 0.0)));
    if cResult.count > 0 && cResult.blocks != Null {
      var cBlocks := heap.arrays[cResult.blocks];
      ghost var ps := TextPtrs(cBlocks);
      for i := 0 to cResult.count
        invariant forall k :: 0 <= k < i ==> blocks[k] == GoBlocks(bs)[k]
      {
        var b := cBlocks[i];
        assert ps[i] in AddressSet(ps);
        assert heap.strings[b.text] == UpToNul(BlockTexts(bs)[i]);
        assert b == CBlockOf(b.text, bs[i]);
        blocks[i] := TextBlock(heap.GoString(b.text), BoundingBox(b.x, b.y, b.width, b.height));
      }
    }
  }

  /** The reads after the call: the error through `C.GoString`, or the blocks. */
  method ReadResult(heap: Heap, cResult: CResult, ghost s0: map<Ptr, string>, ghost a0: map<Ptr, seq<CBlock>>,
                    ghost base: Ptr, ghost outcome: Result<seq<TextBlock>, string>)
    returns (r: Result<seq<TextBlock>, string>)
    requires heap.Valid()
    requires Delivers(s0, a0, base, heap.strings, heap.arrays, cResult, outcome)
    ensures r == match outcome case Err(m) => Err(UpToNul(m)) case Ok(bs) => Ok(GoBlocks(bs))
  {
    if cResult.error != Null {
      assert outcome.Err?;
      var message := heap.GoString(cResult.error);
      r := Err(message);
    } else {
      assert outcome.Ok?;
      ghost var bs := outcome.value;
      var blocks := CopyBlocks(heap, cResult, s0, bs);
      if bs == [] {
        assert blocks[..] == [] == GoBlocks(bs);
      }
      r := Ok(blocks[..]);
    }
  }

  /** `Recognize`: empty data is rejected before any C call; otherwise the
      result is the native outcome read back into Go, and every C string
      and array allocated on the way (the hint copies, the block texts, the
      block array, the error) is freed on every path. */
  method Recognize(heap: Heap, data: seq<Byte>, languages: seq<string>, sv: Services)
    returns (r: Result<seq<TextBlock>, string>)
    requires heap.Valid()
    modifies heap
    ensures heap.Valid()
    ensures r == Expected(data, languages, sv)
    ensures heap.strings == old(heap.strings) && heap.arrays == old(heap.arrays)
    ensures |data| == 0 ==> heap.next == old(heap.next)
  {
    if |data| == 0 {
      return Err(EmptyData);
    }
    var cLangs := CopyLanguages(heap, languages);
    ghost var withLangs := heap.strings;
    ghost var arrays0 := heap.arrays;
    ghost var base := heap.next;
    forall k | 0 <= k < |cLangs| ensures cLangs[k] in heap.strings {
      assert cLangs[k] in AddressSet(cLangs);
    }
    var cLanguages := heap.ReadStrings(cLangs);
    assert cLanguages == CStrings(languages);

    var cResult := SysocrRecognize(heap, cLanguages, sv);
    ghost var outcome := NativeOutcome(cLanguages, sv);
    r := ReadResult(heap, cResult, withLangs, arrays0, base, outcome);

    DeliveredIsFreed(withLangs, arrays0, base, heap.strings, heap.arrays, cResult, outcome);
    FreeResult(heap, cResult);
    heap.FreeAll(cLangs, old(heap.strings), languages);
  }

  /** The Go result has one block per word of the recognised lines, in
      order, when `malloc` succeeds: `len(Blocks) == count`. */
  lemma GoBlockPerWord(data: seq<Byte>, languages: seq<string>, sv: Services, lines: seq<seq<Word>>, bitmap: Bitmap)
    requires |data| > 0 && sv.initApartment.Returns? && sv.mallocSucceeds
    requires RecognitionPlan(CStrings(languages), sv) == Recognized(lines, bitmap)
    ensures Expected(data, languages, sv).Ok?
    ensures |Expected(data, languages, sv).value| == WordCount(lines)
  {
    FlattenAt(lines, bitmap.pixelWidth as real, bitmap.pixelHeight as real);
  }

  /** A hint that contains no NUL reaches the C side unchanged, so a Go
      error message without NUL is the C message itself. */
  lemma {:induction false} NoNulUnchanged(s: string)
    requires '\0' !in s
    ensures UpToNul(s) == s
  {
    if |s| > 0 {
      assert s[0] in s;
      NoNulUnchanged(s[1..]);
      assert [s[0]] + s[1..] == s;
    }
  }
}
