/** The line-level result aggregation of the Windows backend
    (ocr_windows.go, the part of `recognizeWithWinRT` after the OCR result
    was obtained). The recognition tree is given as the collection views
    present it: `GetLines` may fail; each `lines.GetAt(i)` may fail
    (`None`); `GetWords` of a line may fail (`words == None`); each
    `words.GetAt(j)` may fail (`None`). Every `Release` the code makes is
    returned, in order, as a log of handles. */
module WinrtAggregate {
  import opened Types
  import opened Texts
  import opened WinrtBase
  import opened Geometry

  /** A line that `lines.GetAt` returned: its text and its words view. */
  datatype Line = Line(text: string, words: Option<seq<Option<Rect>>>)

  /** The union rectangle as the four variables `minX, minY, maxX, maxY`. */
  datatype Box = Box(minX: real, minY: real, maxX: real, maxY: real)

  /** A native handle the aggregation releases. */
  datatype Handle =
    | LinesView                      // the lines view from GetLines
    | LineHandle(line: nat)          // lines.GetAt(line)
    | WordsView(line: nat)           // line.GetWords()
    | WordHandle(line: nat, word: nat) // words.GetAt(word) of that line

  // ---------------------------------------------------------------------
  // The union box of a line

  /** The box of the first obtained word. */
  function Seed(r: Rect): Box
  {
    Box(r.x, r.y, r.x + r.width, r.y + r.height)
  }

  /** One step of the fold: element-wise min of the lower corner and max of
      the upper corner. */
  function Grow(b: Box, r: Rect): Box
  {
    Box(if r.x < b.minX then r.x else b.minX,
        if r.y < b.minY then r.y else b.minY,
        if r.x + r.width > b.maxX then r.x + r.width else b.maxX,
        if r.y + r.height > b.maxY then r.y + r.height else b.maxY)
  }

  /** The box after visiting `ws` in order; `None` while `first` is still true. */
  function Fold(ws: seq<Option<Rect>>): Option<Box>
  {
    if |ws| == 0 then None
    else
      var acc := Fold(ws[..|ws| - 1]);
      match ws[|ws| - 1]
      case None => acc
      case Some(r) => if acc.None? then Some(Seed(r)) else Some(Grow(acc.value, r))
  }

  /** The rectangles of the words whose `GetAt` succeeded, in order. */
  function Obtained(ws: seq<Option<Rect>>): (rs: seq<Rect>)
    ensures forall r :: r in rs <==> Some(r) in ws
  {
    if |ws| == 0 then []
    else
      var init := Obtained(ws[..|ws| - 1]);
      assert ws == ws[..|ws| - 1] + [ws[|ws| - 1]];
      match ws[|ws| - 1]
      case None => init
      case Some(r) => init + [r]
  }

  ghost predicate Contains(b: Box, r: Rect)
  {
    b.minX <= r.x && r.x + r.width <= b.maxX && b.minY <= r.y && r.y + r.height <= b.maxY
  }

  /** `b` is the smallest box holding every rectangle of `rs`: it contains
      each of them and each of its four sides is attained by one of them. */
  ghost predicate IsUnion(b: Box, rs: seq<Rect>)
  {
    && (forall r :: r in rs ==> Contains(b, r))
    && (exists r :: r in rs && r.x == b.minX)
    && (exists r :: r in rs && r.y == b.minY)
    && (exists r :: r in rs && r.x + r.width == b.maxX)
    && (exists r :: r in rs && r.y + r.height == b.maxY)
  }

  /** The fold yields a box exactly when a word rectangle was obtained, and
      that box is the union of the obtained rectangles. */
  lemma {:induction false} FoldIsUnion(ws: seq<Option<Rect>>)
    ensures Fold(ws).None? <==> Obtained(ws) == []
    ensures Fold(ws).Some? ==> IsUnion(Fold(ws).value, Obtained(ws))
  {
    if |ws| > 0 {
      var init := ws[..|ws| - 1];
      FoldIsUnion(init);
      var acc := Fold(init);
      var rs := Obtained(init);
      match ws[|ws| - 1]
      case None =>
      case Some(w) =>
        assert Obtained(ws) == rs + [w];
        if acc.Some? {
          var b := acc.value;
          var g := Grow(b, w);
          forall r | r in rs + [w] ensures Contains(g, r) {
            if r in rs { assert Contains(b, r); }
          }
          var r1 :| r1 in rs && r1.x == b.minX;
          var r2 :| r2 in rs && r2.y == b.minY;
          var r3 :| r3 in rs && r3.x + r3.width == b.maxX;
          var r4 :| r4 in rs && r4.y + r4.height == b.maxY;
          assert w.x == g.minX || r1.x == g.minX;
          assert w.y == g.minY || r2.y == g.minY;
          assert w.x + w.width == g.maxX || r3.x + r3.width == g.maxX;
          assert w.y + w.height == g.maxY || r4.y + r4.height == g.maxY;
        } else {
          assert rs + [w] == [w];
        }
    }
  }

  /** A union box depends only on which rectangles it covers. */
  lemma UnionUnique(b1: Box, rs1: seq<Rect>, b2: Box, rs2: seq<Rect>)
    requires IsUnion(b1, rs1) && IsUnion(b2, rs2)
    requires forall r :: r in rs1 <==> r in rs2
    ensures b1 == b2
  {
    var p1 :| p1 in rs1 && p1.x == b1.minX;
    var q1 :| q1 in rs2 && q1.x == b2.minX;
    assert Contains(b2, p1) && Contains(b1, q1);
    var p2 :| p2 in rs1 && p2.y == b1.minY;
    var q2 :| q2 in rs2 && q2.y == b2.minY;
    assert Contains(b2, p2) && Contains(b1, q2);
    var p3 :| p3 in rs1 && p3.x + p3.width == b1.maxX;
    var q3 :| q3 in rs2 && q3.x + q3.width == b2.maxX;
    assert Contains(b2, p3) && Contains(b1, q3);
    var p4 :| p4 in rs1 && p4.y + p4.height == b1.maxY;
    var q4 :| q4 in rs2 && q4.y + q4.height == b2.maxY;
    assert Contains(b2, p4) && Contains(b1, q4);
  }

  /** The union box does not depend on the order in which the words are
      visited, nor on where the failed `GetAt`s fall. */
  lemma FoldOrderIndependent(ws1: seq<Option<Rect>>, ws2: seq<Option<Rect>>)
    requires multiset(Obtained(ws1)) == multiset(Obtained(ws2))
    ensures Fold(ws1) == Fold(ws2)
  {
    FoldIsUnion(ws1);
    FoldIsUnion(ws2);
    var rs1, rs2 := Obtained(ws1), Obtained(ws2);
    assert forall r :: r in rs1 <==> r in rs2 by {
      forall r ensures r in rs1 <==> r in rs2 {
        assert r in rs1 <==> r in multiset(rs1);
        assert r in rs2 <==> r in multiset(rs2);
      }
    }
    assert rs1 == [] <==> rs2 == [] by {
      if rs1 != [] { assert rs1[0] in rs2; }
      if rs2 != [] { assert rs2[0] in rs1; }
    }
    if Fold(ws1).Some? {
      UnionUnique(Fold(ws1).value, rs1, Fold(ws2).value, rs2);
    }
  }

  // ---------------------------------------------------------------------
  // Blocks

  /** The box normalised by the image size (`float64(...) / imageWidth`). */
  function Normalize(b: Box, imageWidth: real, imageHeight: real): BoundingBox
    requires imageWidth > 0.0 && imageHeight > 0.0
  {
    BoundingBox(b.minX / imageWidth, b.minY / imageHeight,
                (b.maxX - b.minX) / imageWidth, (b.maxY - b.minY) / imageHeight)
  }

  /** The block a line contributes: none unless its words view was
      obtained and at least one word rectangle was. */
  function LineBlock(l: Option<Line>, imageWidth: real, imageHeight: real): seq<TextBlock>
    requires imageWidth > 0.0 && imageHeight > 0.0
  {
    if l.None? || l.value.words.None? then []
    else match Fold(l.value.words.value)
      case None => []
      case Some(b) => [TextBlock(l.value.text, Normalize(b, imageWidth, imageHeight))]
  }

  function Blocks(ls: seq<Option<Line>>, imageWidth: real, imageHeight: real): seq<TextBlock>
    requires imageWidth > 0.0 && imageHeight > 0.0
  {
    if |ls| == 0 then []
    else Blocks(ls[..|ls| - 1], imageWidth, imageHeight) + LineBlock(ls[|ls| - 1], imageWidth, imageHeight)
  }

  /** The `textBuilder` step: "\n" first only if text was already written. */
  function AppendLine(acc: string, t: string): string
  {
    if |acc| > 0 then acc + Newline + t else acc + t
  }

  function BuildText(ts: seq<string>): string
  {
    if |ts| == 0 then "" else AppendLine(BuildText(ts[..|ts| - 1]), ts[|ts| - 1])
  }

  /** The result the aggregation builds from the lines. */
  function Aggregated(ls: seq<Option<Line>>, imageWidth: real, imageHeight: real): OcrResult
    requires imageWidth > 0.0 && imageHeight > 0.0
  {
    var bs := Blocks(ls, imageWidth, imageHeight);
    OcrResult(bs, BuildText(BlockTexts(bs)))
  }

  // ---------------------------------------------------------------------
  // Releases

  function WordReleases(i: nat, ws: seq<Option<Rect>>): seq<Handle>
  {
    if |ws| == 0 then []
    else WordReleases(i, ws[..|ws| - 1]) + (if ws[|ws| - 1].Some? then [WordHandle(i, |ws| - 1)] else [])
  }

  /** The releases made while handling line `i`: each word after its
      rectangle is read, then the words view, then the line; only the line
      when GetWords failed; nothing when GetAt failed. */
  function LineReleases(i: nat, l: Option<Line>): seq<Handle>
  {
    if l.None? then []
    else if l.value.words.None? then [LineHandle(i)]
    else WordReleases(i, l.value.words.value) + [WordsView(i), LineHandle(i)]
  }

  function Releases(ls: seq<Option<Line>>): seq<Handle>
  {
    if |ls| == 0 then [] else Releases(ls[..|ls| - 1]) + LineReleases(|ls| - 1, ls[|ls| - 1])
  }

  lemma FoldStep(ws: seq<Option<Rect>>, j: nat, i: nat)
    requires j < |ws|
    ensures ws[j].None? ==> Fold(ws[..j + 1]) == Fold(ws[..j])
    ensures ws[j].Some? && Fold(ws[..j]).None? ==> Fold(ws[..j + 1]) == Some(Seed(ws[j].value))
    ensures ws[j].Some? && Fold(ws[..j]).Some? ==>
              Fold(ws[..j + 1]) == Some(Grow(Fold(ws[..j]).value, ws[j].value))
    ensures WordReleases(i, ws[..j + 1]) ==
      WordReleases(i, ws[..j]) + (if ws[j].Some? then [WordHandle(i, j)] else [])
  {
    assert ws[..j + 1][..j] == ws[..j];
  }

  lemma LineStep(ls: seq<Option<Line>>, i: nat, imageWidth: real, imageHeight: real)
    requires i < |ls|
    requires imageWidth > 0.0 && imageHeight > 0.0
    ensures Blocks(ls[..i + 1], imageWidth, imageHeight) ==
      Blocks(ls[..i], imageWidth, imageHeight) + LineBlock(ls[i], imageWidth, imageHeight)
    ensures Releases(ls[..i + 1]) == Releases(ls[..i]) + LineReleases(i, ls[i])
  {
    assert ls[..i + 1][..i] == ls[..i];
  }

  lemma LineBlockOf(l: Option<Line>, imageWidth: real, imageHeight: real, box: Option<Box>)
    requires imageWidth > 0.0 && imageHeight > 0.0
    requires l.Some? && l.value.words.Some? && Fold(l.value.words.value) == box
    ensures LineBlock(l, imageWidth, imageHeight) ==
      if box.None? then [] else [TextBlock(l.value.text, Normalize(box.value, imageWidth, imageHeight))]
  {
  }

  // ---------------------------------------------------------------------
  // The aggregation loop (ocr_windows.go:182-277)

  /** The inner loop over one line's words view (line `i`): the union box
      in `minX, minY, maxX, maxY` unless `first` is still true, and the
      release of each word obtained. */
  method LineUnion(i: nat, ws: seq<Option<Rect>>)
    returns (first: bool, minX: real, minY: real, maxX: real, maxY: real, released: seq<Handle>)
    ensures first <==> Obtained(ws) == []
    ensures first <==> Fold(ws).None?
    ensures !first ==> IsUnion(Box(minX, minY, maxX, maxY), Obtained(ws))
    ensures !first ==> Fold(ws) == Some(Box(minX, minY, maxX, maxY))
    ensures released == WordReleases(i, ws)
  {
    minX, minY, maxX, maxY := 0.0, 0.0, 0.0, 0.0;
    first := true;
    released := [];
    var j := 0;
    while j < |ws|
      invariant 0 <= j <= |ws|
      invariant first <==> Fold(ws[..j]).None?
      invariant !first ==> Fold(ws[..j]) == Some(Box(minX, minY, maxX, maxY))
      invariant released == WordReleases(i, ws[..j])
    {
      FoldStep(ws, j, i);
      var wordInsp := ws[j];
      if wordInsp.Some? {
        var rect := wordInsp.value;
        if first {
          minX := rect.x;
          minY := rect.y;
          maxX := rect.x + rect.width;
          maxY := rect.y + rect.height;
          first := false;
        } else {
          ghost var before := Box(minX, minY, maxX, maxY);
          if rect.x < minX {
            minX := rect.x;
          }
          if rect.y < minY {
            minY := rect.y;
          }
          if rect.x + rect.width > maxX {
            maxX := rect.x + rect.width;
          }
          if rect.y + rect.height > maxY {
            maxY := rect.y + rect.height;
          }
          assert Box(minX, minY, maxX, maxY) == Grow(before, rect);
        }
        released := released + [WordHandle(i, j)];
      }
      j := j + 1;
    }
    assert ws[..j] == ws;
    FoldIsUnion(ws);
  }

  /** One iteration of the loop over the lines: line `i` as `lines.GetAt(i)`
      returned it. A kept line appends its block and its text; every handle
      obtained for the line is released. */
  method AddLine(i: nat, lineInsp: Option<Line>, imageWidth: real, imageHeight: real,
                 blocks: seq<TextBlock>, text: string, released: seq<Handle>)
    returns (blocks': seq<TextBlock>, text': string, released': seq<Handle>)
    requires imageWidth > 0.0 && imageHeight > 0.0
    ensures blocks' == blocks + LineBlock(lineInsp, imageWidth, imageHeight)
    ensures text' == if blocks' == blocks then text else AppendLine(text, lineInsp.value.text)
    ensures released' == released + LineReleases(i, lineInsp)
  {
    blocks', text', released' := blocks, text, released;
    if lineInsp.None? {
      return;
    }
    var line := lineInsp.value;
    var lineText := line.text;
    if line.words.None? {
      released' := released' + [LineHandle(i)];
      return;
    }
    var ws := line.words.value;
    var first, minX, minY, maxX, maxY, wordReleases := LineUnion(i, ws);
    released' := released' + wordReleases;
    released' := released' + [WordsView(i)];
    if !first {
      var block := TextBlock(lineText, Normalize(Box(minX, minY, maxX, maxY), imageWidth, imageHeight));
      blocks' := blocks' + [block];
      if |text'| > 0 {
        text' := text' + Newline;
      }
      text' := text' + lineText;
      LineBlockOf(lineInsp, imageWidth, imageHeight, Some(Box(minX, minY, maxX, maxY)));
    } else {
      LineBlockOf(lineInsp, imageWidth, imageHeight, None);
    }
    released' := released' + [LineHandle(i)];
    assert released' == released + (wordReleases + [WordsView(i), LineHandle(i)]);
  }

  /** `lines` is what GetLines returned. */
  method Aggregate(lines: Result<seq<Option<Line>>, Errno>, imageWidth: real, imageHeight: real)
    returns (r: Result<OcrResult, Errno>, released: seq<Handle>)
    requires imageWidth > 0.0 && imageHeight > 0.0
    ensures lines.Err? ==> r == Err(lines.error) && released == []
    ensures lines.Ok? ==> r == Ok(Aggregated(lines.value, imageWidth, imageHeight))
    ensures lines.Ok? ==> released == Releases(lines.value) + [LinesView]
  {
    if lines.Err? {
      return Err(lines.error), [];
    }
    var ls := lines.value;
    var blocks: seq<TextBlock> := [];
    var text := "";
    released := [];
    var i := 0;
    while i < |ls|
      invariant 0 <= i <= |ls|
      invariant blocks == Blocks(ls[..i], imageWidth, imageHeight)
      invariant text == BuildText(BlockTexts(blocks))
      invariant released == Releases(ls[..i])
    {
      LineStep(ls, i, imageWidth, imageHeight);
      ghost var blocksBefore := blocks;
      blocks, text, released := AddLine(i, ls[i], imageWidth, imageHeight, blocks, text, released);
      if blocks != blocksBefore {
        assert BlockTexts(blocks) == BlockTexts(blocksBefore) + [ls[i].value.text];
      }
      i := i + 1;
    }
    assert ls[..i] == ls;
    released := released + [LinesView];
    r := Ok(OcrResult(blocks, text));
  }

  // ---------------------------------------------------------------------
  // Which lines give blocks, and in what order

  /** A line gives a block exactly when it was obtained, its words view was
      obtained, and the union box exists, that is (LineKeptIff) when at
      least one word rectangle was obtained. */
  predicate Kept(l: Option<Line>)
  {
    l.Some? && l.value.words.Some? && Fold(l.value.words.value).Some?
  }

  lemma LineKeptIff(l: Option<Line>)
    ensures Kept(l) <==> l.Some? && l.value.words.Some? && Obtained(l.value.words.value) != []
  {
    if l.Some? && l.value.words.Some? {
      FoldIsUnion(l.value.words.value);
    }
  }

  /** The block a kept line gives. */
  function KeptBlock(l: Option<Line>, imageWidth: real, imageHeight: real): TextBlock
    requires Kept(l) && imageWidth > 0.0 && imageHeight > 0.0
  {
    TextBlock(l.value.text, Normalize(Fold(l.value.words.value).value, imageWidth, imageHeight))
  }

  /** The indices of the kept lines, in line order. */
  function KeptIndices(ls: seq<Option<Line>>): seq<nat>
  {
    if |ls| == 0 then []
    else KeptIndices(ls[..|ls| - 1]) + (if Kept(ls[|ls| - 1]) then [|ls| - 1] else [])
  }

  lemma LineBlockKept(l: Option<Line>, imageWidth: real, imageHeight: real)
    requires imageWidth > 0.0 && imageHeight > 0.0
    ensures Kept(l) ==> LineBlock(l, imageWidth, imageHeight) == [KeptBlock(l, imageWidth, imageHeight)]
    ensures !Kept(l) ==> LineBlock(l, imageWidth, imageHeight) == []
  {
  }

  /** The kept indices are increasing, each names a kept line, and every
      kept line is named. */
  lemma {:induction false} KeptIndicesOrdered(ls: seq<Option<Line>>)
    ensures forall k :: 0 <= k < |KeptIndices(ls)| ==> KeptIndices(ls)[k] < |ls| && Kept(ls[KeptIndices(ls)[k]])
    ensures forall k1, k2 :: 0 <= k1 < k2 < |KeptIndices(ls)| ==> KeptIndices(ls)[k1] < KeptIndices(ls)[k2]
    ensures forall i :: 0 <= i < |ls| && Kept(ls[i]) ==> i in KeptIndices(ls)
  {
    if |ls| > 0 {
      var init := ls[..|ls| - 1];
      KeptIndicesOrdered(init);
      var ks := KeptIndices(ls);
      assert KeptIndices(init) == ks[..|KeptIndices(init)|];
      forall k | 0 <= k < |ks| ensures ks[k] < |ls| && Kept(ls[ks[k]]) {
        if k < |KeptIndices(init)| {
          assert ks[k] == KeptIndices(init)[k];
          assert ls[ks[k]] == init[ks[k]];
        }
      }
      forall i | 0 <= i < |ls| && Kept(ls[i]) ensures i in ks {
        if i < |ls| - 1 {
          assert ls[i] == init[i];
        }
      }
    }
  }

  /** Blocks come out one per kept line, in line order (KeptIndicesOrdered),
      each the normalised union box of its line's words with its line's text;
      no other line gives a block. */
  lemma {:induction false} BlocksAreKeptLines(ls: seq<Option<Line>>, imageWidth: real, imageHeight: real)
    requires imageWidth > 0.0 && imageHeight > 0.0
    ensures |Blocks(ls, imageWidth, imageHeight)| == |KeptIndices(ls)|
    ensures forall k :: 0 <= k < |KeptIndices(ls)| ==>
              KeptIndices(ls)[k] < |ls| && Kept(ls[KeptIndices(ls)[k]])
              && Blocks(ls, imageWidth, imageHeight)[k] == KeptBlock(ls[KeptIndices(ls)[k]], imageWidth, imageHeight)
  {
    KeptIndicesOrdered(ls);
    if |ls| > 0 {
      var init := ls[..|ls| - 1];
      BlocksAreKeptLines(init, imageWidth, imageHeight);
      LineBlockKept(ls[|ls| - 1], imageWidth, imageHeight);
      var ks, bs := KeptIndices(ls), Blocks(ls, imageWidth, imageHeight);
      var n := |KeptIndices(init)|;
      assert bs[..n] == Blocks(init, imageWidth, imageHeight);
      assert ks[..n] == KeptIndices(init);
      forall k | 0 <= k < |ks|
        ensures bs[k] == KeptBlock(ls[ks[k]], imageWidth, imageHeight)
      {
        if k < n {
          assert bs[k] == Blocks(init, imageWidth, imageHeight)[k];
          assert ks[k] == KeptIndices(init)[k];
          assert ls[ks[k]] == init[ks[k]];
        }
      }
    }
  }

  // ---------------------------------------------------------------------
  // Every handle released exactly once

  /** `h` was obtained while handling line `i`. */
  ghost predicate AcquiredInLine(i: nat, l: Option<Line>, h: Handle)
  {
    match h
    case LinesView => false
    case LineHandle(k) => k == i && l.Some?
    case WordsView(k) => k == i && l.Some? && l.value.words.Some?
    case WordHandle(k, j) =>
      k == i && l.Some? && l.value.words.Some? && j < |l.value.words.value| && l.value.words.value[j].Some?
  }

  /** `h` was obtained at some point of the aggregation (GetLines having succeeded). */
  ghost predicate Acquired(ls: seq<Option<Line>>, h: Handle)
  {
    h.LinesView? || (h.line < |ls| && AcquiredInLine(h.line, ls[h.line], h))
  }

  lemma {:induction false} WordReleasesCount(i: nat, ws: seq<Option<Rect>>, h: Handle)
    ensures multiset(WordReleases(i, ws))[h] ==
      if h.WordHandle? && h.line == i && h.word < |ws| && ws[h.word].Some? then 1 else 0
  {
    if |ws| > 0 {
      var init := ws[..|ws| - 1];
      WordReleasesCount(i, init, h);
      if h.WordHandle? && h.word < |init| {
        assert ws[h.word] == init[h.word];
      }
    }
  }

  lemma LineReleasesCount(i: nat, l: Option<Line>, h: Handle)
    ensures multiset(LineReleases(i, l))[h] == if AcquiredInLine(i, l, h) then 1 else 0
  {
    if l.Some? && l.value.words.Some? {
      WordReleasesCount(i, l.value.words.value, h);
    }
  }

  lemma {:induction false} ReleasesCount(ls: seq<Option<Line>>, h: Handle)
    ensures multiset(Releases(ls))[h] ==
      if !h.LinesView? && h.line < |ls| && AcquiredInLine(h.line, ls[h.line], h) then 1 else 0
  {
    if |ls| > 0 {
      var init, last := ls[..|ls| - 1], ls[|ls| - 1];
      ReleasesCount(init, h);
      LineReleasesCount(|ls| - 1, last, h);
      assert Releases(ls) == Releases(init) + LineReleases(|ls| - 1, last);
      assert multiset(Releases(ls))[h] == multiset(Releases(init))[h] + multiset(LineReleases(|ls| - 1, last))[h];
      if !h.LinesView? && h.line < |init| {
        assert ls[h.line] == init[h.line];
      }
    }
  }

  /** Each line handle, words view and word handle obtained, and the lines
      view, is released exactly once; nothing else is released. */
  lemma ReleasedExactlyOnce(ls: seq<Option<Line>>, h: Handle)
    ensures multiset(Releases(ls) + [LinesView])[h] == if Acquired(ls, h) then 1 else 0
  {
    ReleasesCount(ls, h);
  }

  // ---------------------------------------------------------------------
  // The text

  /** The builder rule joins the texts with "\n" but writes no separator
      while the text so far is empty: the leading empty texts vanish. */
  lemma BuildTextSnoc(init: seq<string>, t: string)
    requires BuildText(init) == Join(DropLeadingEmpty(init), Newline)
    ensures BuildText(init + [t]) == Join(DropLeadingEmpty(init + [t]), Newline)
  {
    assert (init + [t])[..|init|] == init;
    DropLeadingEmptySnoc(init, t);
    var d := DropLeadingEmpty(init);
    if d != [] {
      JoinNonEmpty(d, Newline);
      JoinSnoc(d, t, Newline);
    }
  }

  lemma {:induction false} BuildTextIsJoin(ts: seq<string>)
    ensures BuildText(ts) == Join(DropLeadingEmpty(ts), Newline)
  {
    if |ts| > 0 {
      var init, last := ts[..|ts| - 1], ts[|ts| - 1];
      assert ts == init + [last];
      BuildTextIsJoin(init);
      BuildTextSnoc(init, last);
    }
  }

  /** When the first kept line has text, Result.Text is exactly the texts
      joined with "\n", as the Darwin backend builds it. */
  lemma BuildTextFirstNonEmpty(ts: seq<string>)
    requires |ts| > 0 && ts[0] != ""
    ensures BuildText(ts) == Join(ts, Newline)
  {
    BuildTextIsJoin(ts);
  }

  /** No lines: no blocks and the empty text, not an error. */
  lemma NoLines(imageWidth: real, imageHeight: real)
    requires imageWidth > 0.0 && imageHeight > 0.0
    ensures Aggregated([], imageWidth, imageHeight) == OcrResult([], "")
  {
  }

  // ---------------------------------------------------------------------
  // Normalisation bounds

  /** A union of rectangles inside the image normalises into the unit square. */
  lemma NormalizeInsideUnit(b: Box, rs: seq<Rect>, imageWidth: real, imageHeight: real)
    requires imageWidth > 0.0 && imageHeight > 0.0
    requires IsUnion(b, rs)
    requires forall r :: r in rs ==> InsideImage(r, imageWidth, imageHeight)
    ensures InUnitSquare(Normalize(b, imageWidth, imageHeight))
  {
    var p1 :| p1 in rs && p1.x == b.minX;
    var p2 :| p2 in rs && p2.y == b.minY;
    var p3 :| p3 in rs && p3.x + p3.width == b.maxX;
    var p4 :| p4 in rs && p4.y + p4.height == b.maxY;
    assert InsideImage(p1, imageWidth, imageHeight) && Contains(b, p1);
    assert InsideImage(p2, imageWidth, imageHeight) && Contains(b, p2);
    assert InsideImage(p3, imageWidth, imageHeight);
    assert InsideImage(p4, imageWidth, imageHeight);
    Ratio(b.minX, b.maxX, imageWidth);
    Ratio(b.minY, b.maxY, imageHeight);
  }

  /** Every obtained word of every obtained line lies inside the image. */
  ghost predicate WordsInsideImage(ls: seq<Option<Line>>, imageWidth: real, imageHeight: real)
  {
    forall i, r :: 0 <= i < |ls| && ls[i].Some? && ls[i].value.words.Some? && Some(r) in ls[i].value.words.value
      ==> InsideImage(r, imageWidth, imageHeight)
  }

  /** Word boxes inside the image give block boxes inside [0,1]. */
  lemma {:induction false} BlocksInsideUnit(ls: seq<Option<Line>>, imageWidth: real, imageHeight: real)
    requires imageWidth > 0.0 && imageHeight > 0.0
    requires WordsInsideImage(ls, imageWidth, imageHeight)
    ensures forall k :: 0 <= k < |Blocks(ls, imageWidth, imageHeight)| ==>
              InUnitSquare(Blocks(ls, imageWidth, imageHeight)[k].box)
  {
    if |ls| > 0 {
      var init := ls[..|ls| - 1];
      var l := ls[|ls| - 1];
      assert WordsInsideImage(init, imageWidth, imageHeight) by {
        forall i, r | 0 <= i < |init| && init[i].Some? && init[i].value.words.Some? && Some(r) in init[i].value.words.value
          ensures InsideImage(r, imageWidth, imageHeight)
        {
          assert init[i] == ls[i];
        }
      }
      BlocksInsideUnit(init, imageWidth, imageHeight);
      LineBlockKept(l, imageWidth, imageHeight);
      assert Blocks(ls, imageWidth, imageHeight) == Blocks(init, imageWidth, imageHeight) + LineBlock(l, imageWidth, imageHeight);
      if Kept(l) {
        var ws := l.value.words.value;
        FoldIsUnion(ws);
        forall r | r in Obtained(ws) ensures InsideImage(r, imageWidth, imageHeight) {
          assert Some(r) in ls[|ls| - 1].value.words.value;
        }
        NormalizeInsideUnit(Fold(ws).value, Obtained(ws), imageWidth, imageHeight);
      }
    }
  }

  /** A 100x100 image with one line of two words at x = 0 and x = 20, each
      10x10: the line's block is (0, 0, 0.3, 0.1). */
  lemma TwoWordExample()
    ensures Aggregated([Some(Line("ab", Some([Some(Rect(0.0, 0.0, 10.0, 10.0)), Some(Rect(20.0, 0.0, 10.0, 10.0))])))],
                       100.0, 100.0)
            == OcrResult([TextBlock("ab", BoundingBox(0.0, 0.0, 0.3, 0.1))], "ab")
  {
    var ws := [Some(Rect(0.0, 0.0, 10.0, 10.0)), Some(Rect(20.0, 0.0, 10.0, 10.0))];
    assert ws[..1] == [Some(Rect(0.0, 0.0, 10.0, 10.0))];
    assert ws[..1][..0] == [];
    assert Fold(ws) == Some(Box(0.0, 0.0, 30.0, 10.0));
  }
}
