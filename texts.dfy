/** Joining block texts into `Result.Text`. Both backends build the text
    with a `strings.Builder` and the separator "\n"; `Join` is the
    reference definition (separator between neighbours) that the two
    builder loops are compared against, and `Split` is its inverse. */
module Texts {

  const Newline: string := "\n"

  /** `ts` joined with `sep` between every two neighbours. */
  function Join(ts: seq<string>, sep: string): (r: string)
    ensures |ts| == 0 ==> r == ""
    ensures |ts| == 1 ==> r == ts[0]
  {
    if |ts| == 0 then ""
    else if |ts| == 1 then ts[0]
    else Join(ts[..|ts| - 1], sep) + sep + ts[|ts| - 1]
  }

  lemma JoinSnoc(ts: seq<string>, t: string, sep: string)
    requires |ts| > 0
    ensures Join(ts + [t], sep) == Join(ts, sep) + sep + t
  {
    assert (ts + [t])[..|ts|] == ts;
  }

  function SumLengths(ts: seq<string>): nat
  {
    if |ts| == 0 then 0 else SumLengths(ts[..|ts| - 1]) + |ts[|ts| - 1]|
  }

  /** The joined text holds every character of every part and one
      separator between each two neighbours, nothing more. */
  lemma {:induction false} JoinLength(ts: seq<string>, sep: string)
    requires |ts| > 0
    ensures |Join(ts, sep)| == SumLengths(ts) + (|ts| - 1) * |sep|
  {
    if |ts| > 1 {
      JoinLength(ts[..|ts| - 1], sep);
    } else {
      assert ts[..0] == [];
    }
  }

  /** `s` cut at every occurrence of `c`; always at least one part. */
  function Split(s: string, c: char): (parts: seq<string>)
    ensures |parts| >= 1
  {
    if |s| == 0 then [""]
    else
      var init := Split(s[..|s| - 1], c);
      if s[|s| - 1] == c then init + [""]
      else init[..|init| - 1] + [init[|init| - 1] + [s[|s| - 1]]]
  }

  lemma {:induction false} SplitNoSeparator(t: string, c: char)
    requires c !in t
    ensures Split(t, c) == [t]
  {
    if |t| > 0 {
      SplitNoSeparator(t[..|t| - 1], c);
      assert t[..|t| - 1] + [t[|t| - 1]] == t;
    }
  }

  lemma {:induction false} SplitAfterSeparator(x: string, c: char, t: string)
    requires c !in t
    ensures Split(x + [c] + t, c) == Split(x, c) + [t]
  {
    if |t| == 0 {
      assert x + [c] + t == x + [c];
      assert (x + [c])[..|x|] == x;
    } else {
      var u := t[..|t| - 1];
      SplitAfterSeparator(x, c, u);
      assert (x + [c] + t)[..|x + [c] + t| - 1] == x + [c] + u;
      assert u + [t[|t| - 1]] == t;
    }
  }

  /** Round trip: when no part contains the separator character, splitting
      the joined text gives the parts back. */
  lemma {:induction false} SplitJoin(ts: seq<string>, c: char)
    requires |ts| > 0
    requires forall k :: 0 <= k < |ts| ==> c !in ts[k]
    ensures Split(Join(ts, [c]), c) == ts
  {
    if |ts| == 1 {
      SplitNoSeparator(ts[0], c);
    } else {
      var init := ts[..|ts| - 1];
      SplitJoin(init, c);
      SplitAfterSeparator(Join(init, [c]), c, ts[|ts| - 1]);
      assert init + [ts[|ts| - 1]] == ts;
    }
  }

  /** `ts` without its leading empty strings. */
  function DropLeadingEmpty(ts: seq<string>): (r: seq<string>)
    ensures r == [] || r[0] != ""
    ensures |r| <= |ts| && r == ts[|ts| - |r|..]
    ensures forall k :: 0 <= k < |ts| - |r| ==> ts[k] == ""
  {
    if |ts| == 0 then []
    else if ts[0] == "" then DropLeadingEmpty(ts[1..])
    else ts
  }

  lemma {:induction false} DropLeadingEmptySnoc(ts: seq<string>, t: string)
    ensures DropLeadingEmpty(ts + [t]) ==
      if DropLeadingEmpty(ts) == [] then (if t == "" then [] else [t])
      else DropLeadingEmpty(ts) + [t]
  {
    if |ts| == 0 {
      assert ts + [t] == [t];
      if t == "" { assert [t][1..] == []; }
    } else if ts[0] == "" {
      assert (ts + [t])[1..] == ts[1..] + [t];
      DropLeadingEmptySnoc(ts[1..], t);
    }
  }

  lemma JoinNonEmpty(ts: seq<string>, sep: string)
    requires |ts| > 0 && ts[0] != ""
    ensures Join(ts, sep) != ""
  {
    JoinLength(ts, sep);
    assert SumLengths(ts) >= |ts[0]| by { SumLengthsFirst(ts); }
  }

  lemma {:induction false} SumLengthsFirst(ts: seq<string>)
    requires |ts| > 0
    ensures SumLengths(ts) >= |ts[0]|
  {
    if |ts| > 1 {
      SumLengthsFirst(ts[..|ts| - 1]);
    }
  }
}
