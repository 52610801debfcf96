/** The C heap that the cgo backend and its C++ side share: NUL-terminated
    strings from `_strdup` and `C.CString`, and the `malloc`ed block array
    of an `OCRResult` (internal/windows/ocr.h). A pointer is a number, 0 is
    NULL, and allocation hands out consecutive fresh addresses. */
module CHeap {
  import opened Types

  /** A C pointer; `Null` is NULL. */
  type Ptr = nat

  const Null: Ptr := 0

  /** `OCRTextBlock`: the text pointer and the normalised box. */
  datatype CBlock = CBlock(text: Ptr, x: real, y: real, width: real, height: real)

  /** `OCRResult`: the block array, its length and the error string. */
  datatype CResult = CResult(blocks: Ptr, count: int, error: Ptr)

  /** What a C string holds of `s`: the characters before the first NUL. */
  function UpToNul(s: string): (r: string)
    ensures '\0' !in r
    ensures |r| <= |s| && r == s[..|r|]
    ensures |r| < |s| ==> s[|r|] == '\0'
  {
    if |s| == 0 || s[0] == '\0' then "" else [s[0]] + UpToNul(s[1..])
  }

  /** The addresses listed in `ps`. */
  function AddressSet(ps: seq<Ptr>): (r: set<Ptr>)
    ensures forall k :: 0 <= k < |ps| ==> ps[k] in r
  {
    set k | 0 <= k < |ps| :: ps[k]
  }

  lemma AddressSetSnoc(ps: seq<Ptr>, p: Ptr)
    ensures AddressSet(ps + [p]) == AddressSet(ps) + {p}
  {
    var qs := ps + [p];
    forall q | q in AddressSet(qs) ensures q in AddressSet(ps) + {p} {
      var k :| 0 <= k < |qs| && qs[k] == q;
      if k < |ps| {
        assert qs[k] == ps[k];
      }
    }
    forall k | 0 <= k < |ps| ensures ps[k] in AddressSet(qs) {
      assert qs[k] == ps[k];
    }
    assert qs[|ps|] == p;
  }

  lemma AddressSetTail(ps: seq<Ptr>)
    requires |ps| > 0
    ensures AddressSet(ps) == {ps[0]} + AddressSet(ps[1..])
  {
    forall q | q in AddressSet(ps) ensures q in {ps[0]} + AddressSet(ps[1..]) {
      var k :| 0 <= k < |ps| && ps[k] == q;
      if k > 0 {
        assert ps[1..][k - 1] == q;
      }
    }
    forall k | 0 <= k < |ps| - 1 ensures ps[1..][k] in AddressSet(ps) {
      assert ps[1..][k] == ps[k + 1];
    }
  }

  /** `s1` is `s0` plus, at the distinct new addresses `ps`, the C copies of
      the strings `ts`. */
  ghost predicate Copies(s0: map<Ptr, string>, s1: map<Ptr, string>, ps: seq<Ptr>, ts: seq<string>)
  {
    && |ps| == |ts|
    && (forall k1, k2 :: 0 <= k1 < k2 < |ps| ==> ps[k1] != ps[k2])
    && (forall k :: 0 <= k < |ps| ==> ps[k] !in s0)
    && s1.Keys == s0.Keys + AddressSet(ps)
    && (forall p :: p in s0 ==> s1[p] == s0[p])
    && (forall k :: 0 <= k < |ps| ==> s1[ps[k]] == UpToNul(ts[k]))
  }

  /** Copying one more string to a new address. */
  lemma CopiesPush(s0: map<Ptr, string>, s1: map<Ptr, string>, ps: seq<Ptr>, ts: seq<string>, p: Ptr, t: string)
    requires Copies(s0, s1, ps, ts)
    requires p !in s1
    ensures Copies(s0, s1[p := UpToNul(t)], ps + [p], ts + [t])
  {
    AddressSetSnoc(ps, p);
    var s2, qs, us := s1[p := UpToNul(t)], ps + [p], ts + [t];
    forall k | 0 <= k < |ps| ensures qs[k] == ps[k] && us[k] == ts[k] && ps[k] in AddressSet(ps) {
    }
  }

  /** Freeing the first of the copies. */
  lemma CopiesDrop(s0: map<Ptr, string>, s1: map<Ptr, string>, ps: seq<Ptr>, ts: seq<string>)
    requires Copies(s0, s1, ps, ts) && |ps| > 0
    ensures Copies(s0, s1 - {ps[0]}, ps[1..], ts[1..])
  {
    AddressSetTail(ps);
    var qs := ps[1..];
    forall k | 0 <= k < |qs| ensures qs[k] == ps[k + 1] && qs[k] != ps[0] {
    }
  }

  /** With no copies left the map is the one before. */
  lemma CopiesNone(s0: map<Ptr, string>, s1: map<Ptr, string>)
    requires Copies(s0, s1, [], [])
    ensures s1 == s0
  {
    assert s1.Keys == s0.Keys;
  }

  /** Removing all the copies at once also gives the map before. */
  lemma CopiesRemoved(s0: map<Ptr, string>, s1: map<Ptr, string>, ps: seq<Ptr>, ts: seq<string>)
    requires Copies(s0, s1, ps, ts)
    ensures s1 - AddressSet(ps) == s0
  {
    var s2 := s1 - AddressSet(ps);
    assert s2.Keys == s0.Keys;
  }

  class Heap {
    /** The live strings, by address. */
    var strings: map<Ptr, string>
    /** The live block arrays, by address. */
    var arrays: map<Ptr, seq<CBlock>>
    /** The next address the allocator hands out. */
    var next: Ptr

    /** Every live block lies below `next`, NULL is never live, and no
        block is both a string and an array. */
    ghost predicate Valid()
      reads this
    {
      && 0 < next
      && (forall p :: p in strings ==> 0 < p < next)
      && (forall p :: p in arrays ==> 0 < p < next)
      && strings.Keys !! arrays.Keys
    }

    ghost function Live(): set<Ptr>
      reads this
    {
      strings.Keys + arrays.Keys
    }

    constructor ()
      ensures Valid()
      ensures strings == map[] && arrays == map[]
    {
      strings := map[];
      arrays := map[];
      next := 1;
    }

    /** `_strdup` and `C.CString`: a fresh block holding the C copy of `s`. */
    method StrDup(s: string) returns (p: Ptr)
      requires Valid()
      modifies this
      ensures Valid()
      ensures p == old(next) && p != Null && p !in old(Live())
      ensures strings == old(strings)[p := UpToNul(s)] && arrays == old(arrays)
      ensures next == old(next) + 1
    {
      p := next;
      strings := strings[p := UpToNul(s)];
      next := next + 1;
    }

    /** `malloc` of a block array followed by `memcpy` of `content`;
        `succeeds` is whether `malloc` found the memory. */
    method AllocBlocks(content: seq<CBlock>, succeeds: bool) returns (p: Ptr)
      requires Valid()
      modifies this
      ensures Valid()
      ensures !succeeds ==> p == Null && arrays == old(arrays) && next == old(next)
      ensures succeeds ==> p == old(next) && p != Null && p !in old(Live())
                           && arrays == old(arrays)[p := content] && next == old(next) + 1
      ensures strings == old(strings)
    {
      if !succeeds {
        return Null;
      }
      p := next;
      arrays := arrays[p := content];
      next := next + 1;
    }

    /** `free`: NULL is a no-op; anything else must be a live block. */
    method Free(p: Ptr)
      requires Valid()
      requires p == Null || p in Live()
      modifies this
      ensures Valid()
      ensures strings == old(strings) - {p} && arrays == old(arrays) - {p}
      ensures next == old(next)
    {
      strings := strings - {p};
      arrays := arrays - {p};
    }

    /** A loop of `free` over the copies `ps` of the strings `ts`: afterwards
        the strings are the ones before the copies were made. */
    method FreeAll(ps: seq<Ptr>, ghost s0: map<Ptr, string>, ghost ts: seq<string>)
      requires Valid() && Copies(s0, strings, ps, ts)
      modifies this
      ensures Valid() && strings == s0
      ensures arrays == old(arrays) && next == old(next)
    {
      var k := 0;
      while k < |ps|
        invariant 0 <= k <= |ps|
        invariant Valid() && arrays == old(arrays) && next == old(next)
        invariant Copies(s0, strings, ps[k..], ts[k..])
      {
        CopiesDrop(s0, strings, ps[k..], ts[k..]);
        assert ps[k..][1..] == ps[k + 1..];
        assert ts[k..][1..] == ts[k + 1..];
        assert ps[k..][0] in AddressSet(ps[k..]);
        Free(ps[k]);
        k := k + 1;
      }
      CopiesNone(s0, strings);
    }

    /** `C.GoString`: the string at `p`, with NULL read as "". */
    function GoString(p: Ptr): (s: string)
      reads this
      requires p == Null || p in strings
      ensures p != Null ==> s == strings[p]
      ensures p == Null ==> s == ""
    {
      if p == Null then "" else strings[p]
    }

    /** The strings at the addresses `ps`, read in order. */
    function ReadStrings(ps: seq<Ptr>): (ss: seq<string>)
      reads this
      requires forall k :: 0 <= k < |ps| ==> ps[k] in strings
      ensures |ss| == |ps| && forall k :: 0 <= k < |ps| ==> ss[k] == strings[ps[k]]
    {
      var live := strings;
      seq(|ps|, k requires 0 <= k < |ps| => live[ps[k]])
    }
  }
}
