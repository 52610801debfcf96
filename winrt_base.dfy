/** The Windows Runtime primitives of internal/winrt/base.go: runtime
    initialisation, HSTRING creation, deletion and reading, and class
    activation. Every native call is modelled by a function of an abstract
    native state (an apartment state, a table of live strings) and of the
    HRESULT the native call returns, which is a parameter. */
module WinrtBase {
  import opened Types

  /** An HRESULT as the 32 bits the native call returns. */
  type HResult = bv32

  const S_OK: HResult := 0
  /** Returned by RoInitialize when the thread is already initialised in the requested mode. */
  const S_FALSE: HResult := 1
  /** Returned by RoInitialize when the thread is initialised in the other mode. */
  const RPC_E_CHANGED_MODE: HResult := 0x80010106

  /** `syscall.Errno(hr)`: an error carrying the native code. */
  datatype Errno = Errno(code: HResult)

  // ---------------------------------------------------------------------
  // Initialize (base.go:73-79)

  /** The apartment state of the calling thread, as the native runtime keeps it. */
  datatype Apartment = Uninitialized | MultiThreaded | SingleThreaded

  /** `RoInitialize(RO_INIT_MULTITHREADED)`: its documented return codes. */
  function RoInitialize(apt: Apartment): (HResult, Apartment)
  {
    match apt
    case Uninitialized => (S_OK, MultiThreaded)
    case MultiThreaded => (S_FALSE, MultiThreaded)
    case SingleThreaded => (RPC_E_CHANGED_MODE, SingleThreaded)
  }

  /** Initialize as written: only 0 and RPC_E_CHANGED_MODE are success
      (`None` is the nil error). */
  function Initialize(hr: HResult): (err: Option<Errno>)
    ensures err.None? <==> hr == S_OK || hr == RPC_E_CHANGED_MODE
    ensures err.Some? ==> err.value == Errno(hr)
  {
    if hr != S_OK && hr != RPC_E_CHANGED_MODE then Some(Errno(hr)) else None
  }

  /** Initialize as evidently intended: "already initialised" is success
      whichever mode the thread is in, so S_FALSE is accepted too. */
  function InitializeIntended(hr: HResult): (err: Option<Errno>)
    ensures err.None? <==> hr == S_OK || hr == S_FALSE || hr == RPC_E_CHANGED_MODE
    ensures err.Some? ==> err.value == Errno(hr)
  {
    if hr != S_OK && hr != S_FALSE && hr != RPC_E_CHANGED_MODE then Some(Errno(hr)) else None
  }

  /** The errors of `n` successive calls on one thread, with `accept`
      deciding each HRESULT (`Initialize` or `InitializeIntended`). */
  function InitializeCalls(apt: Apartment, n: nat, accept: HResult -> Option<Errno>): (errs: seq<Option<Errno>>)
    ensures |errs| == n
    decreases n
  {
    if n == 0 then []
    else
      var (hr, apt') := RoInitialize(apt);
      [accept(hr)] + InitializeCalls(apt', n - 1, accept)
  }

  /** As written, the second call on a fresh thread fails: RoInitialize
      returns S_FALSE, which is neither of the two accepted codes. */
  lemma InitializeTwiceFails()
    ensures InitializeCalls(Uninitialized, 2, Initialize) == [None, Some(Errno(S_FALSE))]
  {
  }

  /** With S_FALSE accepted, any number of calls on one thread succeed,
      whatever state the thread starts in. */
  lemma {:induction false} InitializeIntendedRepeatable(apt: Apartment, n: nat)
    ensures forall k :: 0 <= k < n ==> InitializeCalls(apt, n, InitializeIntended)[k].None?
    decreases n
  {
    if n > 0 {
      var (hr, apt') := RoInitialize(apt);
      InitializeIntendedRepeatable(apt', n - 1);
      var errs := InitializeCalls(apt, n, InitializeIntended);
      assert errs == [InitializeIntended(hr)] + InitializeCalls(apt', n - 1, InitializeIntended);
    }
  }

  // ---------------------------------------------------------------------
  // HSTRING (base.go:81-121)

  /** An HSTRING handle; 0 is the null handle. */
  type HString = nat

  /** The native table of live strings: each live handle maps to its
      UTF-16 code units. Handles are never reused. */
  datatype StringTable = StringTable(live: map<HString, seq<bv16>>, next: HString)

  ghost predicate ValidTable(t: StringTable)
  {
    && t.next > 0
    && 0 !in t.live
    && forall h :: h in t.live ==> h < t.next
  }

  /** `WindowsCreateString(units, length, &hs)`: on success a new handle
      holding the first `length` units, or the null handle for length 0;
      on failure (a nonzero `hr`, chosen by the runtime) nothing changes. */
  function WindowsCreateString(t: StringTable, units: seq<bv16>, length: nat, hr: HResult): (HResult, HString, StringTable)
    requires length <= |units|
  {
    if hr != S_OK then (hr, 0, t)
    else if length == 0 then (S_OK, 0, t)
    else (S_OK, t.next, StringTable(t.live[t.next := units[..length]], t.next + 1))
  }

  /** `syscall.StringToUTF16`: the units followed by a terminating NUL. */
  function StringToUTF16(s: seq<bv16>): (u16: seq<bv16>)
    ensures |u16| == |s| + 1 && u16[..|s|] == s && u16[|s|] == 0
  {
    s + [0]
  }

  datatype Created = Created(hs: HString, err: Option<Errno>, table: StringTable)

  /** NewHString: the length passed excludes the terminator; a nonzero
      HRESULT gives the null handle and an error. `s` is given as its
      UTF-16 units; Go's StringToUTF16 rejects a string holding NUL. */
  function NewHString(t: StringTable, s: seq<bv16>, hr: HResult): (c: Created)
    requires ValidTable(t)
    requires 0 !in s
    ensures ValidTable(c.table)
    ensures c.err.Some? <==> hr != S_OK
    ensures c.err.Some? ==> c.err.value == Errno(hr) && c.hs == 0 && c.table == t
    ensures c.err.None? && s == [] ==> c.hs == 0 && c.table == t
    ensures c.err.None? && s != [] ==>
              c.hs != 0 && c.hs !in t.live && c.table.live == t.live[c.hs := s]
  {
    var u16 := StringToUTF16(s);
    var (rc, hs, t') := WindowsCreateString(t, u16, |u16| - 1, hr);
    if rc != S_OK then Created(0, Some(Errno(rc)), t) else Created(hs, None, t')
  }

  /** `WindowsDeleteString(hs)` on a live handle. */
  function WindowsDeleteString(t: StringTable, hs: HString): StringTable
  {
    StringTable(t.live - {hs}, t.next)
  }

  /** DeleteHString: a no-op for the null handle. */
  function DeleteHString(t: StringTable, hs: HString): (t': StringTable)
    requires ValidTable(t)
    ensures ValidTable(t')
    ensures hs == 0 ==> t' == t
    ensures t'.live == t.live - {hs}
  {
    if hs != 0 then WindowsDeleteString(t, hs) else t
  }

  /** Creating a string and deleting its handle leaves the table as it was. */
  lemma NewThenDelete(t: StringTable, s: seq<bv16>, hr: HResult)
    requires ValidTable(t) && 0 !in s
    ensures DeleteHString(NewHString(t, s, hr).table, NewHString(t, s, hr).hs).live == t.live
  {
    var c := NewHString(t, s, hr);
    if c.err.None? && s != [] {
      assert c.table.live - {c.hs} == t.live;
    }
  }

  /** `WindowsGetStringRawBuffer(hs, &length)`: the units of a live handle,
      or a null buffer (`None`) for a handle the table does not hold. */
  function RawBuffer(t: StringTable, hs: HString): Option<seq<bv16>>
  {
    if hs in t.live then Some(t.live[hs]) else None
  }

  /** `syscall.UTF16ToString`: the units up to the first NUL (decoding to
      UTF-8 is left out). */
  function TruncateAtNul(u16: seq<bv16>): (s: seq<bv16>)
    ensures 0 !in s
    ensures s <= u16
    ensures |s| < |u16| ==> u16[|s|] == 0
  {
    if |u16| == 0 || u16[0] == 0 then [] else [u16[0]] + TruncateAtNul(u16[1..])
  }

  lemma {:induction false} TruncateWithoutNul(s: seq<bv16>)
    requires 0 !in s
    ensures TruncateAtNul(s) == s
  {
    if |s| > 0 {
      TruncateWithoutNul(s[1..]);
      assert [s[0]] + s[1..] == s;
    }
  }

  /** The text HStringToString reads from a handle. */
  function StringValue(t: StringTable, hs: HString): seq<bv16>
  {
    if hs == 0 then []
    else match RawBuffer(t, hs)
      case None => []
      case Some(units) => TruncateAtNul(units)
  }

  /** HStringToString: "" for the null handle or a null raw buffer;
      otherwise exactly `length` units are copied and then decoded. */
  method HStringToString(t: StringTable, hs: HString) returns (s: seq<bv16>)
    ensures s == StringValue(t, hs)
    ensures hs == 0 ==> s == []
    ensures hs != 0 && hs in t.live ==> s == TruncateAtNul(t.live[hs])
  {
    if hs == 0 {
      return [];
    }
    var raw := RawBuffer(t, hs);
    if raw.None? {
      return [];
    }
    var length := |raw.value|;
    var u16 := new bv16[length];
    for i := 0 to length
      invariant u16[..i] == raw.value[..i]
    {
      u16[i] := raw.value[i];
    }
    s := TruncateAtNul(u16[..]);
  }

  /** Round trip: a string created by NewHString reads back unchanged. */
  lemma {:induction false} NewHStringReadsBack(t: StringTable, s: seq<bv16>, hr: HResult)
    requires ValidTable(t) && 0 !in s && hr == S_OK
    ensures StringValue(NewHString(t, s, hr).table, NewHString(t, s, hr).hs) == s
  {
    var c := NewHString(t, s, hr);
    if s != [] {
      TruncateWithoutNul(s);
      assert RawBuffer(c.table, c.hs) == Some(s);
    }
  }

  // ---------------------------------------------------------------------
  // GetActivationFactory (base.go:123-141)

  /** An interface pointer; 0 is nil. */
  type Pointer = nat

  /** A native call made by GetActivationFactory, in order. */
  datatype NativeCall =
    | CreateString
    | RoGetActivationFactory(classId: HString)
    | DeleteString(hs: HString)

  datatype Activation = Activation(factory: Result<Pointer, Errno>, table: StringTable, calls: seq<NativeCall>)

  /** GetActivationFactory: the class name becomes an HSTRING (`createHr`
      is what WindowsCreateString returns); activation returns
      `activateHr` and, on success, `factory`. The deferred DeleteHString
      runs on every path after the string was created. */
  function GetActivationFactory(t: StringTable, classId: seq<bv16>, createHr: HResult,
                                activateHr: HResult, factory: Pointer): (a: Activation)
    requires ValidTable(t) && 0 !in classId
    ensures ValidTable(a.table)
    ensures a.table.live == t.live
    ensures createHr != S_OK ==> a.factory == Err(Errno(createHr)) && a.calls == [CreateString]
    ensures createHr == S_OK ==> |a.calls| >= 2 && a.calls[0] == CreateString && a.calls[1].RoGetActivationFactory?
    ensures createHr == S_OK && activateHr != S_OK ==> a.factory == Err(Errno(activateHr))
    ensures createHr == S_OK && activateHr == S_OK ==> a.factory == Ok(factory)
  {
    var c := NewHString(t, classId, createHr);
    if c.err.Some? then Activation(Err(c.err.value), t, [CreateString])
    else
      var deleted := DeleteHString(c.table, c.hs);
      var calls := [CreateString, RoGetActivationFactory(c.hs)] + (if c.hs != 0 then [DeleteString(c.hs)] else []);
      if activateHr != S_OK then Activation(Err(Errno(activateHr)), deleted, calls)
      else Activation(Ok(factory), deleted, calls)
  }

  function CountDeletes(calls: seq<NativeCall>, hs: HString): nat
  {
    if |calls| == 0 then 0
    else CountDeletes(calls[..|calls| - 1], hs) + (if calls[|calls| - 1] == DeleteString(hs) then 1 else 0)
  }

  /** The class-name string handed to activation is deleted exactly once,
      and no other string is deleted. */
  lemma ActivationDeletesOnce(t: StringTable, classId: seq<bv16>, createHr: HResult,
                              activateHr: HResult, factory: Pointer)
    requires ValidTable(t) && 0 !in classId && classId != [] && createHr == S_OK
    ensures var a := GetActivationFactory(t, classId, createHr, activateHr, factory);
            var hs := a.calls[1].classId;
            hs != 0 && CountDeletes(a.calls, hs) == 1
            && forall h :: h != hs ==> CountDeletes(a.calls, h) == 0
  {
    var a := GetActivationFactory(t, classId, createHr, activateHr, factory);
    var hs := a.calls[1].classId;
    assert a.calls == [CreateString, RoGetActivationFactory(hs), DeleteString(hs)];
    forall h
      ensures CountDeletes(a.calls, h) == if h == hs then 1 else 0
    {
      var two := [CreateString, RoGetActivationFactory(hs)];
      assert a.calls[..2] == two;
      assert CountDeletes([CreateString], h) == 0 by { assert [CreateString][..0] == []; }
      assert two[..1] == [CreateString];
      assert CountDeletes(two, h) == 0;
    }
  }
}
