# sysocr, modelled in Dafny

sysocr is a Go library that runs the operating system's own OCR on an
image and returns its text blocks. Each block carries a bounding box
normalised to the image, and the library also returns all text joined by
newlines. It has two backends:

- On Windows, Go calls the Windows Runtime OCR engine through vtable shims.
- On Windows there is also a cgo path, where a C++ file drives the same engine and hands a C result to Go.
- On macOS it calls the Vision framework.

Every native call is an oracle in this model:

- an HRESULT;
- a status sequence and a clock;
- a stage that returns a value or throws;
- a `malloc` that may fail.

What the model keeps is the deterministic logic around those calls:

- choosing the input source;
- initialising the runtime and handling native strings;
- the polling loop of an asynchronous operation;
- the line aggregation of the Go Windows backend, with its handle releases;
- the engine choice, word flattening and C-heap ownership protocol of the cgo backend;
- the macOS conversion of blocks and text.

Coordinates are `real`, so every division is exact.

Modules, one per file:

| module | file | models |
|---|---|---|
| `Types` | types.dfy | the public value types (types.go) |
| `Texts` | texts.dfy | the reference `Join` of block texts and its inverse `Split` |
| `InputResolve` | input.dfy | `resolveInput` and `fetchURL` (input.go) |
| `WinrtBase` | winrt_base.dfy | `Initialize`, the HSTRING functions, `GetActivationFactory` (internal/winrt/base.go) |
| `WinrtAsync` | winrt_async.dfy | `IAsyncOperation.Wait`, `GetResults`/`GetAt` (internal/winrt/async.go) |
| `Geometry` | geometry.dfy | `Windows.Foundation.Rect` and the unit-square bound |
| `WinrtAggregate` | windows_aggregate.dfy | the aggregation of lines into blocks (ocr_windows.go:182-277) |
| `CHeap` | c_heap.dfy | the C heap: `_strdup`/`C.CString`, `malloc`, `free`, `C.GoString` |
| `WindowsNative` | windows_native.dfy | `RecognizeAsync`, `sysocr_recognize`, `sysocr_free_result` (internal/windows/ocr.cpp) |
| `WindowsCgo` | windows_cgo.dfy | the cgo `Recognize` (internal/windows/ocr.go) |
| `Darwin` | darwin.dfy | the macOS `Recognize` (ocr_darwin.go) |

## Model

| member | source | states |
|---|---|---|
| `InputResolve.SourceCount` | input.go:18-27 | At most three sources are counted. None is set exactly when both paths are empty and `Data` is nil. |
| `InputResolve.ResolveInput` | input.go:17-49 | No source gives ErrNoInput; two or more give ErrMultipleInput. In both cases there is no file read and no fetch. With one source: `Data` is returned unchanged; a file path makes one ReadFile and returns its bytes, or its error unchanged; a URL goes to `fetchURL`. |
| `InputResolve.FetchUrl` | input.go:51-67 | With neither an http:// nor an https:// prefix, there is no network call and the result is the scheme error. Otherwise exactly one GET is made. A transport error is returned as it is. A status other than 200 is an error with no body. The bytes come back only for a 200 whose body was read. |
| `InputResolve.EmptyDataIsASource` | input.go:25-38 | An empty but non-nil `Data` slice counts as the one source and is returned as it is. |
| `InputResolve.NoFetchWithoutHttpScheme` | input.go:44-54 | Whatever the other fields are, a URL without an http scheme never reaches the network. |
| `WinrtBase.Initialize` | internal/winrt/base.go:73-79 | Success exactly for S_OK and RPC_E_CHANGED_MODE; any other HRESULT is returned as the error. |
| `WinrtBase.InitializeTwiceFails` | internal/winrt/base.go:73-79 | As written, a second call on the same thread fails with S_FALSE. |
| `WinrtBase.InitializeIntended` | internal/winrt/base.go:73-79 | The corrected rule: S_FALSE ("already initialised") is also success. |
| `WinrtBase.InitializeIntendedRepeatable` | internal/winrt/base.go:72-79 | With the corrected rule, every call in any sequence of calls succeeds, whatever apartment state the thread starts in. |
| `WinrtBase.StringToUTF16` | internal/winrt/base.go:83 | The units followed by one terminating NUL. |
| `WinrtBase.NewHString` | internal/winrt/base.go:82-94 | An error exactly when the HRESULT is nonzero; then the handle is 0 and the table is unchanged. Otherwise a new live handle holds the units without the terminator, or the handle is null for "". |
| `WinrtBase.DeleteHString` | internal/winrt/base.go:97-101 | The null handle is a no-op; otherwise exactly that handle stops being live. |
| `WinrtBase.NewThenDelete` | internal/winrt/base.go:82-101 | Creating a string and deleting its handle leaves the live table as it was, on every HRESULT. |
| `WinrtBase.TruncateAtNul` | internal/winrt/base.go:121 | The result has no NUL, is a prefix of the input, and stops at the first NUL. |
| `WinrtBase.HStringToString` | internal/winrt/base.go:104-122 | A null handle or a null raw buffer gives "". Otherwise the copy loop takes exactly `length` units and the result is those units up to the first NUL. |
| `WinrtBase.NewHStringReadsBack` | internal/winrt/base.go:82-122 | Round trip: a string made by a successful NewHString reads back unchanged. |
| `WinrtBase.GetActivationFactory` | internal/winrt/base.go:125-142 | If creating the class name fails, its error is returned and activation is not called. Otherwise activation is the second native call. A nonzero activation HRESULT is the error; zero gives the factory. The live string table ends as it began. |
| `WinrtBase.ActivationDeletesOnce` | internal/winrt/base.go:126-130 | The class-name HSTRING is deleted exactly once, and no other handle is deleted. |
| `WinrtAsync.Wait` | internal/winrt/async.go:65-91 | A failed QueryInterface returns its HRESULT with no poll and no release. Otherwise the view is released once. Every earlier poll saw Started within the deadline. The last poll decides: Error gives E_FAIL (0x80004005); Completed and Canceled give success; Started past the deadline gives ETIMEDOUT. |
| `WinrtAsync.WaitDeterministic` | internal/winrt/async.go:78-90 | Two runs that meet the specification agree on the number of polls and on the outcome. |
| `WinrtAsync.FirstPollTerminal` | internal/winrt/async.go:79-85 | A terminal status at the first poll decides the outcome in one poll, however late the clock is, because the status is checked before the deadline. |
| `WinrtAsync.ClockAfterPolls` | internal/winrt/async.go:89 | After j polls the clock has advanced by at least j times 10 ms. |
| `WinrtAsync.PollsBounded` | internal/winrt/async.go:77-90 | With an advancing clock, the number of polls is at most timeout/10 ms + 2, so the loop terminates. |
| `WinrtAsync.TimedOutOnlyPastDeadline` | internal/winrt/async.go:86-88 | ETIMEDOUT is reported only for a Started status read after the deadline. |
| `WinrtAsync.CheckHResult` | internal/winrt/async.go:94-103 | `GetResults`: an error exactly when the HRESULT is nonzero, and the error carries it. Otherwise the value the native call wrote. |
| `WinrtAggregate.Obtained` | ocr_windows.go:219-223 | The rectangles obtained are exactly the words whose GetAt succeeded. |
| `WinrtAggregate.FoldIsUnion` | ocr_windows.go:216-247 | The first-flag fold is unset exactly when no rectangle was obtained. Otherwise it is the union box: it contains every obtained rectangle, and each of its four edges is attained by one of them. |
| `WinrtAggregate.UnionUnique` | ocr_windows.go:228-247 | Two union boxes of the same set of rectangles are equal. |
| `WinrtAggregate.FoldOrderIndependent` | ocr_windows.go:228-247 | The union box does not depend on the order of the words. |
| `WinrtAggregate.LineUnion` | ocr_windows.go:215-252 | The word loop. `first` stays set exactly when no word was obtained; otherwise min/max are the union box. It releases each obtained word and then the words view. |
| `WinrtAggregate.AddLine` | ocr_windows.go:197-273 | One iteration of the line loop: the line's block, if any, is appended. "\n" is written only after earlier text. The line's releases are logged. |
| `WinrtAggregate.Aggregate` | ocr_windows.go:182-277 | A failed GetLines is the error, and nothing is released. Otherwise the result is the blocks and text of the lines, and every handle is released, with the lines view last. |
| `WinrtAggregate.LineKeptIff` | ocr_windows.go:198-255 | A line is kept exactly when GetAt and GetWords succeeded and at least one word rectangle was obtained. |
| `WinrtAggregate.LineBlockKept` | ocr_windows.go:255-265 | A kept line yields exactly one block; any other line yields none. |
| `WinrtAggregate.KeptIndicesOrdered` | ocr_windows.go:197-255 | The kept line indices are in range, strictly increasing, and include every kept line. |
| `WinrtAggregate.BlocksAreKeptLines` | ocr_windows.go:197-265 | There is one block per kept line, in line order. Block k carries kept line k's text and its normalised union box. |
| `WinrtAggregate.WordReleasesCount` | ocr_windows.go:219-252 | The word loop of one line releases each obtained word handle exactly once and no other handle; the words view, released after the loop, is counted by `LineReleasesCount`. |
| `WinrtAggregate.LineReleasesCount` | ocr_windows.go:198-273 | Each obtained line handle and its words view are released exactly once, on the GetWords-failure path and on the normal path alike, together with the line's word handles. |
| `WinrtAggregate.ReleasesCount` | ocr_windows.go:197-274 | Across all lines, every handle acquired is released exactly once, and no handle is released that was not acquired. |
| `WinrtAggregate.ReleasedExactlyOnce` | ocr_windows.go:194-274 | Including the deferred release of the lines view, every acquired handle is released exactly once. |
| `WinrtAggregate.BuildTextIsJoin` | ocr_windows.go:187-276 | The text is the kept lines' texts, without leading empty ones, joined by "\n". |
| `WinrtAggregate.BuildTextFirstNonEmpty` | ocr_windows.go:267-270 | When the first text is not empty, the text is the plain "\n" join. |
| `WinrtAggregate.NoLines` | ocr_windows.go:183-276 | No lines give empty blocks and "". |
| `WinrtAggregate.NormalizeInsideUnit` | ocr_windows.go:259-262 | The normalised union box of rectangles inside the image lies in the unit square. |
| `WinrtAggregate.BlocksInsideUnit` | ocr_windows.go:255-265 | When every obtained word lies inside the image, every block box lies in [0,1]. |
| `WinrtAggregate.TwoWordExample` | ocr_windows.go:228-270 | In a 100×100 image, one line "ab" with words (0,0,10,10) and (20,0,10,10) gives the block box (0, 0, 0.3, 0.1) and the text "ab". |
| `Texts.Join` | ocr_darwin.go:41-46 | Reference join: no texts give "", and one text gives itself. |
| `Texts.JoinLength` | ocr_darwin.go:41-46 | The joined length is the sum of the text lengths plus one separator per neighbouring pair. |
| `Texts.SplitJoin` | ocr_darwin.go:41-46 | Round trip: when no text holds the separator, splitting the join gives back the texts, empty ones included. |
| `Texts.DropLeadingEmpty` | ocr_windows.go:267-270 | The texts without their leading empty ones: a suffix of the input that is empty or starts with a non-empty text, and everything dropped before it is empty. |
| `Texts.JoinNonEmpty` | ocr_windows.go:267-270 | A join whose first text is non-empty is non-empty. |
| `CHeap.UpToNul` | internal/windows/ocr.go:48-77 | A C copy holds the characters before the first NUL: no NUL, a prefix, and it stops at the first NUL. |
| `CHeap.Heap.StrDup` | internal/windows/ocr.cpp:117 | `_strdup` and `C.CString`: a fresh non-NULL block holding the C copy; nothing else changes. |
| `CHeap.Heap.AllocBlocks` | internal/windows/ocr.cpp:132-134 | A failed `malloc` gives NULL and no change. Otherwise a fresh array holding the copied blocks. |
| `CHeap.Heap.Free` | internal/windows/ocr.cpp:181-191 | `free`: NULL is a no-op; a live block stops being live. |
| `CHeap.Heap.FreeAll` | internal/windows/ocr.go:50-54 | A `free` loop over a list of copies (the deferred loop over the hint copies, and the loop over the block texts at internal/windows/ocr.cpp:138-140): afterwards the strings are exactly those before the copies were made, and the arrays are unchanged. |
| `CHeap.Heap.GoString` | internal/windows/ocr.go:65-77 | `C.GoString`: the string at the pointer, or "" for NULL. |
| `CHeap.CopiesRemoved` | internal/windows/ocr.go:50-54 | Freeing every copied string gives back the heap before the copies. |
| `WindowsNative.SelectEngine` | internal/windows/ocr.cpp:82-99 | The engine is created from the first hint if there is one, else from the user-profile languages. Either creation may throw. |
| `WindowsNative.EngineFallback` | internal/windows/ocr.cpp:84-94 | Both directions: the profile languages are tried exactly when there is no hint or the first hint gave no engine. |
| `WindowsNative.OnlyFirstHintTried` | internal/windows/ocr.cpp:84-89 | Two hint lists with the same first hint choose the same engine; later hints are ignored. |
| `WindowsNative.FlattenLength` | internal/windows/ocr.cpp:111-128 | There is one block per word: the count is the total word count. |
| `WindowsNative.FlattenAt` | internal/windows/ocr.cpp:111-128 | The blocks of line i are that line's word blocks, at the offset of the words before it, in order. |
| `WindowsNative.LineWordsAt` | internal/windows/ocr.cpp:112-126 | Word j's block has word j's text and its box divided independently by the image width and height. |
| `WindowsNative.WordInsideUnit` | internal/windows/ocr.cpp:120-124 | A word inside the image gets a box inside the unit square. |
| `WindowsNative.FlattenLine` | internal/windows/ocr.cpp:112-127 | The inner loop: one fresh `_strdup` per word, laid out with its normalised box after the blocks so far. |
| `WindowsNative.FlattenWords` | internal/windows/ocr.cpp:105-128 | The nested loops lay out exactly the flattened blocks, each text a fresh C copy, and leave the arrays untouched. |
| `WindowsNative.Fail` | internal/windows/ocr.cpp:145-152 | An error path (the three `catch` clauses, and likewise the early returns at lines 77-78 and 97-98): only a fresh copy of the message is delivered, with NULL blocks and count 0. |
| `WindowsNative.Deliver` | internal/windows/ocr.cpp:131-143 | No blocks give the all-NULL result and the heap as before. Otherwise a successful `malloc` gives a fresh array with count = number of blocks. A failed `malloc` frees every text and sets only the allocation error. |
| `WindowsNative.RecognizeAsync` | internal/windows/ocr.cpp:70-155 | Each failure ends with only a fresh error string, with NULL blocks and count 0: an exception, no bitmap, no engine, or `malloc` failing after the texts were freed. No words give an all-NULL result. Otherwise there is a fresh array with count = number of blocks, holding the flattened blocks and fresh copies of their texts. |
| `WindowsNative.SysocrRecognize` | internal/windows/ocr.cpp:159-179 | The same delivery as RecognizeAsync, after `init_apartment`. A throw there sets an error string: the hresult message, the exception text, or "failed to initialize Windows Runtime". |
| `WindowsNative.FreeResult` | internal/windows/ocr.cpp:181-191 | The `count` texts, the array and the error are freed; NULL fields are skipped. |
| `WindowsNative.DeliveredIsFreed` | internal/windows/ocr.cpp:159-191 | Ownership: whatever sysocr_recognize delivers is safe to pass to sysocr_free_result, which restores the heap exactly. |
| `WindowsNative.FailuresAreErrors` | internal/windows/ocr.cpp:75-99 | An init throw (lines 169-176), a bitmap throw, no bitmap, and no engine each give their fixed or caught error message. |
| `WindowsNative.NoWordsNoBlocks` | internal/windows/ocr.cpp:71-131 | No words give no blocks and no error. |
| `WindowsNative.RecognizedBlocks` | internal/windows/ocr.cpp:131-142 | With words: if `malloc` succeeds, one block per word; if it fails, the allocation error. |
| `WindowsCgo.CStrings` | internal/windows/ocr.go:45-49 | The hints as C reads them: one C copy per hint, in order. |
| `WindowsCgo.GoBlocks` | internal/windows/ocr.go:73-84 | Go block i is C block i: the text through C.GoString and the coordinates as they are. |
| `WindowsCgo.CopyLanguages` | internal/windows/ocr.go:45-49 | One fresh C string per hint, at distinct new addresses. |
| `WindowsCgo.CopyBlocks` | internal/windows/ocr.go:69-84 | `len(Blocks) == count`. When count > 0, block i is copied from C block i, in order. |
| `WindowsCgo.ReadResult` | internal/windows/ocr.go:64-86 | A C error becomes the Go error with that message; otherwise the copied blocks. |
| `WindowsCgo.Recognize` | internal/windows/ocr.go:33-87 | Empty data is rejected before any C call. Otherwise the result is the native outcome read back into Go. Every C allocation (hint copies, texts, array, error) is freed on every path. |
| `WindowsCgo.GoBlockPerWord` | internal/windows/ocr.go:69-84 | When `malloc` succeeds, Go gets one block per recognised word. |
| `WindowsCgo.NoNulUnchanged` | internal/windows/ocr.go:48-65 | A string without NUL crosses to C and back unchanged. |
| `Darwin.PublicBlock` | ocr_darwin.go:32-40 | The text and the four coordinates are copied verbatim. |
| `Darwin.Convert` | ocr_darwin.go:26-46 | There is one block per Vision block, each copied verbatim. The text is the texts joined by "\n", with "\n" before every index > 0, empty texts included. |
| `Darwin.Recognize` | ocr_darwin.go:12-49 | An input error is returned and Vision is not called. A Vision error is returned with no result. Otherwise the converted blocks and text. |
| `Darwin.TextSplitsBack` | ocr_darwin.go:41-46 | Round trip: when no text holds a newline, splitting the text on "\n" gives back every block text. |
| `Darwin.TextLength` | ocr_darwin.go:41-46 | The length of the text is the sum of the block text lengths plus the number of blocks minus one. |
| `Darwin.LeadingEmptyTextDiffers` | ocr_darwin.go:41-46 | With a leading empty text, the macOS text keeps its newline ("\na") where the Windows text does not ("a"). |

## Left out

- internal/winrt/imaging.go, internal/winrt/ocr.go and internal/winrt/streams.go: vtable layouts, GUIDs and one-call shims. Their effects appear only as oracles: the `lines` tree with failed fetches, the status sequence, and the stages in `Services`.
- The native stage sequence of `recognizeWithWinRT` (ocr_windows.go:36-180) is not modelled. It is stream, writer, store and flush, seek, decoder, bitmap and engine, and every step is a foreign call. So neither the missing release of `storeOp`/`flushOp` on a Wait failure nor the ignored `Seek` result is represented.
- The Windows `Recognize` entry point (ocr_windows.go:19-33) is not modelled. It only chains `resolveInput`, `Initialize` and that stage sequence.
- Floating point is not modelled. Coordinates are exact reals; float32 sums, divisions and float64 promotion are left out.
- WinrtAggregate.Aggregate: the image width and height are required to be positive. The source never checks them (ocr_windows.go:147-148), and a zero dimension would give IEEE infinities or NaN.
- WindowsNative.RecognizeAsync: the bitmap's pixel width and height are positive by their type. The source reads them (internal/windows/ocr.cpp:108-109) and divides by them without a check, so a zero size would give IEEE infinities or NaN boxes; that case is not modelled.
- WindowsNative.SysocrRecognize: the same gap, since it delivers what RecognizeAsync delivers. The bitmap oracle never returns a zero-size bitmap, which the C++ does not rule out.
- WinrtAsync.CheckHResult models `GetResults` only. `GetAt` (internal/winrt/async.go:128-138) has the same shape, but the line aggregation takes its failures directly as absent entries of the line and word sequences.
- WinrtAggregate.Aggregate: a failed GetLines is returned as the HRESULT error itself. The "failed to get OCR lines: " prefix is not modelled, because the text of a `syscall.Errno` comes from the operating system.
- WinrtAsync.Wait: the clock and `time.Sleep` are an abstract clock that advances by at least 10 ms per sleep. Wall-clock time is not modelled.
- Concurrency and apartment semantics are not modelled: `RoInitialize`'s per-thread state is given as a parameter, and `init_apartment` is a stage that returns or throws.
- UTF-8/UTF-16 conversion is not modelled: `wstring_to_utf8`, `utf8_to_wstring`, and the decoding inside `syscall.UTF16ToString`. HSTRINGs hold UTF-16 units, and C strings hold characters.
- WinrtBase.NewHString requires a string without NUL, because Go's `StringToUTF16` panics on one. The panic itself is not modelled.
- WindowsNative.RecognizeAsync: the recognised lines arrive whole from one stage, so the leak is not modelled. In the source, an exception thrown midway through the word loop (from `word.Text()` or the UTF-8 conversion) leaks the texts already duplicated.
- CHeap.Heap.StrDup never fails. `_strdup` or `C.CString` returning NULL is not modelled; only the block `malloc` may fail.
- CHeap.Heap.AllocBlocks hands out fresh addresses and never reuses a freed one.
- WindowsNative.FreeResult states the heap that results, not the order of the frees (texts, then array, then error).
- WindowsCgo.Recognize: `C.int(len(data))` and `int(cResult.count)` conversions are not modelled, because Dafny integers are unbounded.
- WindowsCgo.Recognize: the image bytes go only to the bitmap stage, which is an oracle, so the bytes themselves play no part beyond the empty-data check.
- File and network I/O are parameters: `os.ReadFile`, `http.Get` and `io.ReadAll`. Closing the response body is not modelled.
- The Vision backend under internal/darwin is an oracle: its Objective-C side is not part of this model.
- examples/basic/main.go, the command-line front end, is not modelled.
- internal/windows/ocr.c is not modelled: it is a stub that duplicates `sysocr_free_result`.

## Findings

| source | as written | input that shows it | evidently intended | confidence | as-written member | corrected member |
|---|---|---|---|---|---|---|
| internal/winrt/base.go:74-78 | `Initialize` accepts only S_OK and RPC_E_CHANGED_MODE | a second `Initialize` on the same thread: `RoInitialize(RO_INIT_MULTITHREADED)` returns S_FALSE (1) when the thread is already in the multithreaded apartment | "already initialised" is success, so S_FALSE is accepted too and repeated calls succeed | medium, not executed (relies on the documented return codes of RoInitialize) | `WinrtBase.InitializeTwiceFails` | `WinrtBase.InitializeIntendedRepeatable` |
