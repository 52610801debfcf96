/** Turning an `Input` into raw image bytes (input.go). Reading a file and
    fetching a URL are external I/O: their outcomes are parameters, and the
    calls the code makes are returned as a log of effects, so that "before
    any read or fetch" can be stated. */
module InputResolve {
  import opened Types

  datatype InputError =
    | NoInput                  // ErrNoInput
    | MultipleInput            // ErrMultipleInput
    | BadScheme                // "URL must start with http:// or https://"
    | FetchStatus(status: int) // "failed to fetch URL: " + resp.Status
    | IoError(message: string) // an error returned by os.ReadFile, http.Get or io.ReadAll

  /** What `http.Get` hands back: a transport error, or a response whose
      body `io.ReadAll` then reads (successfully or not). */
  datatype HttpOutcome =
    | GetFailed(message: string)
    | Response(statusCode: int, body: Result<seq<Byte>, string>)

  /** An external call made while resolving. */
  datatype Effect = ReadFile(path: string) | HttpGet(url: string)

  datatype Resolution = Resolution(result: Result<seq<Byte>, InputError>, effects: seq<Effect>)

  const StatusOK: int := 200

  predicate HasPrefix(s: string, prefix: string)
  {
    |prefix| <= |s| && s[..|prefix|] == prefix
  }

  /** The number of sources that are set. */
  function SourceCount(input: Input): (n: nat)
    ensures n <= 3
    ensures n == 0 <==> input.filePath == "" && input.url == "" && input.data.None?
  {
    (if input.filePath != "" then 1 else 0)
    + (if input.url != "" then 1 else 0)
    + (if input.data.Some? then 1 else 0)
  }

  /** An I/O answer as `resolveInput` returns it: the bytes, or the
      error unchanged. */
  function IoResult(r: Result<seq<Byte>, string>): (res: Result<seq<Byte>, InputError>)
    ensures r.Ok? ==> res == Ok(r.value)
    ensures r.Err? ==> res == Err(IoError(r.error))
  {
    match r
    case Ok(bytes) => Ok(bytes)
    case Err(message) => Err(IoError(message))
  }

  /** fetchURL: the scheme is checked before `http.Get`; a status other
      than 200 is an error with no body. */
  function FetchUrl(url: string, get: HttpOutcome): (r: Resolution)
    ensures r.effects == [] <==> !HasPrefix(url, "http://") && !HasPrefix(url, "https://")
    ensures r.effects == [] ==> r.result == Err(BadScheme)
    ensures r.effects != [] ==> r.effects == [HttpGet(url)]
    ensures r.effects != [] && get.GetFailed? ==> r.result == Err(IoError(get.message))
    ensures r.effects != [] && get.Response? && get.statusCode != StatusOK ==>
              r.result == Err(FetchStatus(get.statusCode))
    ensures r.result.Ok? <==>
              r.effects != [] && get.Response? && get.statusCode == StatusOK && get.body.Ok?
    ensures r.result.Ok? ==> r.result.value == get.body.value
  {
    if !HasPrefix(url, "http://") && !HasPrefix(url, "https://") then
      Resolution(Err(BadScheme), [])
    else
      match get
      case GetFailed(message) => Resolution(Err(IoError(message)), [HttpGet(url)])
      case Response(status, body) =>
        if status != StatusOK then Resolution(Err(FetchStatus(status)), [HttpGet(url)])
        else Resolution(IoResult(body), [HttpGet(url)])
  }

  /** resolveInput: exactly one source must be set; it is then returned,
      read or fetched. `readFile` is what `os.ReadFile` would return and
      `get` what `http.Get` would. */
  function ResolveInput(input: Input, readFile: Result<seq<Byte>, string>, get: HttpOutcome): (r: Resolution)
    ensures r.result == Err(NoInput) <==> SourceCount(input) == 0
    ensures r.result == Err(MultipleInput) <==> SourceCount(input) > 1
    ensures SourceCount(input) != 1 ==> r.effects == []
    ensures SourceCount(input) == 1 && input.data.Some? ==> r == Resolution(Ok(input.data.value), [])
    ensures SourceCount(input) == 1 && input.filePath != "" ==>
              r.effects == [ReadFile(input.filePath)]
              && (r.result.Ok? <==> readFile.Ok?)
              && (r.result.Ok? ==> r.result.value == readFile.value)
              && (readFile.Err? ==> r.result == Err(IoError(readFile.error)))
    ensures SourceCount(input) == 1 && input.url != "" ==> r == FetchUrl(input.url, get)
  {
    var count := SourceCount(input);
    if count == 0 then Resolution(Err(NoInput), [])
    else if count > 1 then Resolution(Err(MultipleInput), [])
    else if input.data.Some? then Resolution(Ok(input.data.value), [])
    else if input.filePath != "" then Resolution(IoResult(readFile), [ReadFile(input.filePath)])
    else if input.url != "" then FetchUrl(input.url, get)
    else
      // the trailing `return nil, ErrNoInput` cannot be reached
      assert false; Resolution(Err(NoInput), [])
  }

  /** An empty but non-nil `Data` slice is a source: it is returned as it is. */
  lemma EmptyDataIsASource(readFile: Result<seq<Byte>, string>, get: HttpOutcome)
    ensures ResolveInput(Input("", "", Some([])), readFile, get) == Resolution(Ok([]), [])
  {
    assert SourceCount(Input("", "", Some([]))) == 1;
  }

  /** No URL whose scheme is neither http nor https reaches the network,
      whatever the other sources are. */
  lemma {:induction false} NoFetchWithoutHttpScheme(input: Input, readFile: Result<seq<Byte>, string>, get: HttpOutcome)
    requires !HasPrefix(input.url, "http://") && !HasPrefix(input.url, "https://")
    ensures forall e :: e in ResolveInput(input, readFile, get).effects ==> !e.HttpGet?
  {
    var r := ResolveInput(input, readFile, get);
    if SourceCount(input) == 1 && input.url != "" {
      assert r == FetchUrl(input.url, get);
    }
  }
}
