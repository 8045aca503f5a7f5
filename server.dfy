/** The request side of the server: the block number cut out of the URL path,
    its %x form, the etherscan link built from it, and the handler state the
    requests update (the last block number and the status codes written). */
module Server {
  import opened Outcomes
  import opened GoStrings
  import opened Numerals
  import opened UrlQuery
  import opened Analyzer

  /** The path slice getBlockNumberInHex parses: from six bytes after the
      first "block" to the first "/total". Go panics on a slice whose bounds
      are out of order or past the end. */
  function BlockNumberText(path: string): (r: Outcome<string>)
    ensures r.Done? <==> Index(path, "block") + 6 <= Index(path, "/total")
    ensures Index(path, "/total") == -1 ==> r == Panic
    ensures r.Done? ==> var start := Index(path, "block") + 6;
      && 5 <= start && start + |r.value| <= |path|
      && path[start..start + |r.value|] == r.value
      && Index(path, "/total") == start + |r.value|
  {
    var start := Index(path, "block") + 6;
    var end := Index(path, "/total");
    if 0 <= start <= end <= |path| then Done(path[start..end]) else Panic
  }

  /** The outcome of getBlockNumberInHex: the int64 ParseInt returned (0 or
      a bound on failure), its %x form, and whether a 400 was written. */
  datatype Extraction = Extraction(number: int64, hex: string, badRequest: bool)

  function ExtractBlock(path: string): (r: Outcome<Extraction>)
    ensures r.Done? <==> BlockNumberText(path).Done?
    ensures r.Done? ==> ParseInt(r.value.hex, 16) == IntResult(r.value.number, NoError)
    ensures r.Done? ==> NeedsNoEscape(r.value.hex)
    ensures r.Done? ==> var text := BlockNumberText(path).value;
      (r.value.badRequest <==>
        !(WellFormed(text, 10) && -INT64_CUTOFF <= SignedValue(text, 10) < INT64_CUTOFF))
    ensures r.Done? && !r.value.badRequest ==>
      r.value.number as int == SignedValue(BlockNumberText(path).value, 10)
    ensures r.Done? ==> r.value.number == ParseInt(BlockNumberText(path).value, 10).value
    ensures r.Done? ==> r.value.hex == FormatHex(r.value.number)
  {
    match BlockNumberText(path)
    case Panic => Panic
    case Done(text) =>
      var parsed := ParseInt(text, 10);
      FormatHexRoundTrip(parsed.value);
      FormatHexUnreserved(parsed.value);
      Done(Extraction(parsed.value, FormatHex(parsed.value), parsed.err != NoError))
  }

  /** %x output needs no escaping in a query. */
  lemma FormatHexUnreserved(n: int64)
    ensures NeedsNoEscape(FormatHex(n))
  {
    var s := FormatHex(n);
    var m := if n < 0 then HexNat(-(n as int)) else HexNat(n as int);
    assert forall k :: 0 <= k < |m| ==> IsLowerHexDigit(m[k]);
    if n < 0 {
      assert forall k :: 1 <= k < |s| ==> s[k] == m[k - 1];
    }
  }

  /** The link getRequestLink returns for a path, given the configured key. */
  function LinkFor(path: string, apiKey: string): (r: Outcome<string>)
    requires NeedsNoEscape(apiKey)
    ensures r.Done? <==> BlockNumberText(path).Done?
    ensures r.Done? ==> r.value == ENDPOINT + "?" + Join(RequestPairs(ExtractBlock(path).value.hex, apiKey), '&')
  {
    match ExtractBlock(path)
    case Panic => Panic
    case Done(e) => Done(RequestLink(e.hex, apiKey))
  }

  /** A path of the documented form: the number is the text between the
      first "block/" and the first "/total" after it. */
  lemma {:induction false} RouteBlockNumber(pre: string, num: string, post: string)
    requires forall i :: 0 <= i < |pre| ==> !OccursAt(pre + "block/" + num + "/total" + post, "block", i)
    requires forall i :: 0 <= i < |pre| + 6 + |num| ==>
      !OccursAt(pre + "block/" + num + "/total" + post, "/total", i)
    ensures BlockNumberText(pre + "block/" + num + "/total" + post) == Done(num)
  {
    var path := pre + "block/" + num + "/total" + post;
    var b := |pre|;
    var t := |pre| + 6 + |num|;
    assert path[b..b + 5] == "block";
    assert OccursAt(path, "block", b);
    assert path[t..t + 6] == "/total";
    assert OccursAt(path, "/total", t);
    IndexSpec(path, "block");
    IndexSpec(path, "/total");
    assert Index(path, "block") == b;
    assert Index(path, "/total") == t;
    assert path[b + 6..t] == num;
  }

  /** Without a "/total" the slice has no end and the request panics. */
  lemma NoTotalPanics(path: string)
    requires forall i :: !OccursAt(path, "/total", i)
    ensures BlockNumberText(path) == Panic
    ensures ExtractBlock(path) == Panic
  {
    IndexSpec(path, "/total");
  }

  /** Without a "block" the slice starts at byte 5 whatever is there. */
  lemma NoBlockStartsAtFive(path: string)
    requires forall i :: !OccursAt(path, "block", i)
    requires 5 <= Index(path, "/total")
    ensures BlockNumberText(path) == Done(path[5..Index(path, "/total")])
  {
    IndexSpec(path, "block");
  }

  /** A block number that fits in an int64 comes back unchanged, with no 400
      and with its %x form. */
  lemma {:induction false} ExtractWellFormed(pre: string, num: string, post: string)
    requires forall i :: 0 <= i < |pre| ==> !OccursAt(pre + "block/" + num + "/total" + post, "block", i)
    requires forall i :: 0 <= i < |pre| + 6 + |num| ==>
      !OccursAt(pre + "block/" + num + "/total" + post, "/total", i)
    requires WellFormed(num, 10) && -INT64_CUTOFF <= SignedValue(num, 10) < INT64_CUTOFF
    ensures ExtractBlock(pre + "block/" + num + "/total" + post)
      == Done(Extraction(SignedValue(num, 10) as int64, FormatHex(SignedValue(num, 10) as int64), false))
  {
    RouteBlockNumber(pre, num, post);
  }

  /** The response writer, reduced to the codes passed to WriteHeader, in
      call order. net/http sends the first of them as the status and ignores
      the rest. */
  class Response {
    var statuses: seq<int>

    constructor ()
      ensures statuses == []
    {
      statuses := [];
    }

    /** handleHTTPStatus: w.WriteHeader(code). */
    method WriteHeader(code: int)
      modifies this
      ensures statuses == old(statuses) + [code]
    {
      statuses := statuses + [code];
    }
  }

  /** The server's package-level state: the block number of the last
      request, which the database insert reads. */
  class Handler {
    var blockNumberGlobal: int64

    constructor ()
      ensures blockNumberGlobal == 0
    {
      blockNumberGlobal := 0;
    }

    /** getBlockNumberInHex: parse the path's block number, write 400 when
        ParseInt fails, store whatever ParseInt returned and answer its %x. */
    method GetBlockNumberInHex(w: Response, path: string) returns (r: Outcome<string>)
      modifies this, w
      ensures match ExtractBlock(path)
        case Panic =>
          r == Panic && blockNumberGlobal == old(blockNumberGlobal) && w.statuses == old(w.statuses)
        case Done(e) =>
          && r == Done(e.hex)
          && blockNumberGlobal == e.number
          && w.statuses == old(w.statuses) + (if e.badRequest then [400] else [])
    {
      var start := Index(path, "block") + 6;
      var end := Index(path, "/total");
      if !(0 <= start <= end <= |path|) {
        assert ExtractBlock(path) == Panic;
        return Panic;
      }
      assert BlockNumberText(path) == Done(path[start..end]);
      var parsed := ParseInt(path[start..end], 10);
      ghost var e := Extraction(parsed.value, FormatHex(parsed.value), parsed.err != NoError);
      assert ExtractBlock(path) == Done(e);
      if parsed.err != NoError {
        w.WriteHeader(400);
      }
      blockNumberGlobal := parsed.value;
      r := Done(FormatHex(parsed.value));
    }

    /** getRequestLink: the block number in hex as the tag, the configured
        key as the apikey, in the etherscan query. */
    method GetRequestLink(w: Response, path: string, apiKey: string) returns (r: Outcome<string>)
      requires NeedsNoEscape(apiKey)
      modifies this, w
      ensures r == LinkFor(path, apiKey)
      ensures match ExtractBlock(path)
        case Panic =>
          blockNumberGlobal == old(blockNumberGlobal) && w.statuses == old(w.statuses)
        case Done(e) =>
          && blockNumberGlobal == e.number
          && w.statuses == old(w.statuses) + (if e.badRequest then [400] else [])
    {
      var blockNumber := GetBlockNumberInHex(w, path);
      match blockNumber {
        case Panic =>
          return Panic;
        case Done(hex) =>
          r := Done(RequestLink(hex, apiKey));
      }
    }

    /** requestHandler: build the link, fetch the block payload through
        `fetch` (http.Get and reading the body), and analyse it. */
    method RequestHandler(w: Response, path: string, apiKey: string, fetch: string -> string)
      returns (r: Outcome<Summary>)
      requires NeedsNoEscape(apiKey)
      requires LinkFor(path, apiKey).Done? ==> AllModelled(Split(fetch(LinkFor(path, apiKey).value), ','))
      modifies this, w
      ensures match LinkFor(path, apiKey)
        case Panic =>
          r == Panic && blockNumberGlobal == old(blockNumberGlobal) && w.statuses == old(w.statuses)
        case Done(link) =>
          var e := ExtractBlock(path).value;
          && r == Analyze(fetch(link))
          && blockNumberGlobal == e.number
          && w.statuses == old(w.statuses) + (if e.badRequest then [400] else [])
               + (if r.Done? && r.value.transactions == 0 then [204] else [])
    {
      var link := GetRequestLink(w, path, apiKey);
      match link {
        case Panic =>
          return Panic;
        case Done(l) =>
          var body := fetch(l);
          r := WriteDataToJSON(w, body);
      }
    }
  }

  /** writeDataToJSON: analyse the payload and write 204 when it holds no
      transaction. */
  method WriteDataToJSON(w: Response, payload: string) returns (r: Outcome<Summary>)
    requires AllModelled(Split(payload, ','))
    modifies w
    ensures r == Analyze(payload)
    ensures w.statuses == old(w.statuses) + (if r.Done? && r.value.transactions == 0 then [204] else [])
  {
    r := EthereumAnalyzer(payload);
    if r.Done? && r.value.transactions == 0 {
      w.WriteHeader(204);
    }
  }
}
