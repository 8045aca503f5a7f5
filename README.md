# EthereumBlockAnalyzer — a verified model of the block-data pipeline

EthereumBlockAnalyzer is a small Go HTTP server. A request names a block,
for example `/api/block/11508993/total`. The server cuts the block number
out of the path, turns it into hexadecimal, and asks etherscan for that
block. It then counts the block's transactions and adds up the wei they
move.

This project models that pipeline in Dafny, as `server.go` writes it, and
proves properties of the model:

- `outcomes.dfy` (module `Outcomes`): a call either returns a value or
  panics. A Go panic (a slice out of range, a nil `*big.Int` in `Add`) is
  modelled as the result `Panic`.
- `gostrings.dfy` (module `GoStrings`): the `strings` functions the server
  calls.
  - `Index`, `Count`, `Split` and `Join`, with their specifications, the
    split/join round trips and the counting laws.
  - The byte order `sort.Strings` uses on keys.
- `numerals.dfy` (module `Numerals`): integer text in and out.
  - `strconv.ParseInt(s, 10, 64)` with Go's syntax and range errors and the
    values it returns with them.
  - `fmt.Sprintf("%x", n)` on an `int64`, and the hex round trip.
  - `big.Int.SetString(t, 0)` on `0x` text.
- `urlquery.dfy` (module `UrlQuery`): the upstream link.
  - `url.Values.Encode` writes the keys in sorted order.
  - The fixed query of `getRequestLink`, with `tag` and `apikey` set.
  - The exact link that results.
- `analyzer.dfy` (module `Analyzer`): `ethereumAnalyzer`.
  - The transaction count is the number of `"blockHash"` keys.
  - The wei total is summed over the comma-separated fragments. It is
    specified by `WeiTotal` and computed by a loop proved against it.
- `server.dfy` (module `Server`): the request side.
  - The block-number slice of the path and `getBlockNumberInHex`.
  - A `Handler` class holding the package-level `blockNumberGlobal`.
  - A `Response` class that records, in order, the codes passed to
    `WriteHeader`.
  - `getRequestLink`, `requestHandler` (the fetch is a parameter) and the
    204 decision of `writeDataToJSON`.

### Where the code differs from what a reader might expect

A reader of the routes might expect a bad path to be rejected, a bad
number to stop the request, and an empty or odd payload to count as
nothing. The code does otherwise, and the model follows the code:

- **Missing `block`.** A path without `block` is not rejected.
  `strings.Index` returns -1, so the slice starts at byte 5. For example,
  `/api/123/total` yields block 123 (`NoBlockStartsAtFive`). A path without
  `/total`, or with the bounds out of order, panics (`NoTotalPanics`).
- **Unparsable block number.** The server writes 400 and carries on. It
  still stores ParseInt's result (0 or an int64 bound) in
  `blockNumberGlobal` and returns its hex (`Handler.GetBlockNumberInHex`).
- **Signs.** The block number may carry a sign, because ParseInt accepts
  one.
- **Empty payload.** An empty payload does not give zero transactions and
  zero wei. `Split("", ",")` is `[""]`, and `word[1:6]` panics on it
  (`EmptyPayloadPanics`).
- **Malformed fragments.** They are not skipped:
  - a fragment shorter than six bytes panics;
  - a `value` fragment shorter than ten bytes panics;
  - a value text `SetString` rejects panics in `Add` (`Analyzer.FragmentWei`).

## Model

| member | source | states |
|---|---|---|
| GoStrings.Index | server.go:79 | strings.Index returns -1 or an offset at which the whole pattern fits inside the text |
| GoStrings.IndexSpec | server.go:79 | strings.Index returns -1 exactly when the pattern occurs nowhere; otherwise the pattern occurs at the returned offset and at no smaller one |
| GoStrings.CountZero | server.go:115 | the "blockHash" count is zero exactly when the key occurs nowhere in the payload |
| GoStrings.CountBound | server.go:115 | counted occurrences do not overlap: count times the key length is at most the payload length |
| GoStrings.CountConcat | server.go:115 | counting over two texts with no occurrence straddling the join is the sum of the two counts |
| GoStrings.Join | server.go:95 | the joined text has the parts' total length plus one separator between each two neighbours, and is empty for no parts |
| GoStrings.Split | server.go:116 | strings.Split on one byte yields at least one part and no part contains the separator |
| GoStrings.JoinSplit | server.go:116 | joining the parts of a split with the separator gives back the payload |
| GoStrings.SplitJoin | server.go:116 | splitting a join of separator-free parts gives back exactly those parts |
| GoStrings.LessIsStrictTotal | server.go:95 | the byte order used to sort query keys is irreflexive, asymmetric, transitive and total on distinct strings |
| Numerals.ScanDigits | server.go:79 | the digit loop is error-free exactly when every byte is a digit of the base and the value read fits in 64 unsigned bits, and then returns that value; a syntax error returns 0 and is reported only for a non-digit; a range error returns 2^64-1 |
| Numerals.ParseUint | server.go:79 | ParseUint succeeds exactly on a non-empty digit string whose value fits in 64 unsigned bits and returns that value; a syntax error (the empty string included) returns 0 and a range error 2^64-1 |
| Numerals.ParseInt | server.go:79 | ParseInt(s, 10, 64) succeeds exactly on an optionally signed decimal whose value fits in int64, and returns that value; a syntax error returns 0 and an out-of-range numeral returns the int64 bound on its sign's side |
| Numerals.HexNat | server.go:84 | %x of a non-negative value is lowercase hex digits with no prefix and no leading zero except for 0 itself |
| Numerals.FormatHex | server.go:84 | %x of an int64 starts with '-' exactly when the number is negative, and the rest is canonical lowercase hex with no "-0"; it starts with '0' only for 0 |
| Numerals.HexNatRoundTrip | server.go:84 | reading the %x digits of n in base 16 gives n |
| Numerals.HexNatCanonical | server.go:84 | every canonical lowercase hex text is the %x of its own value, so %x is the only such spelling |
| Numerals.FormatHexRoundTrip | server.go:84 | ParseInt(FormatHex(n), 16) returns n with no error for every int64 n, the least one included |
| Numerals.FormatHexExamples | server_test.go:72-74 | %x of 11508993, 14564562 and 980 is af9d01, de3cd2 and 3d4 |
| Numerals.SetStringBase0 | server.go:122-123 | SetString with base 0 parses exactly "0x" or "0X" followed by at least one hex digit of either case, to the base-16 value of those digits; a text is outside the model exactly when it is a prefixed text holding an underscore, or an unprefixed text starting with a sign or a digit; every other text is rejected |
| Numerals.SetStringHexRoundTrip | server.go:122-123 | SetString with base 0 reads "0x" followed by the %x of n back as n |
| UrlQuery.SortedKeys | server.go:95 | the keys Encode visits are every key of the query once, in strictly increasing byte order |
| UrlQuery.SortedUnique | server.go:95 | two strictly sorted lists of the same keys are equal, so the key order is determined by the key set |
| UrlQuery.Encode | server.go:95 | splitting the encoded text at '&' gives back exactly the key=value pairs in sorted key order; a query with no values encodes as the empty text |
| UrlQuery.RequestQuery | server.go:92-94 | Set replaces the tag and apikey values by the one given value each and leaves every other key and its values as in the fixed query |
| UrlQuery.QueryKeyOrder | server.go:90-95 | the query's keys are written as action, apikey, boolean, module, tag |
| UrlQuery.EncodeRequestQuery | server.go:92-95 | after setting tag and apikey, Encode writes the five key=value pairs in key order joined by '&' |
| UrlQuery.RequestLink | server.go:90-96 | the link is the etherscan endpoint, '?', then action=eth_getBlockByNumber, apikey=key, boolean=true, module=proxy, tag=hex joined by '&' |
| Analyzer.ValueTextWei | server.go:121-124 | a value fragment "value":"0x…" or "value":"0X…" with at least one hex digit is covered by the model and adds the base-16 value of its digits |
| Analyzer.ValueFieldWei | server.go:121-124 | the value field the JSON encoder writes for an amount of n wei adds exactly n |
| Analyzer.WeiTotalAppend | server.go:120-127 | the total over two consecutive runs of fragments is the sum of their totals, and a panic in either is a panic of the whole |
| Analyzer.WeiTotalPanics | server.go:120-127 | the loop panics exactly when some fragment panics |
| Analyzer.WeiTotalGrows | server.go:124 | the running total never decreases as fragments are added |
| Analyzer.ValueFieldsTotal | server.go:120-126 | fragments that are value fields "value":"0x…" of a list of amounts total exactly the sum of those amounts |
| Analyzer.NoValueFieldsTotal | server.go:120-126 | when no fragment is a value field the total is 0 |
| Analyzer.EmptyPayloadPanics | server.go:116-121 | an empty payload splits into one empty fragment, on which word[1:6] panics |
| Analyzer.Analyze | server.go:113-131 | the analysis panics exactly when the wei loop does; otherwise the wei is the loop's total, the transaction count is zero exactly when "blockHash" does not occur, and it is at most the payload length over the key length |
| Analyzer.AnalyzeFragments | server.go:115-126 | a payload made of comma-free fragments is analysed fragment by fragment: its total is the total over those fragments |
| Analyzer.AddFragment | server.go:120-124 | one pass of the loop body adds the fragment's wei to the running total, and panics exactly when the fragment does (a short fragment, a short value fragment, or a value text SetString rejects) |
| Analyzer.EthereumAnalyzer | server.go:113-131 | the loop over the split payload returns the transaction count and the wei total that Analyze specifies, or panics exactly when that specification does |
| Server.BlockNumberText | server.go:79 | the slice succeeds exactly when the first "/total" starts no earlier than six bytes past the first "block" (byte 5 when there is none), so a path without "/total", or with "/total" before that point, panics; otherwise the text is the bytes from that point up to the first "/total" |
| Server.ExtractBlock | server.go:79-84 | there is a result exactly when the slice does not panic; the stored number is what ParseInt(text, 10, 64) returns and the hex is its %x, which reads back to it in base 16 and needs no escaping; the request is bad exactly when the text is not an in-range signed decimal, and otherwise the number is the text's value |
| Server.LinkFor | server.go:87-96 | a link exists exactly when the path slice does not panic, and it is the endpoint, '?', and the five sorted pairs joined by '&' with the hex block number as the tag |
| Server.FormatHexUnreserved | server.go:93 | the hex tag set into the query consists only of characters QueryEscape leaves alone |
| Server.RouteBlockNumber | server.go:79 | in a path pre + "block/" + num + "/total" + post, with no earlier "block" or "/total", the sliced text is num |
| Server.NoTotalPanics | server.go:79 | a path without "/total" panics on the slice |
| Server.NoBlockStartsAtFive | server.go:79 | a path without "block" is sliced from byte 5 to the first "/total" |
| Server.ExtractWellFormed | server.go:79-84 | a path carrying an in-range decimal yields that number, its %x and no 400 |
| Server.Response.WriteHeader | server.go:56-58 | a WriteHeader call appends exactly its code to the record of calls |
| Server.Handler.constructor | server.go:45 | the block number starts at the int64 zero value |
| Server.Handler.GetBlockNumberInHex | server.go:78-85 | a panicking path changes nothing; otherwise the handler stores the parsed number, returns its hex, and appends 400 to the response exactly when parsing failed |
| Server.Handler.GetRequestLink | server.go:87-97 | returns the etherscan link for the path's hex block number and the given key, with the same state changes as GetBlockNumberInHex |
| Server.Handler.RequestHandler | server.go:103-111 | a panicking path changes nothing; otherwise the handler stores the parsed number and returns the analysis of the fetched payload, and WriteHeader is called with 400 when the block number was bad, then with 204 when the analysis found no transaction |
| Server.WriteDataToJSON | server.go:133-137 | returns the analysis of the payload and calls WriteHeader with 204 exactly when it found no transaction |

## Left out

- `main`, `gracefulShutdown` and `faviconHandler` (server.go:22-34, 99-101, 162-174). They start the HTTP server, handle signals and serve a file, all outside the model.
- `http.Get` and `ioutil.ReadAll` in `requestHandler` (server.go:105-108) are the `fetch` parameter of `Handler.RequestHandler`. Their failure, which ends the process through `handleError`, is not modelled.
- `getAPIKey` (server.go:71-76) reads a file; the key is a parameter instead.
- `weiToEther`, the `Amount` field and `Transaction` (server.go:49-54, 66-69, 129) divide with `big.Float`. The model stops at the integer wei total.
- `json.Marshal`, `ioutil.WriteFile`, `insertToDatabase` and `fmt.Fprintf` (server.go:139-160). Serialisation, file output, SQL and the response body are left out, so `WriteDataToJSON` models only the analysis and the 204.
- `handleError` (server.go:60-64) is only reached by the I/O above. The `url.Parse` of the fixed link (server.go:90) cannot fail; that link's query is the constant `UrlQuery.BASE_QUERY`.
- UrlQuery.RequestLink: stated only for a tag and key made of letters, digits and `-_.~`. Percent-escaping in `url.Values.Encode` is not modelled. Every hex tag meets this (`Server.FormatHexUnreserved`); the key is required to meet it (`Handler.GetRequestLink`, `Handler.RequestHandler`).
- Analyzer.FragmentWei: `SetString(t, 0)` is modelled for `0x`/`0X` hex text only. Value texts with a sign, a decimal, octal or binary form, or an underscore are excluded by the precondition `Modelled`. Text that is none of these is rejected, as in Go. `EthereumAnalyzer`, `WriteDataToJSON` and `RequestHandler` carry the same precondition.
- Go strings are byte sequences; the model uses one `char` per byte and does not model multi-byte text.
- `blockNumberGlobal` is shared by all concurrent requests in Go. The model has one `Handler` object and sequential calls, so races between requests are not modelled.
- A panic ends the request's goroutine, and the model returns `Panic`. A panic in the path slice comes before any state change, so the handler and the response are left as they were. A panic in the payload loop comes after `getRequestLink`, so the stored block number and any 400 already written remain (`Handler.RequestHandler`). Anything net/http writes after recovering from the panic is not modelled.
- `Response.statuses` records every `WriteHeader` call. In net/http only the first call sets the status (a later call is ignored with a "superfluous WriteHeader" log line), so when the block number is bad and the payload has no transaction the response status is 400, not 204. The effective status, which is the first recorded code or 200 when there is none, is not modelled as a separate value.
- The concrete request paths of server_test.go:67-69 are covered by `Server.ExtractWellFormed` together with `Numerals.FormatHexExamples`, not by a separate lemma on the literal paths.
