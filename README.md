# Magnet links (BEP 0053) in Dafny

This project models the magnet-link parser of the Go package `transmission`
and proves properties about it.

- `ParseMagnetLink` takes a `magnet:` URI apart into an eleven-field
  `MagnetLink`:
  - display names, exact topics (URNs), exact lengths, acceptable and exact
    sources, keyword and manifest topics, trackers, select-only ranges;
  - a lazily created map of experimental `x.<name>` parameters;
  - a lazily created map of unknown parameters, or a refusal of them in
    strict mode.
- `AsTorrent` turns such a link into a `TorrentMagnetLink` by decoding the
  BitTorrent info hash of every `urn:btih:` exact topic, from hex or base32.
- `ParseTorrentMagnetLink` chains the two.
- Underneath sit the URN parser (`ParseUrn`, `Urn.String`) and the numeric
  range parser (`ParseNumRangeFromString`).

Modules:

- `Wrappers` — `Option` and `Result`.
- `Text` — the pieces of Go's `strings` and `strconv` that the parsers use:
  ASCII lower-casing, `Split`/`Join` on one character, and `Atoi`/`Itoa` with
  int64 bounds.
- `Encoding` — `url.QueryUnescape` and `hex.DecodeString`/`EncodeToString`.
  The `as` and `tr` values are unescaped once more, after query decoding has
  already decoded them (magnet_link.go:97, 111). The model keeps this second
  decoding on purpose, because the parser does it.
- `Urns`, `NumRanges`, `Hashes` — `urn.go`, `num_range.go`, `hash.go`.
- `MagnetLinks` — the parse options, the parameter grammar, and the parser.
  The parser has two parts:
  - a loop, `ParseQuery`, which calls `AbsorbParam` once per parameter;
  - its declarative description. `IsParseOf` says what each field holds.
    `QueryError` says which parameter makes the parse fail.
- `TorrentMagnetLinks` — `AsTorrent` and `ParseTorrentMagnetLink`.

The loops of the Go code are methods with loop invariants. Each method is
proved against a specification function:

- `FoldOptions` against `StrictRequested`;
- `ParseQuery` against `LinkOf`, and through `LinkOfIsParse` against `IsParseOf`;
- `ParseEach`, `ParsePieces` and `ParseSelectOnly` against `ParsedValues` and `Ranges`;
- `AsTorrent` against `BtihTopics`, `DecodedAll` and `TorrentError`;
- `ParseNumRangeFromString` against `Atoi` and `Split`.

## Model

| member | source | states |
|---|---|---|
| Urns.ParseUrn | urn.go:36-54 | A wrong count of ':' (anything but two) is exactly the `WrongPartCount` failure, which is checked before the scheme. On success the URN holds the second and third parts verbatim. |
| Urns.Urn.ToString | urn.go:31-33 | When neither part holds ':', the rendering splits on ':' into "urn", nid and nss. |
| Urns.ParseUrnAccepts | urn.go:36-54 | A text parses iff it has exactly two ':' and the first follows a three-letter "urn" in any case. The parts then hold no ':' and, with the scheme, rebuild the input. |
| Urns.UrnRoundTrip | urn.go:31-54 | Parsing the rendering of a URN whose parts hold no ':' gives that URN back. |
| Urns.UrnReverseRoundTrip | urn.go:31-54 | A parsable text that starts with a lower-case "urn" is rendered back to itself. |
| NumRanges.NewSingleNumRange | num_range.go:24-27 | The range starts and ends at n and contains exactly n. |
| NumRanges.ParseNumRangeFromString | num_range.go:33-66 | As written: success iff there is no '-' and the text is an int, giving the one-point range. A failing number yields the zero range and its Atoi error. One '-' gives the first failing half's error with the partly filled range, else the fall-through error with both bounds set. Two or more '-' are malformed. |
| NumRanges.ParseNumRangeIntended | num_range.go:29-66 | As the format comment describes, with both bounds included on success. Without '-' it behaves as the single-number branch. With one '-' it fails with the Atoi error of the first half that does not parse, else gives the range from the first half's value to the second's, kept as given. Two or more '-' are malformed. |
| NumRanges.IntendedPair | num_range.go:29-32 | For non-negative int64 a and b, "a-b" parses to the range from a to b with both ends included, kept as given when a > b. It contains exactly the integers from a to b. |
| NumRanges.RangeDefectWitness | num_range.go:46-64 | "1-2" has one '-' and both halves parse, so the as-written parser reaches the fall-through error. The intended parser yields [1, 2]. |
| NumRanges.RangeDefectCall | num_range.go:46-64 | Called on "1-2", the as-written parser fills in both bounds and still returns the malformed-range error. The intended parser returns that same range. |
| MagnetLinks.StrictStep | magnet_link.go:56-61 | Each option that is not nil decides the flag; a nil option leaves it unchanged. |
| MagnetLinks.FoldOptions | magnet_link.go:56-61 | The resulting flag is true iff the last option that is not nil asks for strict mode. |
| MagnetLinks.IsXtParameter | magnet_link.go:152-167 | True iff the key is "xt", or "xt." followed by text that Atoi accepts. |
| MagnetLinks.IndexedTopicKeys | magnet_link.go:152-167 | "xt.<n>" is an exact-topic key for every int64 n, negative ones included. |
| MagnetLinks.TopicKeyExamples | magnet_link.go:152-167 | Rejects "xt.", "xt1" and "xt.a"; accepts "xt.+2", "xt.-2" and "xt.007". |
| MagnetLinks.ClassifyMeaning | magnet_link.go:76-146 | The contract of `MagnetLinks.Classify`, the if-chain on the lower-cased key. It says which keys take which branch: "x." alone is refused and "x.<name>" is experimental. Everything outside the nine names, the xt keys and the "x." prefix is unknown and keeps its key. |
| MagnetLinks.KeyCaseInsensitive | magnet_link.go:75-76 | A key and its lower-case form take the same branch. |
| MagnetLinks.Append | magnet_link.go:133-136 | The lazily created map always exists afterwards. It gains the key if it lacked it, the key's list is the old list (empty if none) followed by the new values, and every other key is unchanged. The same shape appears at lines 142-145. |
| MagnetLinks.ParseEach | magnet_link.go:80-86 | The value loop succeeds iff every value parses, and then yields each parsed value in order. |
| MagnetLinks.ParsePieces | magnet_link.go:120-126 | The piece loop succeeds iff every piece is a single int; the result is their one-point ranges in order. |
| MagnetLinks.ParseSelectOnly | magnet_link.go:117-127 | The same over all comma-separated pieces of all values. |
| MagnetLinks.AbsorbParam | magnet_link.go:77-146 | One loop iteration fails iff the parameter is at fault, and then with its error. Otherwise exactly the field of the key's branch gains the parameter's (parsed) values. |
| MagnetLinks.ParseQuery | magnet_link.go:73-149 | Fails iff some parameter is at fault, with the first such parameter's error in iteration order. Otherwise returns the in-order fold of all parameters. |
| MagnetLinks.ParseMagnetLink | magnet_link.go:55-150 | Fails on a rejected URI, then on a scheme other than "magnet" in any case, then at the first faulty parameter. Otherwise every field holds exactly the declarative description of the query. |
| MagnetLinks.LinkOfIsParse | magnet_link.go:73-149 | The link the loop folds satisfies the field-by-field description: list fields concatenate their kind's values in order, and maps are nil until a key lands. |
| MagnetLinks.ParseOfUnique | magnet_link.go:40-52 | At most one link fits the description of a query. |
| MagnetLinks.ParseOfIsLinkOf | magnet_link.go:73-149 | Any link fitting the description is the one the loop builds. |
| MagnetLinks.QueryErrorNone | magnet_link.go:73-149 | A query is accepted iff no single parameter is at fault. |
| MagnetLinks.FirstFailure | magnet_link.go:73-149 | The reported error is that of the first faulty parameter. |
| MagnetLinks.GroupedNone | magnet_link.go:133-145 | The experimental or unknown map stays nil iff no key of its group occurs. |
| MagnetLinks.StrictRejectsOnlyUnknowns | magnet_link.go:137-146 | Strict mode accepts a query iff lenient mode accepts it with a nil unknowns map. |
| MagnetLinks.ExperimentalKeys | magnet_link.go:128-136 | "x." alone fails in both modes; "x.<name>" is kept under name without error. |
| MagnetLinks.UnknownKey | magnet_link.go:137-146 | An unknown key fails in strict mode only; leniently its values land in the unknowns map under the key. |
| MagnetLinks.SelectOnlyDash | magnet_link.go:117-127 | A select-only piece containing '-' fails the parse in both modes. |
| MagnetLinks.UrnsOfParsed | magnet_link.go:79-86 | When all exact-topic values parse, the parsed list is their URNs in order. |
| TorrentMagnetLinks.DecodeInfoHash | magnet_link.go:178-200 | A length other than 32, 40, 56 or 64 is exactly the bad-length error. 32 and 40 characters give SHA-1 (tag "sha1"); 56 and 64 give SHA-256 (tag "sha256"). |
| TorrentMagnetLinks.InfoHashDigest | magnet_link.go:178-200 | A hex hash decodes iff all characters are hex digits, to half as many bytes that re-encode to the lower-cased text. A base32 hash decodes as the base32 decoder does. |
| TorrentMagnetLinks.HexInfoHashRoundTrip | magnet_link.go:183-194 | A 20- or 32-byte digest written in hex decodes back to itself with the matching type. |
| TorrentMagnetLinks.BtihTopics | magnet_link.go:172-173 | The selected topics are in the "btih" namespace in any case, at most as many as there are topics. |
| TorrentMagnetLinks.BtihTopicsMembers | magnet_link.go:172-173 | A topic is selected iff it is one of the link's topics and is btih. |
| TorrentMagnetLinks.BtihTopicsFilter | magnet_link.go:172-201 | Order is kept: each btih topic sits in the selection right after those selected from the topics before it. So the hashes come one per btih topic, in topic order. |
| TorrentMagnetLinks.BtihTopicsConcat | magnet_link.go:172-173 | Selection distributes over concatenation. With `BtihTopicsOne` (a lone topic is kept iff it is btih), this pins down the order-keeping filter. |
| TorrentMagnetLinks.AsTorrent | magnet_link.go:170-209 | Fails at the first btih topic that does not decode, else with the wrong-type error when there is none. Otherwise it keeps the link and holds each btih topic's decoded hash in order, at least one. |
| TorrentMagnetLinks.NoBtihWrongType | magnet_link.go:205-207 | A link with no btih topic is of the wrong type. |
| TorrentMagnetLinks.SingleHexTopic | magnet_link.go:170-209 | A link whose only topic is one hex-encoded btih URN gives exactly that hash. |
| TorrentMagnetLinks.ParseTorrentMagnetLink | magnet_link.go:227-233 | A parse error comes first and unchanged. Otherwise the result fails exactly as `AsTorrent` does on the parsed topics. On success it holds the parsed link and the decoded hashes. |
| Text.Atoi | magnet_link.go:89 | Success iff the text is an optional sign followed by digits and its value is within int64; the result is that value. A failure is a range error iff the text is such a number, or the digits before the first other character already exceed uint64. Otherwise it is a syntax error. |
| Text.AtoiStops | magnet_link.go:89 | Digits followed by another character fail with a range error iff the digits alone exceed uint64, and otherwise with a syntax error. |
| Text.AtoiOverflowFirst | magnet_link.go:89 | Twenty nines then a letter is a range error; nineteen nines then a letter is a syntax error. |
| Text.Lower | magnet_link.go:76 | Same length, no upper-case ASCII letter left, each upper-case letter moved to its lower-case partner, every other character kept. Also used at magnet_link.go:68 and 173 and urn.go:47. |
| Text.LowerIdempotent | magnet_link.go:76 | Lower-casing twice is lower-casing once. |
| Text.AtoiItoa | magnet_link.go:89 | Every int64 survives rendering and parsing. |
| Text.Split | urn.go:37 | n occurrences of the separator give n + 1 parts, none holding it. |
| Text.JoinSplit | urn.go:37 | Joining the parts of a split gives the text back. |
| Text.SplitJoin | urn.go:31-37 | Splitting a join of separator-free parts gives the parts back. |
| Encoding.Unescape | magnet_link.go:97 | Succeeds iff every '%' opens a two-hex-digit escape. The result is never longer than the input. |
| Encoding.UnescapeEscape | magnet_link.go:97 | Unescaping a fully percent-encoded byte string gives it back. |
| Encoding.UnescapePlain | magnet_link.go:111 | A value with no '%' and no '+' is unchanged. |
| Encoding.HexDecode | magnet_link.go:186 | Succeeds iff the length is even and every character is a hex digit, giving half as many bytes. Also used at line 194. |
| Encoding.HexDecodeEncode | magnet_link.go:186 | Decoding the hex encoding of bytes gives them back. |
| Encoding.HexEncodeDecode | magnet_link.go:194 | Encoding what hex decoding produced gives the lower-cased input. |

## Left out

- `url.Parse` and `URL.Query` are not modelled. The parser receives their outcome: `None` when the URI was rejected, otherwise the scheme and the decoded query parameters.
- Go map iteration order is unspecified. The query is a sequence in an arbitrary order, and every property holds for every order.
- `base32.StdEncoding.DecodeString` is a function parameter supplied by the caller.
- `strings.ToLower` is modelled on ASCII letters only; other Unicode case mappings are not.
- Go strings are byte strings. A `char` below 256 stands for one byte, and UTF-8 is not modelled.
- Errors are kinds (`MalformedReason`, `UrnError`, `NumRangeError`). Wrapped causes and message texts are dropped, except the `strconv` error kind of a range.
- `ParseUrn` returns no zero `Urn` beside an error, because the `Result` carries one or the other.
- `int` is taken to be 64 bits, which are the bounds of `Atoi`.
- `TorrentMagnetLink` embeds a pointer to the link. The model stores the link's value, so sharing and later mutation through the pointer are not captured.
- The parameter loop and its inner value loops are separate methods (`AbsorbParam`, `ParseEach`, `ParsePieces`, `ParseSelectOnly`). Each runs the same iterations in the same order.
- `MagnetLinks.ParseMagnetLink` keeps the range parser as written, so any `so` piece with '-' fails (`SelectOnlyDash`). That is the behaviour of the repository. The corrected parser stands beside it with its own proof.

## Findings

| source | as written | input that shows it | evidently intended | confidence | as-written member | corrected member |
|---|---|---|---|---|---|---|
| num_range.go:46-64 | The two-segment branch sets both bounds but does not return, so it falls through to the "Malformed num range string" error. No "a-b" range is ever accepted. | "1-2" | "1-2" yields the inclusive range from 1 to 2, as the `\d+\-\d+` format comment says. | not executed | NumRanges.ParseNumRangeFromString (with NumRanges.RangeDefectWitness) | NumRanges.ParseNumRangeIntended (with NumRanges.IntendedPair) |
