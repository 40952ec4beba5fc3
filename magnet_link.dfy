/**
 * Magnet links (BEP 0053): the parameter grammar, the parse options and the
 * parser that folds a decoded query into a `MagnetLink`.
 *
 * The generic URI parsing and query decoding of Go's `net/url` happen before
 * this model starts: the parser receives the outcome of `url.Parse` (`None`
 * when it failed) with the scheme and the decoded query, one `QueryParam` per
 * distinct raw key in the order the map happens to be iterated.
 */
module MagnetLinks {
  import opened Wrappers
  import opened Text
  import opened Encoding
  import opened Urns
  import opened NumRanges

  // ================================================================ input and result

  datatype QueryParam = QueryParam(key: string, values: seq<string>)

  datatype Uri = Uri(scheme: string, query: seq<QueryParam>)

  datatype MagnetLink = MagnetLink(
    displayNames: seq<string>,                        // dn
    exactTopics: seq<Urn>,                            // xt, xt.<n>
    exactLengths: seq<int>,                           // xl
    acceptableSources: seq<string>,                   // as
    exactSources: seq<string>,                        // xs
    keywordTopics: seq<string>,                       // kt
    manifestTopics: seq<string>,                      // mt
    trackers: seq<string>,                            // tr
    selectOnly: seq<NumRange>,                        // so
    experimental: Option<map<string, seq<string>>>,   // x.<name>, nil until one appears
    unknowns: Option<map<string, seq<string>>>)       // anything else, nil until one appears

  const EMPTY_LINK := MagnetLink([], [], [], [], [], [], [], [], [], None, None)

  /** The sub-reasons of "Malformed magnet link". */
  datatype MalformedReason =
    | InvalidUri | InvalidScheme
    | InvalidXt | InvalidXl | InvalidAs | InvalidTr | InvalidSo
    | InvalidExperimental | UnknownParameter
    | BadBtihLength | BadBtihEncoding

  datatype MagnetError =
    | Malformed(reason: MalformedReason)   // ErrMalformedMagnetLink
    | WrongType                            // ErrWrongMagnetLinkType

  // ================================================================ options

  /** `WithMagnetLinkParseStrictOption(strict)`; a nil option is `None`. */
  datatype ParseOption = StrictOption(strict: bool)

  /** Strict mode is on when the last option that is not nil asks for it. */
  predicate StrictRequested(opts: seq<Option<ParseOption>>) {
    exists i :: 0 <= i < |opts| && opts[i] == Some(StrictOption(true)) &&
      forall j :: i < j < |opts| ==> opts[j].None?
  }

  lemma StrictStep(opts: seq<Option<ParseOption>>, k: nat)
    requires k < |opts|
    ensures StrictRequested(opts[..k + 1]) ==
      if opts[k].Some? then opts[k].value.strict else StrictRequested(opts[..k])
  {
    var p, p' := opts[..k], opts[..k + 1];
    if opts[k].Some? {
      if opts[k].value.strict {
        assert p'[k] == Some(StrictOption(true));
      } else {
        forall i | 0 <= i < |p'| && p'[i] == Some(StrictOption(true))
          ensures !(forall j :: i < j < |p'| ==> p'[j].None?)
        {
          assert p'[k] == opts[k];
        }
      }
    } else {
      if StrictRequested(p) {
        var i :| 0 <= i < |p| && p[i] == Some(StrictOption(true)) &&
          forall j :: i < j < |p| ==> p[j].None?;
        assert p'[i] == p[i] && forall j :: i < j < |p'| ==> p'[j].None?;
      }
      if StrictRequested(p') {
        var i :| 0 <= i < |p'| && p'[i] == Some(StrictOption(true)) &&
          forall j :: i < j < |p'| ==> p'[j].None?;
        assert i < k && p[i] == p'[i] && forall j :: i < j < |p| ==> p[j] == p'[j];
      }
    }
  }

  /** The option loop of `ParseMagnetLink`: every option that is not nil overwrites the flag. */
  method FoldOptions(opts: seq<Option<ParseOption>>) returns (strict: bool)
    ensures strict == StrictRequested(opts)
  {
    strict := false;
    for k := 0 to |opts|
      invariant strict == StrictRequested(opts[..k])
    {
      StrictStep(opts, k);
      if opts[k].Some? {
        strict := opts[k].value.strict;
      }
    }
    assert opts[..|opts|] == opts;
  }

  // ================================================================ the parameter grammar

  /** The closed set of parameter kinds the parser dispatches on. */
  datatype ParamKind =
    | DisplayName | ExactTopic | ExactLength | AcceptableSource | ExactSource
    | KeywordTopic | ManifestTopic | Tracker | SelectOnly
    | Experimental(name: string)   // "x.<name>" with a non-empty name
    | BadExperimental              // "x." alone
    | Unknown(key: string)

  /**
   * `checkIsMagnetLinkXTParameter`: "xt", or "xt." followed by text that
   * `strconv.Atoi` accepts (so a sign is allowed and "xt." alone is not).
   */
  function IsXtParameter(key: string): (r: bool)
    ensures r <==> key == "xt" || (|key| >= 4 && key[..3] == "xt." && Atoi(key[3..]).Success?)
  {
    if !HasPrefix(key, "xt") then false
    else if key == "xt" then true
    else if |key| < 4 then false
    else if key[2] != '.' then false
    else Atoi(key[3..]).Success?
  }

  /** "xt.<n>" is an exact-topic key for every int64 n, whatever its sign. */
  lemma IndexedTopicKeys(n: int)
    requires MIN_INT <= n <= MAX_INT
    ensures IsXtParameter("xt." + Itoa(n))
  {
    AtoiItoa(n);
    var key := "xt." + Itoa(n);
    assert key[3..] == Itoa(n);
  }

  lemma TopicKeyExamples()
    ensures !IsXtParameter("xt.") && !IsXtParameter("xt1") && !IsXtParameter("xt.a")
    ensures IsXtParameter("xt.+2") && IsXtParameter("xt.-2") && IsXtParameter("xt.007")
  {
    assert "xt.+2"[3..] == "+2" && "xt.-2"[3..] == "-2" && "xt.007"[3..] == "007";
    assert "xt.a"[3..] == "a";
    assert DigitsValue("2") == 2 && DigitsValue("007") == 7 by {
      assert "007"[..2] == "00" && "00"[..1] == "0";
    }
  }

  /**
   * The dispatch chain of `ParseMagnetLink` on an already lower-cased key,
   * tried in the source's order.
   */
  function Classify(key: string): ParamKind {
    if key == "dn" then DisplayName
    else if IsXtParameter(key) then ExactTopic
    else if key == "xl" then ExactLength
    else if key == "as" then AcceptableSource
    else if key == "xs" then ExactSource
    else if key == "kt" then KeywordTopic
    else if key == "mt" then ManifestTopic
    else if key == "tr" then Tracker
    else if key == "so" then SelectOnly
    else if HasPrefix(key, "x.") then
      if |key| <= 2 then BadExperimental else Experimental(key[2..])
    else Unknown(key)
  }

  /**
   * Which keys land in which kind: the exact-topic keys are those of
   * `IsXtParameter`, "x." alone is refused, "x.<name>" is experimental, and
   * every key outside the nine known names and the "x." prefix is unknown.
   */
  lemma ClassifyMeaning(key: string)
    ensures Classify(key) == ExactTopic <==> IsXtParameter(key)
    ensures Classify(key) == BadExperimental <==> key == "x."
    ensures Classify(key).Experimental? <==> |key| > 2 && key[..2] == "x."
    ensures Classify(key).Experimental? ==> Classify(key).name != "" && key == "x." + Classify(key).name
    ensures Classify(key).Unknown? <==>
      && key !in {"dn", "xl", "as", "xs", "kt", "mt", "tr", "so"}
      && !IsXtParameter(key) && !HasPrefix(key, "x.")
    ensures Classify(key).Unknown? ==> Classify(key).key == key
  {
  }

  /** Keys are lower-cased before they are classified. */
  function KindOf(p: QueryParam): ParamKind {
    Classify(Lower(p.key))
  }

  // ================================================================ what a parse yields

  /** A parameter as the dispatch sees it: the kind of its lower-cased key, and its values. */
  datatype Entry = Entry(kind: ParamKind, values: seq<string>)

  /** The query as the loop visits it, one entry per parameter, in iteration order. */
  function Entries(q: seq<QueryParam>): (es: seq<Entry>)
    ensures |es| == |q|
  {
    seq(|q|, j requires 0 <= j < |q| => Entry(KindOf(q[j]), q[j].values))
  }

  /** The values of every entry of the given kind, in query order, each key's values in order. */
  function Gather(es: seq<Entry>, kind: ParamKind): seq<string> {
    if es == [] then []
    else Gather(es[..|es| - 1], kind) + (if es[|es| - 1].kind == kind then es[|es| - 1].values else [])
  }

  predicate AllParse<T, E>(values: seq<string>, parse: string -> Result<T, E>) {
    forall j :: 0 <= j < |values| ==> parse(values[j]).Success?
  }

  /** `out` holds what `parse` makes of each value, in order. */
  predicate ParsedAll<T(==), E>(values: seq<string>, parse: string -> Result<T, E>, out: seq<T>) {
    |out| == |values| &&
    forall j :: 0 <= j < |values| ==> parse(values[j]).Success? && parse(values[j]).value == out[j]
  }

  /** The comma-separated pieces of all select-only values, in order. */
  function SplitAll(values: seq<string>): seq<string> {
    if values == [] then []
    else SplitAll(values[..|values| - 1]) + Split(values[|values| - 1], ',')
  }

  /** The pieces the as-written range parser accepts: a single number, no '-'. */
  predicate IsSingleNumber(s: string) {
    '-' !in s && Atoi(s).Success?
  }

  predicate AllSingleNumbers(pieces: seq<string>) {
    forall j :: 0 <= j < |pieces| ==> IsSingleNumber(pieces[j])
  }

  predicate SingleRanges(pieces: seq<string>, ranges: seq<NumRange>) {
    |ranges| == |pieces| &&
    forall j :: 0 <= j < |pieces| ==>
      IsSingleNumber(pieces[j]) && ranges[j] == NewSingleNumRange(Atoi(pieces[j]).value)
  }

  /** The two open-ended groups of parameters, kept in maps. */
  datatype Group = ExperimentalGroup | UnknownGroup

  function GroupKey(k: ParamKind, g: Group): Option<string> {
    if g == ExperimentalGroup && k.Experimental? then Some(k.name)
    else if g == UnknownGroup && k.Unknown? then Some(k.key)
    else None
  }

  function GroupKind(g: Group, name: string): ParamKind {
    if g == ExperimentalGroup then Experimental(name) else Unknown(name)
  }

  function GroupNames(es: seq<Entry>, g: Group): set<string> {
    set j | 0 <= j < |es| && GroupKey(es[j].kind, g).Some? :: GroupKey(es[j].kind, g).value
  }

  /** nil when no entry of the group occurs; otherwise each name's gathered values. */
  function Grouped(es: seq<Entry>, g: Group): Option<map<string, seq<string>>> {
    var names := GroupNames(es, g);
    if names == {} then None
    else Some(map name | name in names :: Gather(es, GroupKind(g, name)))
  }

  /** The declarative meaning of a successful parse of the entries `es`. */
  predicate IsParseOf(link: MagnetLink, es: seq<Entry>) {
    && link.displayNames == Gather(es, DisplayName)
    && ParsedAll(Gather(es, ExactTopic), ParseUrn, link.exactTopics)
    && ParsedAll(Gather(es, ExactLength), Atoi, link.exactLengths)
    && ParsedAll(Gather(es, AcceptableSource), Unescape, link.acceptableSources)
    && link.exactSources == Gather(es, ExactSource)
    && link.keywordTopics == Gather(es, KeywordTopic)
    && link.manifestTopics == Gather(es, ManifestTopic)
    && ParsedAll(Gather(es, Tracker), Unescape, link.trackers)
    && SingleRanges(SplitAll(Gather(es, SelectOnly)), link.selectOnly)
    && link.experimental == Grouped(es, ExperimentalGroup)
    && link.unknowns == Grouped(es, UnknownGroup)
  }

  /** What entry `e` adds to a list of raw values of the given kind. */
  function Contribution(e: Entry, kind: ParamKind): seq<string> {
    if e.kind == kind then e.values else []
  }

  /** What `parse` makes of each value, when every value parses. */
  function ParsedValues<T(==), E>(values: seq<string>, parse: string -> Result<T, E>): (out: seq<T>)
    requires AllParse(values, parse)
    ensures ParsedAll(values, parse, out)
  {
    seq(|values|, j requires 0 <= j < |values| => parse(values[j]).value)
  }

  /** The one-point ranges of pieces that are all single numbers. */
  function Ranges(pieces: seq<string>): (out: seq<NumRange>)
    requires AllSingleNumbers(pieces)
    ensures SingleRanges(pieces, out)
  {
    seq(|pieces|, j requires 0 <= j < |pieces| => NewSingleNumRange(Atoi(pieces[j]).value))
  }

  /** A group's map gains `e`'s values under its name when `e` belongs to the group. */
  function GroupStep(m: Option<map<string, seq<string>>>, e: Entry, g: Group): Option<map<string, seq<string>>> {
    match GroupKey(e.kind, g)
    case None => m
    case Some(name) => Append(m, name, e.values)
  }

  /**
   * One pass of the parameter loop's switch on an entry that causes no
   * error: the field its kind selects gains the entry's values, parsed
   * where the field holds parsed values.
   */
  function Absorb(link: MagnetLink, e: Entry): MagnetLink
    requires EntryError(e, false).None?
  {
    var values := e.values;
    match e.kind
    case DisplayName => link.(displayNames := link.displayNames + values)
    case ExactTopic => link.(exactTopics := link.exactTopics + ParsedValues(values, ParseUrn))
    case ExactLength => link.(exactLengths := link.exactLengths + ParsedValues(values, Atoi))
    case AcceptableSource => link.(acceptableSources := link.acceptableSources + ParsedValues(values, Unescape))
    case ExactSource => link.(exactSources := link.exactSources + values)
    case KeywordTopic => link.(keywordTopics := link.keywordTopics + values)
    case ManifestTopic => link.(manifestTopics := link.manifestTopics + values)
    case Tracker => link.(trackers := link.trackers + ParsedValues(values, Unescape))
    case SelectOnly => link.(selectOnly := link.selectOnly + Ranges(SplitAll(values)))
    case Experimental(name) => link.(experimental := Append(link.experimental, name, values))
    case Unknown(key) => link.(unknowns := Append(link.unknowns, key, values))
  }

  /** The link the parameter loop builds from entries that cause no error, absorbed in order. */
  function LinkOf(es: seq<Entry>): MagnetLink
    requires QueryError(es, false).None?
  {
    if es == [] then EMPTY_LINK
    else Absorb(LinkOf(es[..|es| - 1]), es[|es| - 1])
  }

  // ================================================================ what makes a parse fail

  /** The error one entry causes, if any. */
  function EntryError(e: Entry, strict: bool): Option<MagnetError> {
    var values := e.values;
    match e.kind
    case ExactTopic => if AllParse(values, ParseUrn) then None else Some(Malformed(InvalidXt))
    case ExactLength => if AllParse(values, Atoi) then None else Some(Malformed(InvalidXl))
    case AcceptableSource => if AllParse(values, Unescape) then None else Some(Malformed(InvalidAs))
    case Tracker => if AllParse(values, Unescape) then None else Some(Malformed(InvalidTr))
    case SelectOnly =>
      if AllSingleNumbers(SplitAll(values)) then None else Some(Malformed(InvalidSo))
    case BadExperimental => Some(Malformed(InvalidExperimental))
    case Unknown(_) => if strict then Some(Malformed(UnknownParameter)) else None
    case _ => None
  }

  /** The error of the first failing entry in query order. */
  function QueryError(es: seq<Entry>, strict: bool): Option<MagnetError> {
    if es == [] then None
    else
      var e := QueryError(es[..|es| - 1], strict);
      if e.Some? then e else EntryError(es[|es| - 1], strict)
  }

  /** Why `ParseMagnetLink` fails, if it does: URI, then scheme, then the parameters. */
  function ParseError(parsed: Option<Uri>, opts: seq<Option<ParseOption>>): Option<MagnetError> {
    if parsed.None? then Some(Malformed(InvalidUri))
    else if Lower(parsed.value.scheme) != "magnet" then Some(Malformed(InvalidScheme))
    else QueryError(Entries(parsed.value.query), StrictRequested(opts))
  }

  // ================================================================ the parser

  /** One of the value loops of `ParseMagnetLink`: parse each value, stop at the first failure. */
  method ParseEach<T(==), E>(values: seq<string>, parse: string -> Result<T, E>) returns (r: Option<seq<T>>)
    ensures r.Some? <==> AllParse(values, parse)
    ensures r.Some? ==> r.value == ParsedValues(values, parse)
  {
    var out: seq<T> := [];
    for j := 0 to |values|
      invariant ParsedAll(values[..j], parse, out)
    {
      var x := parse(values[j]);
      if x.Failure? {
        return None;
      }
      out := out + [x.value];
    }
    assert values[..|values|] == values;
    assert out == ParsedValues(values, parse);
    return Some(out);
  }

  /** The inner select-only loop: parse every comma-separated piece of one value as a range. */
  method ParsePieces(strs: seq<string>) returns (r: Option<seq<NumRange>>)
    ensures r.Some? <==> AllSingleNumbers(strs)
    ensures r.Some? ==> r.value == Ranges(strs)
  {
    var ranges: seq<NumRange> := [];
    for n := 0 to |strs|
      invariant SingleRanges(strs[..n], ranges)
    {
      var numRange, err := ParseNumRangeFromString(strs[n]);
      if err.Some? {
        return None;
      }
      SingleRangesSnoc(strs, n, ranges, numRange);
      ranges := ranges + [numRange];
    }
    assert strs[..|strs|] == strs;
    RangesOf(strs, ranges);
    return Some(ranges);
  }

  /** The select-only loop: split each value on ',' and parse every piece as a range. */
  method ParseSelectOnly(values: seq<string>) returns (r: Option<seq<NumRange>>)
    ensures r.Some? <==> AllSingleNumbers(SplitAll(values))
    ensures r.Some? ==> r.value == Ranges(SplitAll(values))
  {
    var ranges: seq<NumRange> := [];
    for m := 0 to |values|
      invariant SingleRanges(SplitAll(values[..m]), ranges)
    {
      var strs := Split(values[m], ',');
      var pieces := ParsePieces(strs);
      if pieces.None? {
        var n :| 0 <= n < |strs| && !IsSingleNumber(strs[n]);
        PieceAt(values, m, n);
        return None;
      }
      SplitAllPrefix(values, m);
      SingleRangesConcat(SplitAll(values[..m]), strs, ranges, pieces.value);
      ranges := ranges + pieces.value;
    }
    assert values[..|values|] == values;
    RangesOf(SplitAll(values), ranges);
    return Some(ranges);
  }

  /** Piece `n` of value `m` sits at its place in the pieces of all values. */
  lemma PieceAt(values: seq<string>, m: nat, n: nat)
    requires m < |values| && n < |Split(values[m], ',')|
    ensures |SplitAll(values[..m])| + n < |SplitAll(values)|
    ensures SplitAll(values)[|SplitAll(values[..m])| + n] == Split(values[m], ',')[n]
  {
    assert values == values[..m] + [values[m]] + values[m + 1..];
    SplitAllAround(values[..m], values[m], values[m + 1..]);
    var before, strs, after := SplitAll(values[..m]), Split(values[m], ','), SplitAll(values[m + 1..]);
    assert (before + strs + after)[|before| + n] == strs[n];
  }

  lemma SplitAllPrefix(values: seq<string>, m: nat)
    requires m < |values|
    ensures SplitAll(values[..m + 1]) == SplitAll(values[..m]) + Split(values[m], ',')
  {
    assert values[..m + 1][..m] == values[..m];
  }

  /** The pieces of all values are those before a value, then that value's, then those after. */
  lemma SplitAllAround(a: seq<string>, v: string, b: seq<string>)
    ensures SplitAll(a + [v] + b) == SplitAll(a) + Split(v, ',') + SplitAll(b)
  {
    SplitAllConcat(a + [v], b);
    assert (a + [v])[..|a|] == a;
  }

  lemma SingleRangesSnoc(strs: seq<string>, n: nat, ranges: seq<NumRange>, r: NumRange)
    requires n < |strs| && SingleRanges(strs[..n], ranges)
    requires IsSingleNumber(strs[n]) && r == NewSingleNumRange(Atoi(strs[n]).value)
    ensures SingleRanges(strs[..n + 1], ranges + [r])
  {
    assert strs[..n + 1] == strs[..n] + [strs[n]];
  }

  /** The ranges of pieces that are all single numbers are `Ranges` of them. */
  lemma RangesOf(pieces: seq<string>, ranges: seq<NumRange>)
    requires SingleRanges(pieces, ranges)
    ensures AllSingleNumbers(pieces) && ranges == Ranges(pieces)
  {
  }

  /** The lazy creation and append of `Exps[key]` / `Unknowns[key]`. */
  function Append(m: Option<map<string, seq<string>>>, key: string, values: seq<string>)
    : (r: Option<map<string, seq<string>>>)
    ensures r.Some? && key in r.value
    ensures r.value.Keys == (if m.None? then {} else m.value.Keys) + {key}
    ensures r.value[key] == (if m.Some? && key in m.value then m.value[key] else []) + values
    ensures m.Some? ==> forall k :: k in m.value && k != key ==> r.value[k] == m.value[k]
  {
    var base := if m.None? then map[] else m.value;
    Some(base[key := (if key in base then base[key] else []) + values])
  }

  /**
   * One iteration of the parameter loop of `ParseMagnetLink`: dispatch on the
   * kind of the lower-cased key and fold the parameter's values into `link`, or fail with
   * the error this parameter causes.
   */
  method AbsorbParam(link: MagnetLink, e: Entry, strict: bool)
    returns (r: Result<MagnetLink, MagnetError>)
    ensures r.Failure? <==> EntryError(e, strict).Some?
    ensures r.Failure? ==> r.error == EntryError(e, strict).value
    ensures r.Success? ==> EntryError(e, false).None? && r.value == Absorb(link, e)
  {
    var values := e.values;
    match e.kind {
      case DisplayName =>
        r := Success(link.(displayNames := link.displayNames + values));
      case ExactTopic =>
        var topics := ParseEach(values, ParseUrn);
        if topics.None? {
          return Failure(Malformed(InvalidXt));
        }
        r := Success(link.(exactTopics := link.exactTopics + topics.value));
      case ExactLength =>
        var lengths := ParseEach(values, Atoi);
        if lengths.None? {
          return Failure(Malformed(InvalidXl));
        }
        r := Success(link.(exactLengths := link.exactLengths + lengths.value));
      case AcceptableSource =>
        var sources := ParseEach(values, Unescape);
        if sources.None? {
          return Failure(Malformed(InvalidAs));
        }
        r := Success(link.(acceptableSources := link.acceptableSources + sources.value));
      case ExactSource =>
        r := Success(link.(exactSources := link.exactSources + values));
      case KeywordTopic =>
        r := Success(link.(keywordTopics := link.keywordTopics + values));
      case ManifestTopic =>
        r := Success(link.(manifestTopics := link.manifestTopics + values));
      case Tracker =>
        var trackers := ParseEach(values, Unescape);
        if trackers.None? {
          return Failure(Malformed(InvalidTr));
        }
        r := Success(link.(trackers := link.trackers + trackers.value));
      case SelectOnly =>
        var ranges := ParseSelectOnly(values);
        if ranges.None? {
          return Failure(Malformed(InvalidSo));
        }
        r := Success(link.(selectOnly := link.selectOnly + ranges.value));
      case BadExperimental =>
        r := Failure(Malformed(InvalidExperimental));
      case Experimental(name) =>
        r := Success(link.(experimental := Append(link.experimental, name, values)));
      case Unknown(k) =>
        if strict {
          return Failure(Malformed(UnknownParameter));
        }
        r := Success(link.(unknowns := Append(link.unknowns, k, values)));
    }
  }

  /**
   * `ParseMagnetLink`: fails on a URI `url.Parse` rejected, on a scheme other
   * than "magnet" in any case, and at the first parameter (in iteration order)
   * whose values do not parse; otherwise the link holds exactly what
   * `IsParseOf` describes. Nothing partial is ever returned.
   */
  method ParseMagnetLink(parsed: Option<Uri>, opts: seq<Option<ParseOption>>)
    returns (r: Result<MagnetLink, MagnetError>)
    ensures r.Failure? <==> ParseError(parsed, opts).Some?
    ensures r.Failure? ==> r.error == ParseError(parsed, opts).value
    ensures r.Success? ==> IsParseOf(r.value, Entries(parsed.value.query))
  {
    var strict := FoldOptions(opts);
    if parsed.None? {
      return Failure(Malformed(InvalidUri));
    }
    var u := parsed.value;
    if Lower(u.scheme) != "magnet" {
      return Failure(Malformed(InvalidScheme));
    }
    r := ParseQuery(u.query, strict);
    if r.Success? {
      LinkOfIsParse(Entries(u.query));
    }
  }

  /** The parameter loop of `ParseMagnetLink`, in the order the query map is iterated. */
  method ParseQuery(q: seq<QueryParam>, strict: bool) returns (r: Result<MagnetLink, MagnetError>)
    ensures r.Failure? <==> QueryError(Entries(q), strict).Some?
    ensures r.Failure? ==> r.error == QueryError(Entries(q), strict).value
    ensures r.Success? ==> QueryError(Entries(q), false).None? && r.value == LinkOf(Entries(q))
  {
    var link := EMPTY_LINK;
    var i := 0;
    ghost var es: seq<Entry> := [];
    while i < |q|
      invariant 0 <= i <= |q|
      invariant es == Entries(q[..i])
      invariant QueryError(es, strict).None? && QueryError(es, false).None?
      invariant link == LinkOf(es)
    {
      var e := Entry(Classify(Lower(q[i].key)), q[i].values);
      var next := AbsorbParam(link, e, strict);
      if next.Failure? {
        QueryErrorAt(q, i, strict);
        return Failure(next.error);
      }
      link := next.value;
      LinkOfSnoc(es, e);
      QueryErrorSnoc(es, e, strict);
      EntriesSnoc(q, i);
      es := es + [e];
      i := i + 1;
    }
    assert q[..|q|] == q;
    return Success(link);
  }

  // ================================================================ lemmas behind the parser

  lemma EntriesSnoc(q: seq<QueryParam>, i: nat)
    requires i < |q|
    ensures Entries(q[..i + 1]) == Entries(q[..i]) + [Entry(KindOf(q[i]), q[i].values)]
  {
    assert q[..i + 1][..i] == q[..i];
  }

  lemma GatherSnoc(es: seq<Entry>, e: Entry, kind: ParamKind)
    ensures Gather(es + [e], kind) == Gather(es, kind) + Contribution(e, kind)
  {
    assert (es + [e])[..|es|] == es;
  }

  lemma {:induction false} SplitAllConcat(a: seq<string>, b: seq<string>)
    ensures SplitAll(a + b) == SplitAll(a) + SplitAll(b)
    decreases |b|
  {
    if b != [] {
      var b' := b[..|b| - 1];
      SplitAllConcat(a, b');
      assert (a + b)[..|a + b| - 1] == a + b';
      assert (a + b)[|a + b| - 1] == b[|b| - 1];
      assert SplitAll(a + b) == SplitAll(a + b') + Split(b[|b| - 1], ',');
      assert SplitAll(b) == SplitAll(b') + Split(b[|b| - 1], ',');
    } else {
      assert a + b == a;
    }
  }

  lemma SplitAllSnoc(es: seq<Entry>, e: Entry)
    requires e.kind == SelectOnly
    ensures SplitAll(Gather(es + [e], SelectOnly)) == SplitAll(Gather(es, SelectOnly)) + SplitAll(e.values)
  {
    GatherSnoc(es, e, SelectOnly);
    SplitAllConcat(Gather(es, SelectOnly), e.values);
  }

  lemma QueryErrorSnoc(es: seq<Entry>, e: Entry, strict: bool)
    ensures QueryError(es + [e], strict) ==
      if QueryError(es, strict).Some? then QueryError(es, strict) else EntryError(e, strict)
  {
    assert (es + [e])[..|es|] == es;
  }

  lemma {:induction false} QueryErrorPrefix(p: seq<Entry>, s: seq<Entry>, strict: bool)
    requires QueryError(p, strict).Some?
    ensures QueryError(p + s, strict) == QueryError(p, strict)
    decreases |s|
  {
    if s != [] {
      var s' := s[..|s| - 1];
      QueryErrorPrefix(p, s', strict);
      assert (p + s)[..|p + s| - 1] == p + s';
    } else {
      assert p + s == p;
    }
  }

  /** When the entries before `k` are fine and the one at `k` is not, its error is the query's. */
  lemma QueryErrorFirst(es: seq<Entry>, k: nat, strict: bool)
    requires k < |es| && QueryError(es[..k], strict).None? && EntryError(es[k], strict).Some?
    ensures QueryError(es, strict) == EntryError(es[k], strict)
  {
    QueryErrorSnoc(es[..k], es[k], strict);
    assert es[..k + 1] == es[..k] + [es[k]];
    QueryErrorPrefix(es[..k + 1], es[k + 1..], strict);
    assert es[..k + 1] + es[k + 1..] == es;
  }

  /** The same, for the parameter at `i` of the query. */
  lemma QueryErrorAt(q: seq<QueryParam>, i: nat, strict: bool)
    requires i < |q|
    requires QueryError(Entries(q[..i]), strict).None?
    requires EntryError(Entry(KindOf(q[i]), q[i].values), strict).Some?
    ensures QueryError(Entries(q), strict) == EntryError(Entry(KindOf(q[i]), q[i].values), strict)
  {
    assert Entries(q)[..i] == Entries(q[..i]);
    QueryErrorFirst(Entries(q), i, strict);
  }

  lemma GroupNamesSnoc(es: seq<Entry>, e: Entry, g: Group)
    ensures var key := GroupKey(e.kind, g);
      GroupNames(es + [e], g) == GroupNames(es, g) + (if key.Some? then {key.value} else {})
  {
    var es' := es + [e];
    var key := GroupKey(e.kind, g);
    forall n | n in GroupNames(es', g)
      ensures n in GroupNames(es, g) + (if key.Some? then {key.value} else {})
    {
      var j :| 0 <= j < |es'| && GroupKey(es'[j].kind, g).Some? && GroupKey(es'[j].kind, g).value == n;
      if j < |es| {
        assert es[j] == es'[j];
      }
    }
    forall n | n in GroupNames(es, g) ensures n in GroupNames(es', g) {
      var j :| 0 <= j < |es| && GroupKey(es[j].kind, g).Some? && GroupKey(es[j].kind, g).value == n;
      assert es'[j] == es[j];
    }
    if key.Some? {
      assert es'[|es|] == e;
    }
  }

  lemma GroupedSnoc(es: seq<Entry>, e: Entry, g: Group)
    ensures Grouped(es + [e], g) == GroupStep(Grouped(es, g), e, g)
  {
    match GroupKey(e.kind, g)
    case None => GroupedSnocOther(es, e, g);
    case Some(name) => GroupedSnocMember(es, e, g, name);
  }

  /** A non-empty map keyed by the group's names, holding each name's gathered values, is the grouped map. */
  lemma GroupedIs(es: seq<Entry>, g: Group, m: map<string, seq<string>>)
    requires m.Keys != {} && GroupNames(es, g) == m.Keys
    requires forall n :: n in m ==> m[n] == Gather(es, GroupKind(g, n))
    ensures Grouped(es, g) == Some(m)
  {
    var m' := map n | n in GroupNames(es, g) :: Gather(es, GroupKind(g, n));
    assert m' == m;
  }

  /** An entry outside group `g` leaves the grouped map as it was. */
  lemma GroupedSnocOther(es: seq<Entry>, e: Entry, g: Group)
    requires GroupKey(e.kind, g).None?
    ensures Grouped(es + [e], g) == Grouped(es, g)
  {
    var base := GroupedOrEmpty(es, g);
    GroupNamesSnoc(es, e, g);
    if base.Keys != {} {
      forall n | n in base ensures base[n] == Gather(es + [e], GroupKind(g, n)) {
        GatherSnoc(es, e, GroupKind(g, n));
      }
      GroupedIs(es + [e], g, base);
    }
  }

  /** An entry of group `g` named `name` appends its values under `name`. */
  lemma GroupedSnocMember(es: seq<Entry>, e: Entry, g: Group, name: string)
    requires GroupKey(e.kind, g) == Some(name)
    ensures Grouped(es + [e], g) == Append(Grouped(es, g), name, e.values)
  {
    var es' := es + [e];
    var base := GroupedOrEmpty(es, g);
    var m := base[name := (if name in base then base[name] else []) + e.values];
    assert Append(Grouped(es, g), name, e.values) == Some(m);
    assert m.Keys == GroupNames(es', g) by {
      GroupNamesSnoc(es, e, g);
    }
    forall n | n in m ensures m[n] == Gather(es', GroupKind(g, n)) {
      GatherMember(es, e, g, name, base, n);
    }
    GroupedIs(es', g, m);
  }

  /** The values gathered under `n` once an entry named `name` is appended to `es`. */
  lemma GatherMember(es: seq<Entry>, e: Entry, g: Group, name: string, base: map<string, seq<string>>, n: string)
    requires GroupKey(e.kind, g) == Some(name)
    requires base.Keys == GroupNames(es, g)
    requires forall k :: k in base ==> base[k] == Gather(es, GroupKind(g, k))
    requires n in base || n == name
    ensures Gather(es + [e], GroupKind(g, n)) ==
      (if n in base then base[n] else []) + (if n == name then e.values else [])
  {
    GatherSnoc(es, e, GroupKind(g, n));
    if n !in base {
      GatherOutside(es, g, n);
    }
  }

  /** The grouped map, or the empty map when it is nil. */
  lemma GroupedOrEmpty(es: seq<Entry>, g: Group) returns (base: map<string, seq<string>>)
    ensures base == if Grouped(es, g).None? then map[] else Grouped(es, g).value
    ensures base.Keys == GroupNames(es, g)
    ensures forall n :: n in base ==> base[n] == Gather(es, GroupKind(g, n))
  {
    base := if Grouped(es, g).None? then map[] else Grouped(es, g).value;
  }

  lemma {:induction false} GatherOutside(es: seq<Entry>, g: Group, name: string)
    requires name !in GroupNames(es, g)
    ensures Gather(es, GroupKind(g, name)) == []
    decreases |es|
  {
    if es != [] {
      var p := es[..|es| - 1];
      assert GroupNames(p, g) <= GroupNames(es, g) by {
        forall n | n in GroupNames(p, g) ensures n in GroupNames(es, g) {
          var j :| 0 <= j < |p| && GroupKey(p[j].kind, g).Some? && GroupKey(p[j].kind, g).value == n;
          assert es[j] == p[j];
        }
      }
      GatherOutside(p, g, name);
    }
  }

  lemma ParsedAllConcat<T, E>(a: seq<string>, b: seq<string>, parse: string -> Result<T, E>, x: seq<T>, y: seq<T>)
    requires ParsedAll(a, parse, x) && ParsedAll(b, parse, y)
    ensures ParsedAll(a + b, parse, x + y)
  {
  }

  lemma SingleRangesConcat(a: seq<string>, b: seq<string>, x: seq<NumRange>, y: seq<NumRange>)
    requires SingleRanges(a, x) && SingleRanges(b, y)
    ensures SingleRanges(a + b, x + y)
  {
    forall j | 0 <= j < |a + b|
      ensures IsSingleNumber((a + b)[j]) && (x + y)[j] == NewSingleNumRange(Atoi((a + b)[j]).value)
    {
      if j >= |a| {
        assert (a + b)[j] == b[j - |a|] && (x + y)[j] == y[j - |a|];
      }
    }
  }

  /** A parsed field after one more entry: extended by the entry's parsed values when it is of `kind`. */
  lemma ParsedFieldSnoc<T, E>(es: seq<Entry>, e: Entry, kind: ParamKind, parse: string -> Result<T, E>,
                                 before: seq<T>, after: seq<T>)
    requires ParsedAll(Gather(es, kind), parse, before)
    requires e.kind == kind ==> AllParse(e.values, parse)
    requires after == before + (if e.kind == kind then ParsedValues(e.values, parse) else [])
    ensures ParsedAll(Gather(es + [e], kind), parse, after)
  {
    GatherSnoc(es, e, kind);
    if e.kind == kind {
      ParsedAllConcat(Gather(es, kind), e.values, parse, before, ParsedValues(e.values, parse));
    } else {
      assert Gather(es + [e], kind) == Gather(es, kind);
    }
  }

  /** The select-only field after one more entry. */
  lemma RangesFieldSnoc(es: seq<Entry>, e: Entry, before: seq<NumRange>, after: seq<NumRange>)
    requires SingleRanges(SplitAll(Gather(es, SelectOnly)), before)
    requires e.kind == SelectOnly ==> AllSingleNumbers(SplitAll(e.values))
    requires after == before + (if e.kind == SelectOnly then Ranges(SplitAll(e.values)) else [])
    ensures SingleRanges(SplitAll(Gather(es + [e], SelectOnly)), after)
  {
    GatherSnoc(es, e, SelectOnly);
    if e.kind == SelectOnly {
      SplitAllSnoc(es, e);
      SingleRangesConcat(SplitAll(Gather(es, SelectOnly)), SplitAll(e.values), before, Ranges(SplitAll(e.values)));
    } else {
      assert Gather(es + [e], SelectOnly) == Gather(es, SelectOnly);
    }
  }

  /** `Absorb` field by field: each field gains what the entry contributes to it, if anything. */
  lemma AbsorbFields(link: MagnetLink, e: Entry)
    requires EntryError(e, false).None?
    ensures var link' := Absorb(link, e);
      && link'.displayNames == link.displayNames + Contribution(e, DisplayName)
      && link'.exactTopics == link.exactTopics + (if e.kind == ExactTopic then ParsedValues(e.values, ParseUrn) else [])
      && link'.exactLengths == link.exactLengths + (if e.kind == ExactLength then ParsedValues(e.values, Atoi) else [])
      && link'.acceptableSources ==
           link.acceptableSources + (if e.kind == AcceptableSource then ParsedValues(e.values, Unescape) else [])
      && link'.exactSources == link.exactSources + Contribution(e, ExactSource)
      && link'.keywordTopics == link.keywordTopics + Contribution(e, KeywordTopic)
      && link'.manifestTopics == link.manifestTopics + Contribution(e, ManifestTopic)
      && link'.trackers == link.trackers + (if e.kind == Tracker then ParsedValues(e.values, Unescape) else [])
      && link'.selectOnly == link.selectOnly + (if e.kind == SelectOnly then Ranges(SplitAll(e.values)) else [])
      && link'.experimental == GroupStep(link.experimental, e, ExperimentalGroup)
      && link'.unknowns == GroupStep(link.unknowns, e, UnknownGroup)
  {
    match e.kind {
      case Experimental(_) =>
      case Unknown(_) =>
      case _ =>
    }
  }

  /** One loop iteration: absorbing entry `e` extends a parse of the entries before it. */
  lemma ParseOfSnoc(link: MagnetLink, es: seq<Entry>, e: Entry)
    requires IsParseOf(link, es) && EntryError(e, false).None?
    ensures IsParseOf(Absorb(link, e), es + [e])
  {
    var link' := Absorb(link, e);
    AbsorbFields(link, e);
    GatherSnoc(es, e, DisplayName);
    GatherSnoc(es, e, ExactSource);
    GatherSnoc(es, e, KeywordTopic);
    GatherSnoc(es, e, ManifestTopic);
    ParsedFieldSnoc(es, e, ExactTopic, ParseUrn, link.exactTopics, link'.exactTopics);
    ParsedFieldSnoc(es, e, ExactLength, Atoi, link.exactLengths, link'.exactLengths);
    ParsedFieldSnoc(es, e, AcceptableSource, Unescape, link.acceptableSources, link'.acceptableSources);
    ParsedFieldSnoc(es, e, Tracker, Unescape, link.trackers, link'.trackers);
    RangesFieldSnoc(es, e, link.selectOnly, link'.selectOnly);
    GroupedSnoc(es, e, ExperimentalGroup);
    GroupedSnoc(es, e, UnknownGroup);
  }

  lemma LinkOfSnoc(es: seq<Entry>, e: Entry)
    requires QueryError(es, false).None? && EntryError(e, false).None?
    ensures QueryError(es + [e], false).None?
    ensures LinkOf(es + [e]) == Absorb(LinkOf(es), e)
  {
    assert (es + [e])[..|es|] == es;
  }

  /** The link the loop builds is a parse of the entries, in the sense of `IsParseOf`. */
  lemma {:induction false} LinkOfIsParse(es: seq<Entry>)
    requires QueryError(es, false).None?
    ensures IsParseOf(LinkOf(es), es)
    decreases |es|
  {
    if es != [] {
      var p, e := es[..|es| - 1], es[|es| - 1];
      assert es == p + [e];
      LinkOfIsParse(p);
      LinkOfSnoc(p, e);
      ParseOfSnoc(LinkOf(p), p, e);
    }
  }

  // ================================================================ properties of a parse

  /** The query is accepted exactly when no single parameter is at fault. */
  lemma {:induction false} QueryErrorNone(es: seq<Entry>, strict: bool)
    ensures QueryError(es, strict).None? <==> forall j :: 0 <= j < |es| ==> EntryError(es[j], strict).None?
    decreases |es|
  {
    if es != [] {
      var p := es[..|es| - 1];
      QueryErrorNone(p, strict);
      assert forall j :: 0 <= j < |p| ==> p[j] == es[j];
    }
  }

  /** The reported error is the one of the first faulty parameter in iteration order. */
  lemma FirstFailure(es: seq<Entry>, strict: bool, k: nat)
    requires k < |es| && EntryError(es[k], strict).Some?
    requires forall j :: 0 <= j < k ==> EntryError(es[j], strict).None?
    ensures QueryError(es, strict) == EntryError(es[k], strict)
  {
    var p := es[..k];
    assert QueryError(p, strict).None? by {
      QueryErrorNone(p, strict);
      forall j | 0 <= j < |p| ensures EntryError(p[j], strict).None? {
        assert p[j] == es[j];
      }
    }
    QueryErrorFirst(es, k, strict);
  }

  /** No entry of group `g` occurs exactly when the group's map stays nil. */
  lemma GroupedNone(es: seq<Entry>, g: Group)
    ensures Grouped(es, g).None? <==> forall j :: 0 <= j < |es| ==> GroupKey(es[j].kind, g).None?
  {
    if exists j :: 0 <= j < |es| && GroupKey(es[j].kind, g).Some? {
      var j :| 0 <= j < |es| && GroupKey(es[j].kind, g).Some?;
      assert GroupKey(es[j].kind, g).value in GroupNames(es, g);
    }
  }

  /**
   * Strict mode rejects exactly the queries the lenient mode accepts with a
   * non-nil map of unknown parameters, and nothing else.
   */
  lemma StrictRejectsOnlyUnknowns(es: seq<Entry>)
    ensures QueryError(es, true).None? <==> QueryError(es, false).None? && Grouped(es, UnknownGroup).None?
  {
    QueryErrorNone(es, true);
    QueryErrorNone(es, false);
    GroupedNone(es, UnknownGroup);
    if QueryError(es, true).None? {
      forall j | 0 <= j < |es| ensures EntryError(es[j], false).None? && GroupKey(es[j].kind, UnknownGroup).None? {
        assert EntryError(es[j], true).None?;
      }
    }
  }

  /** Everything a parse yields is determined by the query: at most one link fits. */
  lemma ParseOfUnique(link1: MagnetLink, link2: MagnetLink, es: seq<Entry>)
    requires IsParseOf(link1, es) && IsParseOf(link2, es)
    ensures link1 == link2
  {
    ParsedAllUnique(Gather(es, ExactTopic), ParseUrn, link1.exactTopics, link2.exactTopics);
    ParsedAllUnique(Gather(es, ExactLength), Atoi, link1.exactLengths, link2.exactLengths);
    ParsedAllUnique(Gather(es, AcceptableSource), Unescape, link1.acceptableSources, link2.acceptableSources);
    ParsedAllUnique(Gather(es, Tracker), Unescape, link1.trackers, link2.trackers);
    var pieces := SplitAll(Gather(es, SelectOnly));
    assert link1.selectOnly == link2.selectOnly by {
      assert |link1.selectOnly| == |link2.selectOnly| == |pieces|;
      forall j | 0 <= j < |pieces| ensures link1.selectOnly[j] == link2.selectOnly[j] {
      }
    }
  }

  /** Any link that fits the declarative description is the one the loop builds. */
  lemma ParseOfIsLinkOf(link: MagnetLink, es: seq<Entry>)
    requires QueryError(es, false).None? && IsParseOf(link, es)
    ensures link == LinkOf(es)
  {
    LinkOfIsParse(es);
    ParseOfUnique(link, LinkOf(es), es);
  }

  lemma ParsedAllUnique<T, E>(values: seq<string>, parse: string -> Result<T, E>, x: seq<T>, y: seq<T>)
    requires ParsedAll(values, parse, x) && ParsedAll(values, parse, y)
    ensures x == y
  {
    assert |x| == |y|;
    forall j | 0 <= j < |x| ensures x[j] == y[j] {
    }
  }

  /** Keys are matched in any letter case: a key and its lower-case form mean the same parameter. */
  lemma KeyCaseInsensitive(key: string, values: seq<string>)
    ensures KindOf(QueryParam(key, values)) == KindOf(QueryParam(Lower(key), values))
  {
    LowerIdempotent(key);
  }

  /** "x." alone is an error in both modes; "x.<name>" is kept under its name. */
  lemma ExperimentalKeys(name: string, values: seq<string>, strict: bool)
    requires name != ""
    ensures EntryError(Entry(Classify("x."), values), strict) == Some(Malformed(InvalidExperimental))
    ensures Classify("x." + name) == Experimental(name)
    ensures EntryError(Entry(Classify("x." + name), values), strict).None?
  {
    var key := "x." + name;
    assert key[..2] == "x." && key[2..] == name;
  }

  /** An unknown key fails only in strict mode; leniently its values land in the unknowns map. */
  lemma UnknownKey(key: string, values: seq<string>)
    requires Classify(key).Unknown?
    ensures EntryError(Entry(Classify(key), values), true) == Some(Malformed(UnknownParameter))
    ensures EntryError(Entry(Classify(key), values), false).None?
    ensures Grouped([Entry(Classify(key), values)], UnknownGroup) == Some(map[key := values])
  {
    var es := [Entry(Classify(key), values)];
    assert GroupNames(es, UnknownGroup) == {key} by {
      assert GroupKey(es[0].kind, UnknownGroup) == Some(key);
    }
    assert Gather(es, Unknown(key)) == values by {
      assert es[..0] == [];
    }
    var m := map n | n in GroupNames(es, UnknownGroup) :: Gather(es, GroupKind(UnknownGroup, n));
    assert Grouped(es, UnknownGroup) == Some(m);
    assert m.Keys == {key} && m[key] == values;
    assert m == map[key := values];
  }

  /**
   * A select-only piece containing '-' fails the parse in both modes: the
   * range parser accepts single numbers only.
   */
  lemma SelectOnlyDash(values: seq<string>, strict: bool, j: nat)
    requires j < |SplitAll(values)| && '-' in SplitAll(values)[j]
    ensures EntryError(Entry(SelectOnly, values), strict) == Some(Malformed(InvalidSo))
  {
    assert !IsSingleNumber(SplitAll(values)[j]);
  }

  /** The URNs that the exact-topic values denote, skipping values that do not parse. */
  function UrnsOf(values: seq<string>): (us: seq<Urn>)
    ensures |us| <= |values|
  {
    if values == [] then []
    else
      var v := values[|values| - 1];
      UrnsOf(values[..|values| - 1]) + (if ParseUrn(v).Success? then [ParseUrn(v).value] else [])
  }

  /** When every value parses, `UrnsOf` is the list the parser builds. */
  lemma {:induction false} UrnsOfParsed(values: seq<string>, out: seq<Urn>)
    requires ParsedAll(values, ParseUrn, out)
    ensures UrnsOf(values) == out
    decreases |values|
  {
    if values != [] {
      var n := |values| - 1;
      assert ParsedAll(values[..n], ParseUrn, out[..n]);
      UrnsOfParsed(values[..n], out[..n]);
      assert out == out[..n] + [out[n]];
    }
  }
}
