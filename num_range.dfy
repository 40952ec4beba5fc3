/** Numeric ranges such as the file indices of a magnet link's select-only parameter. */
module NumRanges {
  import opened Wrappers
  import opened Text

  datatype NumRange = NumRange(start: int, end: int, includeStart: bool, includeEnd: bool)

  /** The zero value of the Go struct: what the parser returns before it assigns a field. */
  const ZERO_RANGE := NumRange(0, 0, false, false)

  /** The integers the range denotes. */
  predicate Contains(r: NumRange, x: int) {
    && (if r.includeStart then r.start <= x else r.start < x)
    && (if r.includeEnd then x <= r.end else x < r.end)
  }

  /** `NewSingleNumRange`: the range holding exactly `n`. */
  function NewSingleNumRange(n: int): (r: NumRange)
    ensures forall x :: Contains(r, x) <==> x == n
    ensures r.start == r.end == n
  {
    NumRange(n, n, true, true)
  }

  datatype NumRangeError =
    | AtoiError(cause: NumError)   // a number did not parse; the cause is `strconv.Atoi`'s
    | MalformedNumRange            // "Malformed num range string"

  /**
   * `ParseNumRangeFromString`, as written. A string without '-' is one
   * number. A string with one '-' has both halves parsed into `r`, but the
   * branch then falls through to the final error, so no "a-b" input is ever
   * accepted; a string with two or more '-' is malformed.
   */
  method ParseNumRangeFromString(s: string) returns (r: NumRange, err: Option<NumRangeError>)
    // success: exactly the single numbers, each giving its one-point range
    ensures err.None? <==> '-' !in s && Atoi(s).Success?
    ensures err.None? ==> r == NewSingleNumRange(Atoi(s).value)
    ensures '-' !in s && Atoi(s).Failure? ==> r == ZERO_RANGE && err == Some(AtoiError(Atoi(s).error))
    // one '-': the error of the first half that fails, else the fall-through error
    ensures Count(s, '-') == 1 ==>
      var a, b := Split(s, '-')[0], Split(s, '-')[1];
      if Atoi(a).Failure? then r == ZERO_RANGE && err == Some(AtoiError(Atoi(a).error))
      else if Atoi(b).Failure? then
        r == NumRange(Atoi(a).value, 0, true, false) && err == Some(AtoiError(Atoi(b).error))
      else
        r == NumRange(Atoi(a).value, Atoi(b).value, true, true) && err == Some(MalformedNumRange)
    // more than one '-'
    ensures Count(s, '-') >= 2 ==> r == ZERO_RANGE && err == Some(MalformedNumRange)
  {
    r, err := ZERO_RANGE, None;
    CountZero(s, '-');
    var strs := Split(s, '-');
    if |strs| == 1 {
      var num := Atoi(s);
      if num.Failure? {
        err := Some(AtoiError(num.error));
        return;
      }
      r := r.(start := num.value);
      r := r.(end := num.value);
      r := r.(includeStart := true);
      r := r.(includeEnd := true);
      return;
    } else if |strs| == 2 {
      // Start
      var num := Atoi(strs[0]);
      if num.Failure? {
        err := Some(AtoiError(num.error));
        return;
      }
      r := r.(start := num.value);
      r := r.(includeStart := true);
      // End
      num := Atoi(strs[1]);
      if num.Failure? {
        err := Some(AtoiError(num.error));
        return;
      }
      r := r.(end := num.value);
      r := r.(includeEnd := true);
    }
    err := Some(MalformedNumRange);
  }

  /**
   * The parser as its format comment describes it: "a-b" gives the inclusive
   * range from a to b (no ordering is checked); everything else is as above.
   */
  function ParseNumRangeIntended(s: string): (r: Result<NumRange, NumRangeError>)
    ensures r.Success? ==> r.value.includeStart && r.value.includeEnd
    ensures '-' !in s ==> r == (match Atoi(s)
                                case Success(n) => Success(NewSingleNumRange(n))
                                case Failure(e) => Failure(AtoiError(e)))
    ensures Count(s, '-') == 1 ==>
      var a, b := Split(s, '-')[0], Split(s, '-')[1];
      r == if Atoi(a).Failure? then Failure(AtoiError(Atoi(a).error))
           else if Atoi(b).Failure? then Failure(AtoiError(Atoi(b).error))
           else Success(NumRange(Atoi(a).value, Atoi(b).value, true, true))
    ensures Count(s, '-') >= 2 ==> r == Failure(MalformedNumRange)
  {
    CountZero(s, '-');
    var strs := Split(s, '-');
    if |strs| == 1 then
      match Atoi(s)
      case Success(n) => Success(NewSingleNumRange(n))
      case Failure(e) => Failure(AtoiError(e))
    else if |strs| == 2 then
      match Atoi(strs[0])
      case Failure(e) => Failure(AtoiError(e))
      case Success(a) =>
        match Atoi(strs[1])
        case Failure(e) => Failure(AtoiError(e))
        case Success(b) => Success(NumRange(a, b, true, true))
    else Failure(MalformedNumRange)
  }

  /**
   * For non-negative int64 bounds, "a-b" gives the range from a to b with
   * both ends included, kept as written when a > b, and it denotes exactly
   * the integers from a to b.
   */
  lemma IntendedPair(a: int, b: int)
    requires 0 <= a <= MAX_INT && 0 <= b <= MAX_INT
    ensures ParseNumRangeIntended(Itoa(a) + "-" + Itoa(b)) == Success(NumRange(a, b, true, true))
    ensures var r := ParseNumRangeIntended(Itoa(a) + "-" + Itoa(b));
      r.Success? && forall x :: Contains(r.value, x) <==> a <= x <= b
  {
    ItoaSign(a);
    ItoaSign(b);
    AtoiItoa(a);
    AtoiItoa(b);
    assert Itoa(a) + "-" + Itoa(b) == Itoa(a) + ['-'] + Itoa(b);
    SplitAfterPiece(Itoa(a), Itoa(b), '-');
    SplitNoSeparator(Itoa(b), '-');
  }

  /**
   * "1-2" is an input the defect rejects: it has one '-', and both halves
   * parse, so the as-written parser reaches the fall-through error, while the
   * intended parser accepts it.
   */
  lemma RangeDefectWitness()
    ensures Count("1-2", '-') == 1
    ensures Split("1-2", '-') == ["1", "2"]
    ensures Atoi("1") == Success(1) && Atoi("2") == Success(2)
    ensures ParseNumRangeIntended("1-2") == Success(NumRange(1, 2, true, true))
  {
    IntendedPair(1, 2);
    assert Itoa(1) + "-" + Itoa(2) == "1-2";
    SplitAfterPiece("1", "2", '-');
    SplitNoSeparator("2", '-');
    assert "1-2" == "1" + ['-'] + "2";
  }

  /** The as-written parser called on "1-2": both bounds are filled in, and still the error is returned. */
  method RangeDefectCall() returns (r: NumRange, err: Option<NumRangeError>)
    ensures r == NumRange(1, 2, true, true) && err == Some(MalformedNumRange)
    ensures ParseNumRangeIntended("1-2") == Success(r)
  {
    RangeDefectWitness();
    r, err := ParseNumRangeFromString("1-2");
  }
}
