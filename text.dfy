/**
 * The parts of Go's `strings` and `strconv` packages the parsers rely on:
 * ASCII lower-casing, splitting on a one-character separator, and decimal
 * integer conversion with Go's 64-bit `int` bounds.
 */
module Text {
  import opened Wrappers

  const MIN_INT: int := -0x8000_0000_0000_0000
  const MAX_INT: int := 0x7fff_ffff_ffff_ffff

  // ---------------------------------------------------------------- case

  function LowerChar(c: char): char {
    if 'A' <= c <= 'Z' then (c as int + 32) as char else c
  }

  /** `strings.ToLower`, restricted to the ASCII letters. */
  function Lower(s: string): (r: string)
    ensures |r| == |s|
    ensures forall i :: 0 <= i < |s| ==> !('A' <= r[i] <= 'Z')
    ensures forall i :: 0 <= i < |s| ==>
      if 'A' <= s[i] <= 'Z' then r[i] as int == s[i] as int + 32 else r[i] == s[i]
  {
    seq(|s|, i requires 0 <= i < |s| => LowerChar(s[i]))
  }

  lemma LowerIdempotent(s: string)
    ensures Lower(Lower(s)) == Lower(s)
  {
  }

  predicate HasPrefix(s: string, prefix: string) {
    |prefix| <= |s| && s[..|prefix|] == prefix
  }

  // ---------------------------------------------------------------- split

  /** The number of occurrences of `c` in `s`. */
  function Count(s: string, c: char): nat {
    if s == [] then 0 else (if s[0] == c then 1 else 0) + Count(s[1..], c)
  }

  lemma {:induction false} CountZero(s: string, c: char)
    ensures Count(s, c) == 0 <==> c !in s
  {
    if s != [] {
      CountZero(s[1..], c);
      assert s == [s[0]] + s[1..];
    }
  }

  /** Joins the parts with one separator between neighbours (`strings.Join`). */
  function Join(parts: seq<string>, sep: char): string {
    if |parts| == 0 then ""
    else if |parts| == 1 then parts[0]
    else parts[0] + [sep] + Join(parts[1..], sep)
  }

  lemma JoinThree(a: string, b: string, c: string, sep: char)
    ensures Join([a, b, c], sep) == a + [sep] + b + [sep] + c
  {
    assert [a, b, c][1..] == [b, c];
    assert [b, c][1..] == [c];
    assert Join([c], sep) == c;
    assert Join([b, c], sep) == b + [sep] + c;
    assert Join([a, b, c], sep) == a + [sep] + (b + [sep] + c);
  }

  /**
   * `strings.Split` with a one-character separator: the pieces between
   * separators, one more piece than there are separators, so that splitting
   * the empty string gives one empty piece.
   */
  function Split(s: string, sep: char): (parts: seq<string>)
    ensures |parts| == Count(s, sep) + 1
    ensures forall i :: 0 <= i < |parts| ==> sep !in parts[i]
    decreases |s|
  {
    if s == [] then [[]]
    else
      var rest := Split(s[1..], sep);
      if s[0] == sep then [[]] + rest
      else [[s[0]] + rest[0]] + rest[1..]
  }

  /** Prepending a non-separator character extends the first piece. */
  lemma JoinCons(c: char, rest: seq<string>, sep: char)
    requires |rest| >= 1
    ensures Join([[c] + rest[0]] + rest[1..], sep) == [c] + Join(rest, sep)
  {
    var parts := [[c] + rest[0]] + rest[1..];
    if |rest| > 1 {
      assert parts[1..] == rest[1..];
      assert Join(parts, sep) == ([c] + rest[0]) + [sep] + Join(rest[1..], sep);
    }
  }

  /** Joining the pieces gives the input back. */
  lemma {:induction false} JoinSplit(s: string, sep: char)
    ensures Join(Split(s, sep), sep) == s
    decreases |s|
  {
    if s != [] {
      JoinSplit(s[1..], sep);
      var rest := Split(s[1..], sep);
      assert s == [s[0]] + s[1..];
      if s[0] == sep {
        assert ([[]] + rest)[1..] == rest;
      } else {
        JoinCons(s[0], rest, sep);
      }
    }
  }

  lemma {:induction false} SplitNoSeparator(a: string, sep: char)
    requires sep !in a
    ensures Split(a, sep) == [a]
  {
    var parts := Split(a, sep);
    assert |parts| == 1 by {
      CountZero(a, sep);
    }
    JoinSplit(a, sep);
    assert Join(parts, sep) == parts[0];
  }

  lemma {:induction false} SplitAfterPiece(a: string, t: string, sep: char)
    requires sep !in a
    ensures Split(a + [sep] + t, sep) == [a] + Split(t, sep)
    decreases |a|
  {
    var s := a + [sep] + t;
    if a == [] {
      assert s[0] == sep && s[1..] == t;
    } else {
      assert s[0] == a[0] && s[1..] == a[1..] + [sep] + t;
      SplitAfterPiece(a[1..], t, sep);
      assert [a[0]] + a[1..] == a;
    }
  }

  /** The first piece is a prefix of the input, followed by a separator when more pieces follow. */
  lemma {:induction false} SplitFirstPrefix(s: string, sep: char)
    ensures var p := Split(s, sep)[0]; |p| <= |s| && s[..|p|] == p
    ensures var p := Split(s, sep)[0]; |Split(s, sep)| > 1 ==> |p| < |s| && s[|p|] == sep
    decreases |s|
  {
    if s != [] {
      SplitFirstPrefix(s[1..], sep);
      if s[0] != sep {
        assert s == [s[0]] + s[1..];
      }
    }
  }

  /** The first piece runs up to the first separator. */
  lemma {:induction false} SplitFirstPiece(s: string, sep: char, k: nat)
    requires k < |s| && s[k] == sep && sep !in s[..k]
    ensures Split(s, sep)[0] == s[..k]
  {
    assert s == s[..k] + [sep] + s[k + 1..];
    SplitAfterPiece(s[..k], s[k + 1..], sep);
  }

  /** Splitting undoes joining when no part contains the separator. */
  lemma {:induction false} SplitJoin(parts: seq<string>, sep: char)
    requires |parts| >= 1
    requires forall i :: 0 <= i < |parts| ==> sep !in parts[i]
    ensures Split(Join(parts, sep), sep) == parts
    decreases |parts|
  {
    if |parts| == 1 {
      SplitNoSeparator(parts[0], sep);
    } else {
      SplitJoin(parts[1..], sep);
      SplitAfterPiece(parts[0], Join(parts[1..], sep), sep);
      assert [parts[0]] + parts[1..] == parts;
    }
  }

  // ---------------------------------------------------------------- Atoi

  predicate IsDigit(c: char) { '0' <= c <= '9' }

  predicate AllDigits(s: string) { forall i :: 0 <= i < |s| ==> IsDigit(s[i]) }

  /** The value of a non-empty run of decimal digits, most significant first. */
  function DigitsValue(s: string): nat
    requires AllDigits(s)
  {
    if s == [] then 0
    else 10 * DigitsValue(s[..|s| - 1]) + (s[|s| - 1] as int - '0' as int)
  }

  /** The shape `strconv.Atoi` accepts: an optional sign, then at least one digit. */
  predicate IsDecimal(s: string) {
    |Unsigned(s)| > 0 && AllDigits(Unsigned(s)) && (|s| > 0 && (s[0] == '+' || s[0] == '-') ==> |s| > 1)
  }

  /** The text after an optional leading `+` or `-`. */
  function Unsigned(s: string): string {
    if |s| > 0 && (s[0] == '+' || s[0] == '-') then s[1..] else s
  }

  /** The value of a decimal text, its sign applied. */
  function DecimalValue(s: string): int
    requires IsDecimal(s)
  {
    if s[0] == '-' then -(DigitsValue(Unsigned(s)) as int) else DigitsValue(Unsigned(s))
  }

  /** The digits `strconv.ParseUint` reads before it meets any other character. */
  function DigitRun(s: string): (d: string)
    ensures |d| <= |s| && d == s[..|d|] && AllDigits(d)
    ensures |d| < |s| ==> !IsDigit(s[|d|])
  {
    if s == [] || !IsDigit(s[0]) then [] else [s[0]] + DigitRun(s[1..])
  }

  datatype NumError = ErrSyntax | ErrRange

  const MAX_UINT64: int := 0xffff_ffff_ffff_ffff

  /**
   * `strconv.Atoi` on a 64-bit platform: an optional `+` or `-`, then one or
   * more decimal digits (leading zeros allowed), whose value must fit in int64.
   * A failure is a range error when the value of a decimal text is outside
   * int64, and also when, reading left to right, the digits before the
   * first other character already exceed the uint64 range (`ParseUint`
   * checks each digit for overflow before it looks at the next character).
   * Any other failure is a syntax error.
   */
  function Atoi(s: string): (r: Result<int, NumError>)
    ensures r.Success? <==> IsDecimal(s) && MIN_INT <= DecimalValue(s) <= MAX_INT
    ensures r.Success? ==> r.value == DecimalValue(s)
    ensures r.Failure? ==>
      (r.error == ErrRange <==> IsDecimal(s) || DigitsValue(DigitRun(Unsigned(s))) > MAX_UINT64)
  {
    var digits := Unsigned(s);
    if IsDecimal(s) then
      var v := DecimalValue(s);
      if MIN_INT <= v <= MAX_INT then Success(v) else Failure(ErrRange)
    else if DigitsValue(DigitRun(digits)) > MAX_UINT64 then Failure(ErrRange)
    else Failure(ErrSyntax)
  }

  /** A digit run followed by another character: the error depends on whether the run overflows uint64. */
  lemma AtoiStops(d: string, rest: string)
    requires |d| > 0 && AllDigits(d) && |rest| > 0 && !IsDigit(rest[0])
    ensures Atoi(d + rest) == Failure(if DigitsValue(d) > MAX_UINT64 then ErrRange else ErrSyntax)
  {
    DigitRunStops(d, rest);
    assert Unsigned(d + rest) == d + rest by {
      assert (d + rest)[0] == d[0];
    }
    assert !AllDigits(d + rest) by {
      assert (d + rest)[|d|] == rest[0];
    }
  }

  lemma {:induction false} DigitRunStops(d: string, rest: string)
    requires AllDigits(d) && (|rest| > 0 ==> !IsDigit(rest[0]))
    ensures DigitRun(d + rest) == d
    decreases |d|
  {
    if d == [] {
      assert d + rest == rest;
    } else {
      DigitRunStops(d[1..], rest);
      assert (d + rest)[1..] == d[1..] + rest;
      assert [d[0]] + d[1..] == d;
    }
  }

  function Pow10(n: nat): (p: nat)
    ensures p > 0
  {
    if n == 0 then 1 else 10 * Pow10(n - 1)
  }

  /** A run of digits is worth at least its leading digit times the place value of that digit. */
  lemma {:induction false} DigitsValueAtLeast(d: string)
    requires |d| > 0 && AllDigits(d)
    ensures DigitsValue(d) >= (d[0] as int - '0' as int) * Pow10(|d| - 1)
    decreases |d|
  {
    if |d| > 1 {
      var p := d[..|d| - 1];
      DigitsValueAtLeast(p);
      var lead := d[0] as int - '0' as int;
      assert p[0] == d[0];
      assert DigitsValue(d) >= 10 * DigitsValue(p);
      assert 10 * (lead * Pow10(|p| - 1)) == lead * Pow10(|d| - 1);
    }
  }

  /** A run of n digits is worth less than ten to the n. */
  lemma {:induction false} DigitsValueBelow(d: string)
    requires AllDigits(d)
    ensures DigitsValue(d) < Pow10(|d|)
    decreases |d|
  {
    if d != [] {
      DigitsValueBelow(d[..|d| - 1]);
    }
  }

  /**
   * Twenty nines then a letter overflow uint64 before the letter is read, so
   * the error is a range error; with nineteen nines the letter is reached
   * and the error is a syntax error.
   */
  lemma AtoiOverflowFirst(nines: string)
    requires |nines| == 19 && forall i :: 0 <= i < |nines| ==> nines[i] == '9'
    ensures Atoi("9" + nines + "x") == Failure(ErrRange)
    ensures Atoi(nines + "x") == Failure(ErrSyntax)
  {
    var d20 := "9" + nines;
    assert AllDigits(nines);
    assert AllDigits(d20);
    DigitsValueAtLeast(d20);
    DigitsValueBelow(nines);
    Pow10Nineteen();
    AtoiStops(d20, "x");
    AtoiStops(nines, "x");
  }

  lemma Pow10Nineteen()
    ensures Pow10(19) == 10000000000000000000
  {
    assert Pow10(4) == 10000;
    assert Pow10(8) == 100000000;
    assert Pow10(12) == 1000000000000;
    assert Pow10(16) == 10000000000000000;
  }

  // ---------------------------------------------------------------- Itoa

  function DigitChar(d: nat): char
    requires d < 10
  {
    ('0' as int + d) as char
  }

  function NatDigits(n: nat): (s: string)
    ensures |s| > 0 && AllDigits(s)
  {
    if n < 10 then [DigitChar(n)] else NatDigits(n / 10) + [DigitChar(n % 10)]
  }

  /** `strconv.Itoa`: the shortest decimal rendering, with `-` for negatives. */
  function Itoa(n: int): string {
    if n < 0 then "-" + NatDigits(-n) else NatDigits(n)
  }

  lemma {:induction false} NatDigitsValue(n: nat)
    ensures DigitsValue(NatDigits(n)) == n
  {
    if n >= 10 {
      NatDigitsValue(n / 10);
      var s := NatDigits(n);
      assert s[..|s| - 1] == NatDigits(n / 10);
    }
  }

  /** Parsing the rendering of any int64 gives it back. */
  lemma AtoiItoa(n: int)
    requires MIN_INT <= n <= MAX_INT
    ensures Atoi(Itoa(n)) == Success(n)
  {
    var s := Itoa(n);
    if n < 0 {
      var d := NatDigits(-n);
      NatDigitsValue(-n);
      assert s[0] == '-' && s[1..] == d;
    } else {
      var d := NatDigits(n);
      NatDigitsValue(n);
      assert IsDigit(d[0]);
      assert s == d;
    }
  }

  lemma ItoaSign(n: int)
    ensures '-' in Itoa(n) <==> n < 0
  {
    if n >= 0 {
      assert forall i :: 0 <= i < |NatDigits(n)| ==> IsDigit(NatDigits(n)[i]);
    } else {
      assert Itoa(n)[0] == '-';
    }
  }
}
