/** Uniform Resource Names of the shape `urn:<namespace id>:<namespace-specific string>`. */
module Urns {
  import opened Wrappers
  import opened Text

  /** Both kinds are reported under the one "Malformed urn" error. */
  datatype UrnError =
    | WrongPartCount   // the input does not split into exactly three parts on ':'
    | InvalidUrnScheme    // the first part is not "urn" in any letter case

  datatype Urn = Urn(nid: string, nss: string) {

    /** `Urn.String`: the parts joined by ':' behind the lower-case scheme. */
    function ToString(): (s: string)
      ensures ':' !in nid && ':' !in nss ==> Split(s, ':') == ["urn", nid, nss]
    {
      var s := "urn:" + nid + ":" + nss;
      assert s == "urn" + [':'] + nid + [':'] + nss;
      if ':' !in nid && ':' !in nss then
        JoinThree("urn", nid, nss, ':');
        SplitJoin(["urn", nid, nss], ':');
        s
      else s
    }
  }

  /**
   * `ParseUrn`: the input must hold exactly two ':'; the part before the
   * first one must read "urn" in any letter case; the other two parts are
   * kept verbatim, empty ones included. The part count is checked first.
   */
  function ParseUrn(s: string): (r: Result<Urn, UrnError>)
    ensures Count(s, ':') != 2 <==> r == Failure(WrongPartCount)
    ensures r.Success? ==> r.value == Urn(Split(s, ':')[1], Split(s, ':')[2])
  {
    var parts := Split(s, ':');
    if |parts| != 3 then Failure(WrongPartCount)
    else if Lower(parts[0]) != "urn" then Failure(InvalidUrnScheme)
    else Success(Urn(parts[1], parts[2]))
  }

  /** A string with two ':' is its three parts joined by ':'. */
  lemma UrnParts(s: string)
    requires Count(s, ':') == 2
    ensures var parts := Split(s, ':');
      |parts| == 3 && s == parts[0] + [':'] + parts[1] + [':'] + parts[2]
  {
    var parts := Split(s, ':');
    assert parts == [parts[0], parts[1], parts[2]];
    JoinSplit(s, ':');
    JoinThree(parts[0], parts[1], parts[2], ':');
  }

  /** A text that lower-cases to "urn" has three characters, none of them ':'. */
  lemma LowerUrn(p: string)
    requires Lower(p) == "urn"
    ensures |p| == 3 && ':' !in p
  {
    assert |Lower(p)| == |p|;
    forall k | 0 <= k < 3
      ensures p[k] != ':'
    {
      assert LowerChar(p[k]) == "urn"[k];
    }
  }

  /** A text starting with "urn:" in any case has that scheme as its first part. */
  lemma SchemeFromText(s: string)
    requires |s| >= 4 && Lower(s[..3]) == "urn" && s[3] == ':'
    ensures Split(s, ':')[0] == s[..3]
  {
    LowerUrn(s[..3]);
    SplitFirstPiece(s, ':', 3);
  }

  /** With two ':', a first part reading "urn" is the text's first three characters, then ':'. */
  lemma SchemeFromParts(s: string)
    requires Count(s, ':') == 2 && Lower(Split(s, ':')[0]) == "urn"
    ensures |s| >= 4 && s[..3] == Split(s, ':')[0] && s[3] == ':'
  {
    LowerUrn(Split(s, ':')[0]);
    SplitFirstPrefix(s, ':');
  }

  /**
   * What `ParseUrn` accepts, stated on the text: exactly two ':', the first
   * of them right after a three-letter "urn" in any case; the two parts
   * after the scheme hold no ':' and, with it, make up the whole input.
   */
  lemma ParseUrnAccepts(s: string)
    ensures ParseUrn(s).Success? <==>
      Count(s, ':') == 2 && |s| >= 4 && Lower(s[..3]) == "urn" && s[3] == ':'
    ensures ParseUrn(s).Success? ==>
      var u := ParseUrn(s).value;
      && ':' !in u.nid && ':' !in u.nss
      && s == s[..3] + ":" + u.nid + ":" + u.nss
  {
    if Count(s, ':') == 2 {
      UrnParts(s);
      if |s| >= 4 && Lower(s[..3]) == "urn" && s[3] == ':' {
        SchemeFromText(s);
      }
      if Lower(Split(s, ':')[0]) == "urn" {
        SchemeFromParts(s);
      }
    }
  }

  /** Rendering a URN whose parts hold no ':' and parsing it back gives it again. */
  lemma UrnRoundTrip(u: Urn)
    requires ':' !in u.nid && ':' !in u.nss
    ensures ParseUrn(u.ToString()) == Success(u)
  {
    var s := u.ToString();
    assert Split(s, ':') == ["urn", u.nid, u.nss];
    assert s[..3] == "urn" && s[3] == ':';
  }

  /** A URN written with the lower-case scheme renders back to the same text. */
  lemma UrnReverseRoundTrip(s: string)
    requires ParseUrn(s).Success?
    requires HasPrefix(s, "urn")
    ensures ParseUrn(s).value.ToString() == s
  {
    ParseUrnAccepts(s);
  }
}
