/**
 * Torrent magnet links: a magnet link together with the BitTorrent info
 * hashes (`urn:btih:`) its exact topics carry, decoded from hex or base32.
 *
 * Go's `encoding/base32` decoder is not part of this model: it enters as a
 * function parameter, `Success` with the decoded bytes or `Failure`.
 */
module TorrentMagnetLinks {
  import opened Wrappers
  import opened Text
  import opened Encoding
  import opened Urns
  import opened Hashes
  import opened MagnetLinks

  /** The link is shared with the magnet link it was made from; here it is a copy of its value. */
  datatype TorrentMagnetLink = TorrentMagnetLink(link: MagnetLink, infoHashes: seq<HashValue>)

  /** `base32.StdEncoding.DecodeString`, supplied by the caller. */
  type Base32Decoder = string -> Option<seq<byte>>

  /** An exact topic in the BitTorrent info-hash namespace, "btih" in any case. */
  predicate IsBtih(u: Urn) {
    Lower(u.nid) == "btih"
  }

  /**
   * The `switch len(xt.Nss)` of `AsTorrent`: 32 and 56 characters are base32,
   * 40 and 64 are hex; 32 and 40 make a SHA-1 digest, 56 and 64 a SHA-256 one.
   * Any other length, and any decoding failure, makes the link malformed.
   */
  function DecodeInfoHash(nss: string, base32: Base32Decoder): (r: Result<HashValue, MagnetError>)
    ensures |nss| !in {32, 40, 56, 64} <==> r == Failure(Malformed(BadBtihLength))
    ensures r.Failure? ==> r.error == Malformed(BadBtihLength) || r.error == Malformed(BadBtihEncoding)
    ensures r.Success? ==> r.value.hashType == (if |nss| == 32 || |nss| == 40 then Sha1 else Sha256)
    ensures r.Success? ==> r.value.hashType.Name() == (if |nss| == 32 || |nss| == 40 then "sha1" else "sha256")
  {
    var n := |nss|;
    if n == 32 || n == 56 then
      var hashType := if n == 32 then Sha1 else Sha256;
      match base32(nss)
      case Some(digest) => Success(HashValue(hashType, digest))
      case None => Failure(Malformed(BadBtihEncoding))
    else if n == 40 || n == 64 then
      var hashType := if n == 40 then Sha1 else Sha256;
      match HexDecode(nss)
      case Success(digest) => Success(HashValue(hashType, digest))
      case Failure(_) => Failure(Malformed(BadBtihEncoding))
    else Failure(Malformed(BadBtihLength))
  }

  /**
   * The digest of an info hash: a hex one decodes when every character is a
   * hex digit, to half as many bytes, which re-encode to the lower-cased
   * input; a base32 one is whatever the base32 decoder makes of it.
   */
  lemma InfoHashDigest(nss: string, base32: Base32Decoder)
    ensures var r := DecodeInfoHash(nss, base32);
      |nss| == 40 || |nss| == 64 ==>
        && (r.Success? <==> forall i :: 0 <= i < |nss| ==> IsHexDigit(nss[i]))
        && (r.Success? ==> |r.value.digest| == |nss| / 2 && HexEncode(r.value.digest) == Lower(nss))
    ensures var r := DecodeInfoHash(nss, base32);
      |nss| == 32 || |nss| == 56 ==>
        && (r.Success? <==> base32(nss).Some?)
        && (r.Success? ==> r.value.digest == base32(nss).value)
  {
    if (|nss| == 40 || |nss| == 64) && HexDecode(nss).Success? {
      HexEncodeDecode(nss);
    }
  }

  /** A digest written in lower-case hex is decoded back to itself, with the type its size implies. */
  lemma HexInfoHashRoundTrip(digest: seq<byte>, base32: Base32Decoder)
    requires |digest| == 20 || |digest| == 32
    ensures DecodeInfoHash(HexEncode(digest), base32) ==
      Success(HashValue(if |digest| == 20 then Sha1 else Sha256, digest))
  {
    HexDecodeEncode(digest);
  }

  /** The info-hash topics among `xt`, in order. */
  function BtihTopics(xt: seq<Urn>): (ts: seq<Urn>)
    ensures |ts| <= |xt|
    ensures forall j :: 0 <= j < |ts| ==> IsBtih(ts[j])
  {
    if xt == [] then []
    else BtihTopics(xt[..|xt| - 1]) + (if IsBtih(xt[|xt| - 1]) then [xt[|xt| - 1]] else [])
  }

  /** The error of the first info-hash topic that does not decode. */
  function DecodeError(ts: seq<Urn>, base32: Base32Decoder): Option<MagnetError> {
    if ts == [] then None
    else
      var e := DecodeError(ts[..|ts| - 1], base32);
      if e.Some? then e
      else
        var h := DecodeInfoHash(ts[|ts| - 1].nss, base32);
        if h.Failure? then Some(h.error) else None
  }

  /** Why `AsTorrent` fails, if it does: a topic that does not decode, else no info hash at all. */
  function TorrentError(xt: seq<Urn>, base32: Base32Decoder): Option<MagnetError> {
    var ts := BtihTopics(xt);
    if DecodeError(ts, base32).Some? then DecodeError(ts, base32)
    else if ts == [] then Some(WrongType)
    else None
  }

  /** `hashes` are the decoded info-hash topics, one each, in order. */
  predicate DecodedAll(ts: seq<Urn>, base32: Base32Decoder, hashes: seq<HashValue>) {
    |hashes| == |ts| &&
    forall j :: 0 <= j < |ts| ==> DecodeInfoHash(ts[j].nss, base32) == Success(hashes[j])
  }

  /**
   * `MagnetLink.AsTorrent`: decode the info hash of every "btih" exact topic,
   * in order, stopping at the first that cannot be decoded; a link without
   * any is of the wrong type.
   */
  method AsTorrent(l: MagnetLink, base32: Base32Decoder) returns (r: Result<TorrentMagnetLink, MagnetError>)
    ensures r.Failure? <==> TorrentError(l.exactTopics, base32).Some?
    ensures r.Failure? ==> r.error == TorrentError(l.exactTopics, base32).value
    ensures r.Success? ==> r.value.link == l
    ensures r.Success? ==> DecodedAll(BtihTopics(l.exactTopics), base32, r.value.infoHashes)
    ensures r.Success? ==> |r.value.infoHashes| > 0
  {
    var xt := l.exactTopics;
    var hashes: seq<HashValue> := [];
    ghost var ts: seq<Urn> := [];
    for i := 0 to |xt|
      invariant ts == BtihTopics(xt[..i])
      invariant DecodeError(ts, base32).None?
      invariant DecodedAll(ts, base32, hashes)
    {
      BtihTopicsSnoc(xt, i);
      if Lower(xt[i].nid) == "btih" {
        var h := DecodeInfoHash(xt[i].nss, base32);
        DecodeErrorSnoc(ts, xt[i], base32);
        if h.Failure? {
          DecodeErrorAt(xt, i, base32);
          return Failure(h.error);
        }
        DecodedAllSnoc(ts, xt[i], base32, hashes, h.value);
        hashes := hashes + [h.value];
        ts := ts + [xt[i]];
      } else {
        assert BtihTopics(xt[..i + 1]) == ts;
      }
    }
    assert xt[..|xt|] == xt;
    if |hashes| == 0 {
      return Failure(WrongType);
    }
    return Success(TorrentMagnetLink(l, hashes));
  }

  /**
   * `ParseTorrentMagnetLink`: a magnet link parse followed by `AsTorrent`;
   * the parse's error comes first.
   */
  method ParseTorrentMagnetLink(parsed: Option<Uri>, opts: seq<Option<ParseOption>>, base32: Base32Decoder)
    returns (r: Result<TorrentMagnetLink, MagnetError>)
    ensures ParseError(parsed, opts).Some? ==> r == Failure(ParseError(parsed, opts).value)
    ensures ParseError(parsed, opts).None? ==>
      var xt := UrnsOf(Gather(Entries(parsed.value.query), ExactTopic));
      && (r.Failure? <==> TorrentError(xt, base32).Some?)
      && (r.Failure? ==> r.error == TorrentError(xt, base32).value)
    ensures r.Success? ==> IsParseOf(r.value.link, Entries(parsed.value.query))
    ensures r.Success? ==> DecodedAll(BtihTopics(r.value.link.exactTopics), base32, r.value.infoHashes)
  {
    var link := ParseMagnetLink(parsed, opts);
    if link.Failure? {
      return Failure(link.error);
    }
    UrnsOfParsed(Gather(Entries(parsed.value.query), ExactTopic), link.value.exactTopics);
    r := AsTorrent(link.value, base32);
  }

  // ================================================================ lemmas behind the loop

  lemma BtihTopicsSnoc(xt: seq<Urn>, i: nat)
    requires i < |xt|
    ensures BtihTopics(xt[..i + 1]) == BtihTopics(xt[..i]) + (if IsBtih(xt[i]) then [xt[i]] else [])
  {
    assert xt[..i + 1][..i] == xt[..i];
  }

  lemma DecodeErrorSnoc(ts: seq<Urn>, t: Urn, base32: Base32Decoder)
    ensures DecodeError(ts + [t], base32) ==
      if DecodeError(ts, base32).Some? then DecodeError(ts, base32)
      else if DecodeInfoHash(t.nss, base32).Failure? then Some(DecodeInfoHash(t.nss, base32).error)
      else None
  {
    assert (ts + [t])[..|ts|] == ts;
  }

  lemma DecodedAllSnoc(ts: seq<Urn>, t: Urn, base32: Base32Decoder, hashes: seq<HashValue>, h: HashValue)
    requires DecodedAll(ts, base32, hashes) && DecodeInfoHash(t.nss, base32) == Success(h)
    ensures DecodedAll(ts + [t], base32, hashes + [h])
  {
  }

  lemma {:induction false} BtihTopicsConcat(a: seq<Urn>, b: seq<Urn>)
    ensures BtihTopics(a + b) == BtihTopics(a) + BtihTopics(b)
    decreases |b|
  {
    if b != [] {
      var b' := b[..|b| - 1];
      BtihTopicsConcat(a, b');
      assert (a + b)[..|a + b| - 1] == a + b';
      assert (a + b)[|a + b| - 1] == b[|b| - 1];
    } else {
      assert a + b == a;
    }
  }

  /**
   * `BtihTopics` is the order-keeping filter of the btih topics: a lone topic
   * is kept exactly when it is btih, and selection distributes over
   * concatenation; so topic j, when btih, sits right after the ones
   * selected from the topics before it.
   */
  lemma BtihTopicsFilter(xt: seq<Urn>, j: nat)
    requires j < |xt| && IsBtih(xt[j])
    ensures |BtihTopics(xt[..j])| < |BtihTopics(xt)|
    ensures BtihTopics(xt)[|BtihTopics(xt[..j])|] == xt[j]
    ensures BtihTopics(xt) == BtihTopics(xt[..j]) + [xt[j]] + BtihTopics(xt[j + 1..])
  {
    BtihTopicsSnoc(xt, j);
    BtihTopicsConcat(xt[..j + 1], xt[j + 1..]);
    assert xt[..j + 1] + xt[j + 1..] == xt;
  }

  /** Exactly the btih topics are selected: each selected topic is one of `xt`'s, and every btih topic of `xt` is selected. */
  lemma {:induction false} BtihTopicsMembers(xt: seq<Urn>)
    ensures forall u :: u in BtihTopics(xt) <==> u in xt && IsBtih(u)
    decreases |xt|
  {
    if xt != [] {
      var n := |xt| - 1;
      BtihTopicsMembers(xt[..n]);
      BtihTopicsSnoc(xt, n);
      assert xt[..n + 1] == xt;
      assert xt == xt[..n] + [xt[n]];
    }
  }

  lemma BtihTopicsOne(u: Urn)
    ensures BtihTopics([u]) == if IsBtih(u) then [u] else []
  {
    assert [u][..0] == [];
  }

  lemma {:induction false} DecodeErrorPrefix(p: seq<Urn>, s: seq<Urn>, base32: Base32Decoder)
    requires DecodeError(p, base32).Some?
    ensures DecodeError(p + s, base32) == DecodeError(p, base32)
    decreases |s|
  {
    if s != [] {
      var s' := s[..|s| - 1];
      DecodeErrorPrefix(p, s', base32);
      assert (p + s)[..|p + s| - 1] == p + s';
    } else {
      assert p + s == p;
    }
  }

  /** When the topic at `i` is the first info hash that fails, its error is the link's. */
  lemma DecodeErrorAt(xt: seq<Urn>, i: nat, base32: Base32Decoder)
    requires i < |xt| && IsBtih(xt[i])
    requires DecodeError(BtihTopics(xt[..i]), base32).None?
    requires DecodeInfoHash(xt[i].nss, base32).Failure?
    ensures TorrentError(xt, base32) == Some(DecodeInfoHash(xt[i].nss, base32).error)
  {
    var front, rest := BtihTopics(xt[..i]), BtihTopics(xt[i + 1..]);
    BtihTopicsFilter(xt, i);
    DecodeErrorSnoc(front, xt[i], base32);
    DecodeErrorPrefix(front + [xt[i]], rest, base32);
  }

  // ================================================================ properties

  /** A link without any info-hash topic is never a torrent link, whatever else it holds. */
  lemma NoBtihWrongType(xt: seq<Urn>, base32: Base32Decoder)
    requires forall j :: 0 <= j < |xt| ==> !IsBtih(xt[j])
    ensures TorrentError(xt, base32) == Some(WrongType)
  {
    NoBtihTopics(xt);
  }

  lemma {:induction false} NoBtihTopics(xt: seq<Urn>)
    requires forall j :: 0 <= j < |xt| ==> !IsBtih(xt[j])
    ensures BtihTopics(xt) == []
    decreases |xt|
  {
    if xt != [] {
      var p := xt[..|xt| - 1];
      assert forall j :: 0 <= j < |p| ==> p[j] == xt[j];
      NoBtihTopics(p);
    }
  }

  /** A link whose one exact topic is a hex info hash becomes a torrent link with that digest. */
  lemma SingleHexTopic(digest: seq<byte>, base32: Base32Decoder)
    requires |digest| == 20 || |digest| == 32
    ensures var xt := [Urn("btih", HexEncode(digest))];
      && TorrentError(xt, base32).None?
      && DecodedAll(BtihTopics(xt), base32, [HashValue(if |digest| == 20 then Sha1 else Sha256, digest)])
  {
    var xt := [Urn("btih", HexEncode(digest))];
    HexInfoHashRoundTrip(digest, base32);
    assert xt[..0] == [];
    assert Lower("btih") == "btih";
    assert BtihTopics(xt) == xt;
    DecodeErrorSnoc([], xt[0], base32);
    assert [] + [xt[0]] == xt;
  }
}
