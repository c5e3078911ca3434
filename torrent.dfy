/**
 * The torrent operations of `src/torrent.rs`: the info hash in its three
 * renderings (raw bytes, lowercase hex, percent-encoded for the tracker
 * URL), the tracker announce endpoint, and the 68-byte peer handshake of
 * BEP 3.
 *
 * The bencode serialiser (`serde_bencode::to_bytes`) and SHA-1 are foreign
 * code; they enter as the two functions of a `Hashing` value.
 */
module Torrent {
  import opened Text
  import opened Bytes
  import opened Tracker

  datatype Info = Info(name: string, length: usize, pieceLength: usize, pieces: seq<byte>)

  datatype Torrent = Torrent(announce: string, info: Info)

  /** A SHA-1 digest. */
  type Digest = s: seq<byte> | |s| == 20 witness seq(20, _ => 0)

  /** The foreign collaborators of the info hash: the bencode serialiser and SHA-1. */
  datatype Hashing = Hashing(bencode: Info -> seq<byte>, sha1: seq<byte> -> Digest)

  /** `info_hash_bytes`: SHA-1 of the bencoded `info` dictionary. */
  function InfoHashBytes(t: Torrent, h: Hashing): Digest {
    h.sha1(h.bencode(t.info))
  }

  /** `info_hash_hex`: the info hash as 40 lowercase hex digits, which read back to the digest. */
  function InfoHashHex(t: Torrent, h: Hashing): (r: string)
    ensures |r| == 40 && IsLowerHex(r)
    ensures HexDecode(r) == InfoHashBytes(t, h)
  {
    var digest := InfoHashBytes(t, h);
    HexRoundTrip(digest);
    HexEncode(digest)
  }

  // ---------------------------------------------------------------------------
  // Percent-encoding of the info hash

  /** A '%' in front of every pair of characters (the last one may be single). */
  function PercentEncoded(hex: string): (r: string)
    ensures |r| == |hex| + (|hex| + 1) / 2
  {
    if |hex| == 0 then []
    else if |hex| == 1 then ['%', hex[0]]
    else ['%', hex[0], hex[1]] + PercentEncoded(hex[2..])
  }

  /** Section 2.1 of RFC 3986: every byte as '%' and two hex digits (lowercase here). */
  function PercentEncodeBytes(bs: seq<byte>): (r: string)
    ensures |r| == 3 * |bs|
    ensures forall i :: 0 <= i < |r| ==> r[i] == '%' || IsHexDigit(r[i])
  {
    if bs == [] then []
    else ['%', HexDigit(bs[0] / 16), HexDigit(bs[0] % 16)] + PercentEncodeBytes(bs[1..])
  }

  /** The text with every '%' taken out. */
  function RemovePercents(s: string): (r: string)
    ensures '%' !in r
  {
    if s == [] then []
    else if s[0] == '%' then RemovePercents(s[1..])
    else [s[0]] + RemovePercents(s[1..])
  }

  /** Adding one more character extends the encoding, with a '%' first when it starts a pair. */
  lemma {:induction false} PercentEncodedSnoc(s: string, c: char)
    ensures PercentEncoded(s + [c]) == PercentEncoded(s) + (if |s| % 2 == 0 then ['%', c] else [c])
  {
    if |s| >= 2 {
      assert (s + [c])[2..] == s[2..] + [c];
      PercentEncodedSnoc(s[2..], c);
    }
  }

  /** When the `k`-th pair is complete, the `k`-th triple is '%' followed by that pair. */
  lemma {:induction false} PercentEncodedAt(hex: string, k: nat)
    requires 2 * k + 2 <= |hex|
    ensures PercentEncoded(hex)[3 * k] == '%'
    ensures PercentEncoded(hex)[3 * k + 1] == hex[2 * k] && PercentEncoded(hex)[3 * k + 2] == hex[2 * k + 1]
  {
    if k > 0 {
      var r' := PercentEncoded(hex[2..]);
      PercentEncodedAt(hex[2..], k - 1);
      assert PercentEncoded(hex) == ['%', hex[0], hex[1]] + r';
    }
  }

  /** On an even-length text, the encoding is a '%' and one pair of characters per triple. */
  lemma PercentEncodedLayout(hex: string)
    requires |hex| % 2 == 0
    ensures forall k :: 0 <= k < |hex| / 2 ==>
              PercentEncoded(hex)[3 * k] == '%' &&
              PercentEncoded(hex)[3 * k + 1] == hex[2 * k] && PercentEncoded(hex)[3 * k + 2] == hex[2 * k + 1]
  {
    forall k | 0 <= k < |hex| / 2
      ensures PercentEncoded(hex)[3 * k] == '%' &&
              PercentEncoded(hex)[3 * k + 1] == hex[2 * k] && PercentEncoded(hex)[3 * k + 2] == hex[2 * k + 1]
    {
      PercentEncodedAt(hex, k);
    }
  }

  /** Removing the '%' signs gives back any text that had none. */
  lemma {:induction false} RemovePercentsOfEncoded(hex: string)
    requires '%' !in hex
    ensures RemovePercents(PercentEncoded(hex)) == hex
  {
    if |hex| >= 2 {
      var r := PercentEncoded(hex);
      assert r[1..] == [hex[0], hex[1]] + PercentEncoded(hex[2..]);
      assert r[1..][1..] == [hex[1]] + PercentEncoded(hex[2..]);
      assert r[1..][1..][1..] == PercentEncoded(hex[2..]);
      assert '%' !in hex[2..] by {
        forall i | 0 <= i < |hex[2..]| ensures hex[2..][i] != '%' { assert hex[2..][i] == hex[i + 2]; }
      }
      RemovePercentsOfEncoded(hex[2..]);
      assert hex[0] != '%' && hex[1] != '%';
      assert RemovePercents(r[1..][1..]) == [hex[1]] + hex[2..];
      assert RemovePercents(r[1..]) == [hex[0]] + ([hex[1]] + hex[2..]);
      assert hex == [hex[0]] + ([hex[1]] + hex[2..]);
    } else if |hex| == 1 {
      var r := PercentEncoded(hex);
      assert hex[0] != '%' && hex == [hex[0]];
      assert r[1..] == [hex[0]] && r[1..][1..] == [];
      assert RemovePercents(r[1..]) == [hex[0]];
    }
  }

  /** Putting a '%' in front of each pair of `hex::encode`'s digits is the RFC 3986 encoding of the bytes. */
  lemma {:induction false} PercentEncodedHex(bs: seq<byte>)
    ensures PercentEncoded(HexEncode(bs)) == PercentEncodeBytes(bs)
  {
    if bs != [] {
      var s := HexEncode(bs);
      assert s[2..] == HexEncode(bs[1..]);
      PercentEncodedHex(bs[1..]);
    }
  }

  lemma NoPercentInHex(hex: string)
    requires IsLowerHex(hex)
    ensures '%' !in hex
  {
    forall i | 0 <= i < |hex| ensures hex[i] != '%' { assert IsHexDigit(hex[i]); }
  }

  /**
   * `info_hash_url_encoded`: walks the hex digits of the info hash and puts
   * a '%' before every even-indexed one, which percent-encodes the digest.
   */
  method InfoHashUrlEncoded(t: Torrent, h: Hashing) returns (urlEncoded: string)
    ensures urlEncoded == PercentEncodeBytes(InfoHashBytes(t, h))
    ensures |urlEncoded| == 60
    ensures forall k :: 0 <= k < 20 ==>
              urlEncoded[3 * k] == '%' &&
              urlEncoded[3 * k + 1] == InfoHashHex(t, h)[2 * k] && urlEncoded[3 * k + 2] == InfoHashHex(t, h)[2 * k + 1]
    ensures RemovePercents(urlEncoded) == InfoHashHex(t, h)
  {
    var hash := InfoHashHex(t, h);
    urlEncoded := "";
    for i := 0 to |hash|
      invariant urlEncoded == PercentEncoded(hash[..i])
    {
      PercentEncodedSnoc(hash[..i], hash[i]);
      assert hash[..i + 1] == hash[..i] + [hash[i]];
      if i % 2 == 0 {
        urlEncoded := urlEncoded + ['%'];
      }
      urlEncoded := urlEncoded + [hash[i]];
    }
    assert hash[..|hash|] == hash;
    PercentEncodedHex(InfoHashBytes(t, h));
    PercentEncodedLayout(hash);
    NoPercentInHex(hash);
    RemovePercentsOfEncoded(hash);
  }

  // ---------------------------------------------------------------------------
  // Tracker announce endpoint

  /** The `format!` of `discover_peers`: the announce URL with the announce query appended. */
  function Endpoint(announce: string, infoHash: string, left: usize): string {
    announce + "?info_hash=" + infoHash + "&peer_id=" + PEER_ID + "&port=" + Format(6881)
      + "&uploaded=" + Format(0) + "&downloaded=" + Format(0) + "&left=" + Format(left)
      + "&compact=" + Format(1)
  }

  /** One `key=value` field of a URL query. */
  datatype Param = Param(key: string, value: string)

  /** The fields joined as `k1=v1&k2=v2&...`. */
  function Query(params: seq<Param>): string
    requires |params| > 0
  {
    var field := params[0].key + "=" + params[0].value;
    if |params| == 1 then field else field + ("&" + Query(params[1..]))
  }

  /** Splits a field at its first '='. */
  function ParseParam(field: string): Param {
    match IndexOf(field, '=')
    case None => Param(field, "")
    case Some(j) => Param(field[..j], field[j + 1..])
  }

  /** Splits a query at every '&' and each field at its first '='. */
  function ParseQuery(q: string): (r: seq<Param>)
    ensures |r| > 0
    decreases |q|
  {
    match IndexOf(q, '&')
    case None => [ParseParam(q)]
    case Some(i) => [ParseParam(q[..i])] + ParseQuery(q[i + 1..])
  }

  /** A field that survives the round trip: no '&' anywhere, no '=' in the key. */
  predicate SafeParam(p: Param) {
    '&' !in p.key && '=' !in p.key && '&' !in p.value
  }

  predicate QuerySafe(params: seq<Param>) {
    forall i :: 0 <= i < |params| ==> SafeParam(params[i])
  }

  /** A field with no '=' in its key splits back into its key and value. */
  lemma FieldRoundTrip(p: Param)
    requires SafeParam(p)
    ensures ParseParam(p.key + "=" + p.value) == p
    ensures '&' !in p.key + "=" + p.value
  {
    var field := p.key + "=" + p.value;
    assert field == p.key + ['='] + p.value;
    IndexOfAfter(p.key, '=', p.value);
    assert field[..|p.key|] == p.key && field[|p.key| + 1..] == p.value;
    forall i | 0 <= i < |field| ensures field[i] != '&' {
      if i > |p.key| { assert field[i] == p.value[i - |p.key| - 1]; }
    }
  }

  /** The first field of a query of several is the text before the first '&'. */
  lemma SplitAtAmpersand(field: string, rest: string)
    requires '&' !in field
    ensures ParseQuery(field + ("&" + rest)) == [ParseParam(field)] + ParseQuery(rest)
  {
    var q := field + ("&" + rest);
    assert q == field + ['&'] + rest;
    IndexOfAfter(field, '&', rest);
    assert q[..|field|] == field && q[|field| + 1..] == rest;
  }

  /** A query whose keys hold no '&' or '=' and whose values hold no '&' parses back to its fields. */
  lemma {:induction false} QueryRoundTrip(params: seq<Param>)
    requires |params| > 0 && QuerySafe(params)
    ensures ParseQuery(Query(params)) == params
  {
    var p := params[0];
    assert SafeParam(p);
    var field := p.key + "=" + p.value;
    FieldRoundTrip(p);
    if |params| > 1 {
      SplitAtAmpersand(field, Query(params[1..]));
      assert QuerySafe(params[1..]) by {
        forall i | 0 <= i < |params| - 1 ensures SafeParam(params[1..][i]) { assert SafeParam(params[i + 1]); }
      }
      QueryRoundTrip(params[1..]);
    } else {
      assert IndexOf(field, '&') == None;
    }
  }

  /** The query fields of an announce request, in the order of its fields. */
  function RequestParams(infoHash: string, req: TrackerRequest): seq<Param> {
    [ Param("info_hash", infoHash),
      Param("peer_id", req.peerId),
      Param("port", Format(req.port)),
      Param("uploaded", Format(req.uploaded)),
      Param("downloaded", Format(req.downloaded)),
      Param("left", Format(req.left)),
      Param("compact", if req.compact then "1" else "0") ]
  }

  lemma Reassoc(p: string, x: string, s: string)
    ensures p + x + s == p + (x + s)
  {
  }

  lemma FormatConstants()
    ensures Format(0) == "0" && Format(1) == "1" && Format(6881) == "6881"
  {
    assert Format(6881) == Format(688) + "1";
    assert Format(688) == Format(68) + "8";
    assert Format(68) == Format(6) + "8";
  }

  /** Every key and value of the announce query is free of '&', and every key of '='. */
  lemma RequestParamsSafe(infoHash: string, left: usize)
    requires '&' !in infoHash
    ensures QuerySafe(RequestParams(infoHash, NewTrackerRequest(left)))
  {
    FormatConstants();
    var fl := Format(left);
    assert '&' !in fl by {
      forall i | 0 <= i < |fl| ensures fl[i] != '&' { assert IsDigit(fl[i]); }
    }
    ConstantParamsSafe();
    assert SafeParam(Param("info_hash", infoHash));
    assert SafeParam(Param("left", fl));
  }

  lemma ConstantParamsSafe()
    ensures SafeParam(Param("peer_id", PEER_ID)) && SafeParam(Param("port", "6881"))
    ensures SafeParam(Param("uploaded", "0")) && SafeParam(Param("downloaded", "0"))
    ensures SafeParam(Param("compact", "1"))
  {
    PeerIdSafe();
    assert SafeParam(Param("port", "6881"));
    assert SafeParam(Param("uploaded", "0"));
    assert SafeParam(Param("downloaded", "0"));
  }

  lemma PeerIdSafe()
    ensures SafeParam(Param("peer_id", PEER_ID))
  {
    assert AllDigits(PEER_ID);
    forall i | 0 <= i < |PEER_ID| ensures PEER_ID[i] != '&' { assert IsDigit(PEER_ID[i]); }
  }

  /** The right-associated form of the announce query's text, from the info hash value on. */
  function QueryTail(infoHash: string, left: usize): string {
    infoHash + ("&peer_id=" + (PEER_ID + ("&port=" + ("6881" + ("&uploaded=" + ("0" + ("&downloaded="
      + ("0" + ("&left=" + (Format(left) + ("&compact=" + "1")))))))))))
  }

  lemma EndpointShape(announce: string, infoHash: string, left: usize)
    ensures Endpoint(announce, infoHash, left) == announce + ("?info_hash=" + QueryTail(infoHash, left))
  {
    FormatConstants();
    var f6881, f0, f1, fl := Format(6881), Format(0), Format(1), Format(left);
    var s13 := "&compact=" + f1;
    var s11 := "&left=" + (fl + s13);
    var s9 := "&downloaded=" + (f0 + s11);
    var s7 := "&uploaded=" + (f0 + s9);
    var s5 := "&port=" + (f6881 + s7);
    var s3 := "&peer_id=" + (PEER_ID + s5);
    var s2 := infoHash + s3;
    assert s2 == QueryTail(infoHash, left);
    var p1 := announce + "?info_hash=";
    var p3 := p1 + infoHash + "&peer_id=";
    var p5 := p3 + PEER_ID + "&port=";
    var p7 := p5 + f6881 + "&uploaded=";
    var p9 := p7 + f0 + "&downloaded=";
    var p11 := p9 + f0 + "&left=";
    var p13 := p11 + fl + "&compact=";
    assert Endpoint(announce, infoHash, left) == p13 + f1;
    Reassoc(p11 + fl, "&compact=", f1);
    Reassoc(p11, fl, s13);
    Reassoc(p9 + f0, "&left=", fl + s13);
    Reassoc(p9, f0, s11);
    Reassoc(p7 + f0, "&downloaded=", f0 + s11);
    Reassoc(p7, f0, s9);
    Reassoc(p5 + f6881, "&uploaded=", f0 + s9);
    Reassoc(p5, f6881, s7);
    Reassoc(p3 + PEER_ID, "&port=", f6881 + s7);
    Reassoc(p3, PEER_ID, s5);
    Reassoc(p1 + infoHash, "&peer_id=", PEER_ID + s5);
    Reassoc(p1, infoHash, s3);
    Reassoc(announce, "?info_hash=", s2);
  }

  /** One field in front of the rest of a query, associated to the right. */
  lemma QueryStep(ps: seq<Param>, k: nat)
    requires k + 1 < |ps|
    ensures Query(ps[k..]) == ps[k].key + ("=" + (ps[k].value + ("&" + Query(ps[k + 1..]))))
  {
    assert ps[k..][1..] == ps[k + 1..];
  }

  /** A separator, a key and '=' in front of the rest of a query. */
  lemma SplitPiece(sep: string, key: string, x: string)
    ensures sep + (key + ("=" + x)) == (sep + key + "=") + x
  {
  }

  // The literal pieces of the endpoint template, each a separator, a key and '='.

  lemma PieceInfoHash() ensures [] + "info_hash" + "=" == "info_hash=" && "?info_hash=" == ['?'] + "info_hash=" {}
  lemma PiecePeerId() ensures "&" + "peer_id" + "=" == "&peer_id=" {}
  lemma PiecePort() ensures "&" + "port" + "=" == "&port=" {}
  lemma PieceUploaded() ensures "&" + "uploaded" + "=" == "&uploaded=" {}
  lemma PieceDownloaded() ensures "&" + "downloaded" + "=" == "&downloaded=" {}
  lemma PieceLeft() ensures "&" + "left" + "=" == "&left=" {}
  lemma PieceCompact() ensures "&" + "compact" + "=" == "&compact=" {}

  /** The announce query's first fields, with the constant settings formatted. */
  lemma RequestParamsHead(infoHash: string, left: usize)
    ensures |RequestParams(infoHash, NewTrackerRequest(left))| == 7
    ensures RequestParams(infoHash, NewTrackerRequest(left))[0] == Param("info_hash", infoHash)
    ensures RequestParams(infoHash, NewTrackerRequest(left))[1] == Param("peer_id", PEER_ID)
    ensures RequestParams(infoHash, NewTrackerRequest(left))[2] == Param("port", "6881")
  {
    var req := NewTrackerRequest(left);
    var ps := RequestParams(infoHash, req);
    assert ps[1].value == req.peerId == PEER_ID;
    assert ps[2].value == Format(req.port) && req.port == 6881;
    FormatConstants();
  }

  /** The announce query's last fields, with the constant settings formatted. */
  lemma RequestParamsTail(infoHash: string, left: usize)
    ensures |RequestParams(infoHash, NewTrackerRequest(left))| == 7
    ensures RequestParams(infoHash, NewTrackerRequest(left))[3] == Param("uploaded", "0")
    ensures RequestParams(infoHash, NewTrackerRequest(left))[4] == Param("downloaded", "0")
    ensures RequestParams(infoHash, NewTrackerRequest(left))[5] == Param("left", Format(left))
    ensures RequestParams(infoHash, NewTrackerRequest(left))[6] == Param("compact", "1")
  {
    var req := NewTrackerRequest(left);
    var ps := RequestParams(infoHash, req);
    assert ps[3].value == Format(req.uploaded) && req.uploaded == 0;
    assert ps[4].value == Format(req.downloaded) && req.downloaded == 0;
    FormatConstants();
  }

  /** The last two fields of an announce query. */
  lemma RequestQueryLeft(infoHash: string, left: usize)
    ensures Query(RequestParams(infoHash, NewTrackerRequest(left))[5..])
              == "left" + ("=" + (Format(left) + ("&compact=" + "1")))
  {
    var ps := RequestParams(infoHash, NewTrackerRequest(left));
    RequestParamsTail(infoHash, left);
    assert ps[6..] == [ps[6]];
    assert Query(ps[6..]) == "compact" + ("=" + "1");
    QueryStep(ps, 5);
    SplitPiece("&", "compact", "1");
    PieceCompact();
  }

  /** The fields of an announce query from `uploaded` on. */
  lemma RequestQueryLast(infoHash: string, left: usize)
    ensures Query(RequestParams(infoHash, NewTrackerRequest(left))[3..])
              == "uploaded" + ("=" + ("0" + ("&downloaded=" + ("0" + ("&left=" + (Format(left) + ("&compact=" + "1")))))))
  {
    var ps := RequestParams(infoHash, NewTrackerRequest(left));
    var s11 := "&left=" + (Format(left) + ("&compact=" + "1"));
    RequestParamsTail(infoHash, left);
    RequestQueryLeft(infoHash, left);
    QueryStep(ps, 4);
    SplitPiece("&", "left", Format(left) + ("&compact=" + "1"));
    PieceLeft();
    QueryStep(ps, 3);
    SplitPiece("&", "downloaded", "0" + s11);
    PieceDownloaded();
  }

  lemma RequestQueryShape(infoHash: string, left: usize)
    ensures Query(RequestParams(infoHash, NewTrackerRequest(left))) == "info_hash=" + QueryTail(infoHash, left)
  {
    RequestParamsHead(infoHash, left);
    RequestParamsTail(infoHash, left);
    PieceInfoHash();
    PiecePeerId();
    PiecePort();
    PieceUploaded();
    var ps := RequestParams(infoHash, NewTrackerRequest(left));
    var s9 := "&downloaded=" + ("0" + ("&left=" + (Format(left) + ("&compact=" + "1"))));
    var s7 := "&uploaded=" + ("0" + s9);
    var s5 := "&port=" + ("6881" + s7);
    var s3 := "&peer_id=" + (PEER_ID + s5);
    RequestQueryLast(infoHash, left);
    QueryStep(ps, 2);
    SplitPiece("&", "uploaded", "0" + s9);
    QueryStep(ps, 1);
    SplitPiece("&", "port", "6881" + s7);
    QueryStep(ps, 0);
    SplitPiece("&", "peer_id", PEER_ID + s5);
    assert ps[0..] == ps;
    SplitPiece([], "info_hash", infoHash + s3);
  }

  /**
   * The endpoint is the announce URL, a '?', and a query that parses to
   * the fields of `TrackerRequest::new(left)` in declaration order, with the
   * info hash first.
   */
  lemma EndpointQuery(announce: string, infoHash: string, left: usize)
    requires '&' !in infoHash
    ensures Endpoint(announce, infoHash, left)
              == announce + ['?'] + Query(RequestParams(infoHash, NewTrackerRequest(left)))
    ensures ParseQuery(Endpoint(announce, infoHash, left)[|announce| + 1..])
              == RequestParams(infoHash, NewTrackerRequest(left))
  {
    var ps := RequestParams(infoHash, NewTrackerRequest(left));
    var tail := QueryTail(infoHash, left);
    EndpointShape(announce, infoHash, left);
    RequestQueryShape(infoHash, left);
    var q := Query(ps);
    assert "?info_hash=" + tail == ['?'] + q by {
      PieceInfoHash();
      Reassoc(['?'], "info_hash=", tail);
    }
    Reassoc(announce, ['?'], q);
    assert (announce + ['?'] + q)[|announce| + 1..] == q;
    RequestParamsSafe(infoHash, left);
    QueryRoundTrip(ps);
  }

  /**
   * `discover_peers` without the HTTP exchange: the endpoint it requests and
   * the peers it reads from the tracker's (already decoded) response, `None`
   * where `all_peers` panics.
   */
  method DiscoverPeers(t: Torrent, h: Hashing, response: TrackerResponse)
    returns (endpoint: string, peers: Option<seq<Peer>>)
    ensures endpoint == Endpoint(t.announce, PercentEncodeBytes(InfoHashBytes(t, h)), t.info.length)
    ensures ParseQuery(endpoint[|t.announce| + 1..])
              == RequestParams(PercentEncodeBytes(InfoHashBytes(t, h)), NewTrackerRequest(t.info.length))
    ensures peers.None? <==> |response.peers| % 6 != 0
    ensures |response.peers| % 6 == 0 ==> peers == Some(CompactPeers(response.peers))
  {
    var urlEncoded := InfoHashUrlEncoded(t, h);
    endpoint := Endpoint(t.announce, urlEncoded, t.info.length);
    assert '&' !in urlEncoded by {
      forall i | 0 <= i < |urlEncoded| ensures urlEncoded[i] != '&' {
        assert urlEncoded[i] == '%' || IsHexDigit(urlEncoded[i]);
      }
    }
    EndpointQuery(t.announce, urlEncoded, t.info.length);
    peers := AllPeers(response);
  }

  // ---------------------------------------------------------------------------
  // Peer handshake

  /** A `for byte in bytes { message.push(byte) }` loop: appends the bytes in order. */
  method PushAll(message: seq<byte>, bytes: seq<byte>) returns (grown: seq<byte>)
    ensures grown == message + bytes
  {
    grown := message;
    for i := 0 to |bytes|
      invariant grown == message + bytes[..i]
    {
      assert bytes[..i + 1] == bytes[..i] + [bytes[i]];
      grown := grown + [bytes[i]];
    }
    assert bytes[..|bytes|] == bytes;
  }

  /** The protocol identifier of the handshake. */
  const PROTOCOL: string := "BitTorrent protocol"

  lemma HandshakeConstantsAscii()
    ensures IsAscii(PROTOCOL) && |PROTOCOL| == 19
    ensures IsAscii(PEER_ID) && |PEER_ID| == 20
  {
  }

  /** Where each field of a five-field message sits. */
  lemma HandshakeLayout(len: seq<byte>, protocol: seq<byte>, reserved: seq<byte>, infoHash: seq<byte>, peerId: seq<byte>)
    requires |len| == 1 && |protocol| == 19 && |reserved| == 8 && |infoHash| == 20 && |peerId| == 20
    ensures var m := len + protocol + reserved + infoHash + peerId;
      |m| == 68 && m[0] == len[0] && m[1..20] == protocol && m[20..28] == reserved
      && m[28..48] == infoHash && m[48..68] == peerId
  {
    var m := len + protocol + reserved + infoHash + peerId;
    assert m[1..20] == protocol;
    assert m[20..28] == reserved;
    assert m[28..48] == infoHash;
  }

  /** What the handshake yields: the peer's id in hex, or end of stream before 68 bytes arrived. */
  datatype HandshakeResult = PeerIdHex(hex: string) | UnexpectedEof

  /**
   * `peer_handshake`, given the bytes the peer sends back: builds the 68-byte
   * handshake one field at a time (`sent`), then reads exactly 68 bytes and
   * returns the hex of the last 20. Nothing in the reply is checked, not even
   * the echoed info hash.
   */
  method PeerHandshake(t: Torrent, h: Hashing, received: seq<byte>) returns (sent: seq<byte>, result: HandshakeResult)
    ensures |sent| == 68 && sent[0] == 19
    ensures sent[1..20] == AsciiBytes(PROTOCOL)
    ensures forall i :: 20 <= i < 28 ==> sent[i] == 0
    ensures sent[28..48] == InfoHashBytes(t, h)
    ensures sent[48..68] == AsciiBytes(PEER_ID)
    ensures result == UnexpectedEof <==> |received| < 68
    ensures |received| >= 68 ==> result == PeerIdHex(HexEncode(received[48..68]))
    ensures result.PeerIdHex? ==> |result.hex| == 40 && HexDecode(result.hex) == received[48..68]
  {
    var message: seq<byte> := [19];
    HandshakeConstantsAscii();
    var protocol, reserved, infoHash, peerId :=
      AsciiBytes(PROTOCOL), seq(8, _ => 0), InfoHashBytes(t, h), AsciiBytes(PEER_ID);
    message := PushAll(message, protocol);
    message := PushAll(message, reserved);
    message := PushAll(message, infoHash);
    message := PushAll(message, peerId);
    HandshakeLayout([19], protocol, reserved, infoHash, peerId);
    sent := message;

    if |received| < 68 {
      result := UnexpectedEof;
    } else {
      var buffer := received[..68];
      assert buffer[48..] == received[48..68];
      HexRoundTrip(buffer[48..]);
      result := PeerIdHex(HexEncode(buffer[48..]));
    }
  }
}
