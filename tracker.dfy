/**
 * The tracker records of `src/tracker.rs`: the announce request with its
 * fixed settings, a peer address, and the compact peer list of a tracker
 * response (BEP 23: six bytes per peer, four of IPv4 address and two of
 * big-endian port).
 */
module Tracker {
  import opened Text
  import opened Bytes

  /** The fixed local peer id. */
  const PEER_ID: string := "00112233445566778899"

  /** The fixed local listening port. */
  const PORT: u16 := 6881

  datatype TrackerRequest = TrackerRequest(
    peerId: string,
    port: u16,
    uploaded: usize,
    downloaded: usize,
    left: usize,
    compact: bool)

  /** `TrackerRequest::new`: a fresh announce for a download with `left` bytes to go. */
  function NewTrackerRequest(left: usize): (r: TrackerRequest)
    ensures r.peerId == PEER_ID && |r.peerId| == 20 && r.port == 6881
    ensures r.uploaded == 0 && r.downloaded == 0
    ensures r.left == left && r.compact
  {
    TrackerRequest(PEER_ID, PORT, 0, 0, left, true)
  }

  /** Rust's `Ipv4Addr`, four octets in network order. */
  datatype Ipv4Addr = Ipv4Addr(a: byte, b: byte, c: byte, d: byte) {
    function Octets(): (r: seq<byte>)
      ensures |r| == 4 && Ipv4Addr(r[0], r[1], r[2], r[3]) == this
    {
      [a, b, c, d]
    }
  }

  datatype SocketAddrV4 = SocketAddrV4(ip: Ipv4Addr, port: u16)

  /** A peer, a newtype wrapper around its socket address. */
  datatype Peer = Peer(socket: SocketAddrV4) {
    /** `Peer::addr`: the wrapped address, unchanged. */
    function Addr(): (r: SocketAddrV4)
      ensures Peer(r) == this
    {
      socket
    }
  }

  datatype TrackerResponse = TrackerResponse(interval: usize, peers: seq<byte>)

  /** `u16::from_be_bytes([hi, lo])`. */
  function FromBeBytes(hi: byte, lo: byte): (r: u16)
    ensures r / 256 == hi && r % 256 == lo
  {
    hi * 256 + lo
  }

  /** The peer of the `i`-th 6-byte record of a compact peer list. */
  function PeerAt(bytes: seq<byte>, i: nat): Peer
    requires 6 * i + 6 <= |bytes|
  {
    var ip := Ipv4Addr(bytes[6 * i], bytes[6 * i + 1], bytes[6 * i + 2], bytes[6 * i + 3]);
    Peer(SocketAddrV4(ip, FromBeBytes(bytes[6 * i + 4], bytes[6 * i + 5])))
  }

  /** The peers of a compact peer list, one per record, in record order. */
  function CompactPeers(bytes: seq<byte>): (r: seq<Peer>)
    requires |bytes| % 6 == 0
    ensures |r| == |bytes| / 6
  {
    seq(|bytes| / 6, i requires 0 <= i < |bytes| / 6 => PeerAt(bytes, i))
  }

  /** The 6-byte compact record of one peer. */
  function PeerBytes(p: Peer): (r: seq<byte>)
    ensures |r| == 6
  {
    p.Addr().ip.Octets() + [p.Addr().port / 256, p.Addr().port % 256]
  }

  /** The compact list of a sequence of peers, records in peer order. */
  function CompactBytes(peers: seq<Peer>): (r: seq<byte>)
    ensures |r| == 6 * |peers|
  {
    if peers == [] then [] else PeerBytes(peers[0]) + CompactBytes(peers[1..])
  }

  /**
   * `TrackerResponse::all_peers`: walks the peer bytes six at a time. A list
   * whose length is not a multiple of six ends in a short chunk, and reading
   * its missing bytes panics; the panic is `None`.
   */
  method AllPeers(response: TrackerResponse) returns (peers: Option<seq<Peer>>)
    ensures peers.None? <==> |response.peers| % 6 != 0
    ensures |response.peers| % 6 == 0 ==> peers == Some(CompactPeers(response.peers))
    ensures peers.Some? ==> |peers.value| == |response.peers| / 6
    ensures peers.Some? ==> forall i :: 0 <= i < |peers.value| ==>
              peers.value[i].Addr().ip.Octets() == response.peers[6 * i..6 * i + 4] &&
              peers.value[i].Addr().port == response.peers[6 * i + 4] as int * 256 + response.peers[6 * i + 5]
    ensures peers.Some? ==> CompactBytes(peers.value) == response.peers
  {
    var bytes := response.peers;
    var found := [];
    var offset := 0;
    while offset < |bytes|
      invariant 0 <= offset <= |bytes| && offset % 6 == 0
      invariant found == CompactPeers(bytes[..offset])
    {
      if |bytes| - offset < 6 {
        return None;
      }
      var chunk := bytes[offset..offset + 6];
      var addr := Ipv4Addr(chunk[0], chunk[1], chunk[2], chunk[3]);
      var port := FromBeBytes(chunk[4], chunk[5]);
      var peer := Peer(SocketAddrV4(addr, port));
      CompactPeersSnoc(bytes[..offset], chunk);
      assert bytes[..offset + 6] == bytes[..offset] + chunk;
      found := found + [peer];
      offset := offset + 6;
    }
    assert bytes[..offset] == bytes;
    CompactPeersFields(bytes);
    CompactBytesOfPeers(bytes);
    peers := Some(found);
  }

  // ---------------------------------------------------------------------------
  // Properties

  /** One more record adds one more peer at the end. */
  lemma CompactPeersSnoc(bytes: seq<byte>, chunk: seq<byte>)
    requires |bytes| % 6 == 0 && |chunk| == 6
    ensures CompactPeers(bytes + chunk)
              == CompactPeers(bytes) + [Peer(SocketAddrV4(Ipv4Addr(chunk[0], chunk[1], chunk[2], chunk[3]), FromBeBytes(chunk[4], chunk[5])))]
  {
    var all := bytes + chunk;
    assert PeerAt(all, |bytes| / 6) == Peer(SocketAddrV4(Ipv4Addr(chunk[0], chunk[1], chunk[2], chunk[3]), FromBeBytes(chunk[4], chunk[5])));
    forall i | 0 <= i < |bytes| / 6 ensures PeerAt(all, i) == PeerAt(bytes, i) {
      assert all[6 * i..6 * i + 6] == bytes[6 * i..6 * i + 6];
    }
  }

  /** Entry `i` has the octets of record `i` in order and its big-endian port. */
  lemma CompactPeersFields(bytes: seq<byte>)
    requires |bytes| % 6 == 0
    ensures forall i :: 0 <= i < |bytes| / 6 ==>
              CompactPeers(bytes)[i].Addr().ip.Octets() == bytes[6 * i..6 * i + 4] &&
              CompactPeers(bytes)[i].Addr().port == bytes[6 * i + 4] as int * 256 + bytes[6 * i + 5]
  {
  }

  /** Re-encoding the parsed peers gives back the compact list: the parse loses nothing. */
  lemma {:induction false} CompactBytesOfPeers(bytes: seq<byte>)
    requires |bytes| % 6 == 0
    ensures CompactBytes(CompactPeers(bytes)) == bytes
  {
    if bytes != [] {
      var ps := CompactPeers(bytes);
      var tail := bytes[6..];
      assert ps[1..] == CompactPeers(tail) by {
        forall i | 0 <= i < |tail| / 6 ensures ps[1..][i] == CompactPeers(tail)[i] {
          assert tail[6 * i..6 * i + 6] == bytes[6 * (i + 1)..6 * (i + 1) + 6];
        }
      }
      CompactBytesOfPeers(tail);
      assert PeerBytes(ps[0]) == bytes[..6];
      assert bytes == bytes[..6] + tail;
    }
  }

  /** Parsing the compact list of any peers gives back those peers, in order. */
  lemma {:induction false} CompactPeersOfBytes(peers: seq<Peer>)
    ensures CompactPeers(CompactBytes(peers)) == peers
  {
    if peers != [] {
      var bytes := CompactBytes(peers);
      var tail := CompactBytes(peers[1..]);
      CompactPeersOfBytes(peers[1..]);
      var p := peers[0];
      assert PeerAt(bytes, 0) == p by {
        var q := PeerAt(bytes, 0);
        assert q.Addr().ip.Octets() == p.Addr().ip.Octets();
        assert q.Addr().port == p.Addr().port;
      }
      forall i | 1 <= i < |peers| ensures CompactPeers(bytes)[i] == peers[i] {
        assert bytes[6 * i..6 * i + 6] == tail[6 * (i - 1)..6 * (i - 1) + 6];
        assert PeerAt(bytes, i) == PeerAt(tail, i - 1);
      }
    }
  }
}
