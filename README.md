# A verified model of a small BitTorrent client

This project models the core of a Rust BitTorrent client in Dafny and proves
properties of the model. It covers three parts:

- **The bencode byte-string decoder** (`src/decoder.rs`). It reads the
  `<len>:<payload>` form of bencoding (BEP 3). The only value it builds is a
  JSON string. It also returns a count, which is the declared length `n`.
- **The tracker records** (`src/tracker.rs`). These are the announce request
  built by `TrackerRequest::new`, the peer address returned by `Peer::addr`,
  and `all_peers`. `all_peers` reads the compact peer list of BEP 23: six
  bytes per peer, four of IPv4 address and two of big-endian port.
- **The torrent operations** (`src/torrent.rs`):
  - the info hash as raw bytes, as lowercase hex, and percent-encoded for the
    tracker URL (`info_hash_url_encoded`);
  - the announce endpoint that `discover_peers` formats;
  - the 68-byte handshake that `peer_handshake` sends, and the peer id it
    reads from the reply.

The modules follow the source files:

| file | module | models |
|---|---|---|
| `text.dfy` | `Text` | `str::find` on a `char`, and the decimal numerals of `{}` formatting and `str::parse` |
| `bytes.dfy` | `Bytes` | `u8`, `u16` and `usize`, the bytes of an ASCII literal, and `hex::encode` |
| `decoder.dfy` | `Decoder` | `src/decoder.rs` |
| `tracker.dfy` | `Tracker` | `src/tracker.rs` |
| `torrent.dfy` | `Torrent` | `src/torrent.rs` |

### Modelling choices

- **Decoder panics become errors.** Every panic in the decoder becomes a
  `DecodeError` value:
  - an empty input;
  - a first character that is not a digit;
  - no colon in the input;
  - a length that is not an `i64`;
  - a slice past the end of the input.
- **all_peers panics become `None`.** A peer list whose length is not a
  multiple of six ends in a short chunk, and reading that chunk panics. The
  model returns `None` in that case.
- **SHA-1 and the bencode serialiser are parameters.** They are foreign code,
  so they enter as the two functions of a `Hashing` value. The only thing the
  model knows about the digest is that it has 20 bytes.
- **Loops stay loops.** The source builds three results with loops:
  - `all_peers` walks the peer bytes;
  - `info_hash_url_encoded` walks the hex digits;
  - `peer_handshake` pushes the handshake bytes one at a time.

  Each of these is a method with a loop. Each loop is proved against a
  function on values (`CompactPeers`, `PercentEncoded`, concatenation).

### Behaviour worth knowing

- **The decoder's count.** The decoder returns the declared length as its
  count: 5 for `"5:hello"`, not the 7 characters consumed.
  `CountIsDeclaredLength` states this.
- **The echoed info hash.** `peer_handshake` never compares the echoed info
  hash (reply bytes 28 to 48) with the one it sent. `PeerHandshake`
  therefore succeeds on any reply of 68 bytes or more.
- **Hex case.** The percent-encoding uses lowercase hex digits, although
  section 2.1 of RFC 3986 recommends uppercase.
- **Leading zeros.** The length before the colon may carry leading zeros:
  `"007"` parses to 7 (`LeadingZerosParse`).

## Model

| member | source | states |
|---|---|---|
| Text.IndexOf | src/decoder.rs:24 | The result is the position of the first occurrence of the character, with no occurrence before it. It is `None` exactly when the character does not occur. |
| Text.IndexOfAfter | src/decoder.rs:24 | When a prefix holds no colon, the first colon found in `prefix ':' rest` is the one right after the prefix. This holds whatever `rest` contains. |
| Text.Format | src/torrent.rs:72-82 | `{}` formatting of an unsigned integer gives a non-empty run of digits. It starts with '0' only for 0. |
| Text.ValueOfFormat | src/torrent.rs:72-82 | Reading back the decimal formatting of a number gives the number. |
| Text.FormatOfValue | src/decoder.rs:26 | A digit run with no leading zero is the formatting of the number it denotes. Parsing and formatting are inverse on canonical numerals. |
| Bytes.AsciiBytes | src/torrent.rs:99-116 | A byte-string literal has one byte per character, equal to that character's code. |
| Bytes.HexEncode | src/torrent.rs:43 | `hex::encode` gives two lowercase hex digits per byte, high nibble first. |
| Bytes.HexRoundTrip | src/torrent.rs:43 | Decoding the output of `hex::encode` gives back the bytes, so no information is lost. |
| Decoder.ParseI64OfFormat | src/decoder.rs:26 | `parse::<i64>` reads back the decimal formatting of every number up to `i64::MAX`. |
| Decoder.ParseI64Canonical | src/decoder.rs:26 | Conversely, a successful parse of text without a redundant leading zero returns the number whose formatting is that text. |
| Decoder.LeadingZerosParse | src/decoder.rs:26 | `"007"` parses to 7, although 7 formats as `"7"`. |
| Decoder.DecodeBencodedString | src/decoder.rs:23-33 | The result is `MissingColon` exactly when the input has no colon. It is `InvalidLength` exactly when the text before the first colon does not parse as an `i64`. It is `SliceOutOfRange` exactly when it parses but fewer characters than that follow the colon. On success the count is at most `i64::MAX`, and the payload is the `count` characters right after the first colon. |
| Decoder.DecodeAfterColon | src/decoder.rs:25-32 | After the colon at `colon`, the error is never `MissingColon`. It is `InvalidLength` exactly when `s[..colon]` does not parse. It is `SliceOutOfRange` exactly when it parses to `n` and `colon + 1 + n` passes the end. On success the payload is `s[colon+1..colon+1+n]` and the count is `n`. |
| Decoder.DecodeBencodedValue | src/decoder.rs:11-20 | The result is `EmptyInput` exactly when the input is empty, and `UnhandledValue` exactly when the first character is not a digit. Otherwise it is the string decoder's result. |
| Decoder.Decode | src/decoder.rs:6-9 | Decoding succeeds exactly when `decode_bencoded_value` does. The result keeps its value and drops the count. |
| Decoder.DecodeSplit | src/decoder.rs:24-31 | `digits ':' rest`, where `digits` denotes `n` and `rest` has at least `n` characters, decodes to the first `n` characters of `rest` with count `n`. `rest` may contain colons and trailing characters. |
| Decoder.DecodeSound | src/decoder.rs:24-31 | Every successful decode reads `digits ':' rest`. The count is the value of `digits`, and the payload is the first `count` characters of `rest`. |
| Decoder.DecodeAtColon | src/decoder.rs:24-27 | Suppose the first colon is at `colon`, the text before it parses to `n`, and `n` characters follow it. Then the decode yields those `n` characters and count `n`. |
| Decoder.DecodeCanonical | src/decoder.rs:23-33 | The canonical encoding `<len>:<payload>` of BEP 3 decodes to the payload, with anything after it ignored. |
| Decoder.CountIsDeclaredLength | src/decoder.rs:31 | `"5:hello"` decodes to `"hello"` with count 5, the declared length, not the 7 characters consumed. |
| Decoder.TruncatedPayload | src/decoder.rs:27 | `"5:hi"` is rejected with `SliceOutOfRange`. |
| Decoder.NonDigitLength | src/decoder.rs:26 | `"5a:hello"` is rejected with `InvalidLength`. |
| Tracker.NewTrackerRequest | src/tracker.rs:18-27 | A new request has the fixed peer id, port 6881, nothing uploaded or downloaded, the given `left`, and compact set. |
| Tracker.Ipv4Addr.Octets | src/tracker.rs:52 | The octets of an address are its four fields in order, and they rebuild the same address. |
| Tracker.Peer.Addr | src/tracker.rs:35-37 | `addr` returns the wrapped address unchanged. |
| Tracker.FromBeBytes | src/tracker.rs:53 | `u16::from_be_bytes` puts the first byte high and the second byte low. |
| Tracker.CompactPeers | src/tracker.rs:49-58 | A compact list of whole records gives one peer per 6-byte record. |
| Tracker.AllPeers | src/tracker.rs:49-58 | The result is `None` exactly when the list length is not a multiple of six. Otherwise there is one peer per record, in record order. Entry `i` has octets `peers[6i..6i+4]` and port `peers[6i+4]*256 + peers[6i+5]`, and re-encoding the entries gives back the bytes. |
| Tracker.CompactPeersSnoc | src/tracker.rs:51-54 | Appending one 6-byte record to a compact list appends exactly its peer to the result. |
| Tracker.CompactPeersFields | src/tracker.rs:52-53 | Each parsed peer has the octets of its record in order and the big-endian port of its last two bytes. |
| Tracker.CompactBytesOfPeers | src/tracker.rs:51-54 | Re-encoding the parsed peers gives back the compact list. |
| Tracker.CompactPeersOfBytes | src/tracker.rs:51-54 | Parsing the compact list of any peers gives back those peers in order. |
| Torrent.InfoHashHex | src/torrent.rs:38-46 | The hex info hash has 40 lowercase hex digits, and they decode back to the 20-byte digest. |
| Torrent.PercentEncoded | src/torrent.rs:59-66 | Putting '%' before every even-indexed character adds one character per pair, and one more for an odd last character. |
| Torrent.PercentEncodeBytes | src/torrent.rs:56-69 | The reference encoding of section 2.1 of RFC 3986 has three characters per byte, each of them '%' or a hex digit. |
| Torrent.PercentEncodedSnoc | src/torrent.rs:61-66 | One more loop step adds a '%' exactly when the index is even, then the character. |
| Torrent.PercentEncodedAt | src/torrent.rs:61-66 | Triple `k` of the output is '%' followed by pair `k` of the input. |
| Torrent.PercentEncodedLayout | src/torrent.rs:61-66 | On an even-length input, every triple of the output is '%' and the matching pair of input characters. |
| Torrent.RemovePercentsOfEncoded | src/torrent.rs:61-66 | Removing the '%' signs from the output gives back any input that had none. |
| Torrent.PercentEncodedHex | src/torrent.rs:57-66 | Putting a '%' before each pair of `hex::encode`'s digits is the RFC 3986 encoding of the bytes. |
| Torrent.InfoHashUrlEncoded | src/torrent.rs:56-69 | The loop's result is the RFC 3986 encoding of the digest, 60 characters long. Triple `k` is '%' and hex digits `2k` and `2k+1`, and removing the '%' signs gives back the hex info hash. |
| Torrent.QueryRoundTrip | src/torrent.rs:72-82 | A query of `key=value` fields joined by '&' parses back to its fields. This needs keys free of '&' and '=' and values free of '&'. |
| Torrent.RequestParamsSafe | src/torrent.rs:72-82 | Every field of the announce query meets that condition when the info hash has no '&'. |
| Torrent.EndpointShape | src/torrent.rs:72-82 | The `format!` string is the announce URL, then `?info_hash=`, then the rest of the query. |
| Torrent.RequestQueryShape | src/torrent.rs:72-82 | The text after `?` is exactly the query of `TrackerRequest::new`'s fields in declaration order, with the info hash first. |
| Torrent.EndpointQuery | src/torrent.rs:72-82 | The endpoint is the announce URL, '?', and the query of the request's fields. That query parses back to the fields info_hash, peer_id, port, uploaded, downloaded, left and compact, in that order, with values the hash, the fixed peer id, 6881, 0, 0, `info.length` and 1. |
| Torrent.DiscoverPeers | src/torrent.rs:71-88 | The endpoint requested carries the percent-encoded digest, and its query parses back to the request's fields. The peers are `all_peers` of the response. |
| Torrent.PushAll | src/torrent.rs:99-116 | A `for byte in bytes { message.push(byte) }` loop appends exactly `bytes`, in order. |
| Torrent.HandshakeLayout | src/torrent.rs:94-116 | The five pushed fields sit at offsets 0, 1, 20, 28 and 48 of a 68-byte message. |
| Torrent.PeerHandshake | src/torrent.rs:90-130 | The message sent has 68 bytes: 19, the ASCII protocol name, 8 zero bytes, the info hash and the ASCII peer id. The result is `UnexpectedEof` exactly when fewer than 68 bytes come back. Otherwise it is the 40-digit lowercase hex of reply bytes 48 to 68, which decodes back to those bytes. |

## Left out

- Torrent.InfoHashBytes: states only that the digest has 20 bytes. SHA-1 and `serde_bencode::to_bytes` are foreign code and enter as parameters. `Hashing.bencode` is a total function, so the two `.expect` panics of `info_hash_bytes` (`src/torrent.rs:49`, `src/torrent.rs:53`) are not modelled: a serialiser failure and a digest that is not 20 bytes long.
- Torrent.InfoHashHex: assumes `serde_bencode::to_bytes` succeeds, so the `?` error path of `info_hash_hex` and the `unwrap` in `discover_peers` are not modelled.
- The decoder works on characters. Rust slices `&str` by byte offsets, so the two agree on ASCII input. On non-ASCII input, Rust can panic at a character boundary or count differently, and the model does not capture this.
- Decoder.ParseI64: a sign is not modelled. Its only callers pass text that starts with a digit, so `-` or `+` can never come first.
- `Torrent::new` is not modelled: it reads a file, logs it and parses it with serde (`src/torrent.rs:30-36`). `Torrent` and `Info` are plain datatypes.
- The network is not modelled:
  - the HTTP request to the tracker;
  - bencode-decoding of the tracker's response, which arrives as an already decoded `TrackerResponse`;
  - the TCP connect and `write_all`;
  - `async`.

  The handshake reply is the byte sequence the peer sends, and only a short read (`read_exact` failing) is modelled as an error.
- Logging (`println!`, `eprintln!`) is not modelled.
- `src/main.rs` is not part of this model. It handles command-line arguments and printing.
- The `interval` field of the tracker response and the `name`, `piece length` and `pieces` fields of `Info` appear in the datatypes but nothing in the core reads them.
- `usize` overflow of `colon + 1 + n` in the decoder is not modelled. `n` is at most `i64::MAX`, so the sum stays below `usize::MAX` on a 64-bit target for any realistic input.
