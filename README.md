# Site-to-site VPN tunnel emulator: the protocol core in Dafny

This project models the byte-level protocol of a two-hop encrypting proxy. A local front
door (CLIENT.py) speaks SOCKS5 to an application. It sends the requested destination to a
remote gateway (SERVER.py), and tokens then travel in both directions. The gateway
connects onward and relays. The modules, in dependency order:

- `Bytes`: bytes, `Option`, Python's clipping slice, and `int.from_bytes` / `to_bytes`
  in big-endian order.
- `Text`: `str(n)` and `int(s)` on decimal digits, `str.split` on one character, and
  ASCII `encode` / `decode`.
- `Crypto`: the encryption capability as a pair of arrows (`Cipher`), and the predicate
  `Sound` (decrypt undoes encrypt). Every lemma that needs the round trip takes `Sound`
  as a precondition; nothing is assumed.
- `Sockets`: a stream socket as a `Stream` of non-empty arrival segments. A `recv(n)`
  returns at most `n` bytes of the first segment, so every way the transport may split
  the bytes into short reads is one choice of segments. Also defined here:
  - `Reads`, the results of repeated `recv(n)`;
  - `ReadExactly`, the accumulating read of exactly `need` bytes;
  - the class `Connection`, which holds what is still to arrive and what was passed to
    `sendall`.
- `Destination`: the `host:port` text exchanged once per session.
- `Socks`: `handle_socks_handshake` as a pure function of the two messages read. It
  returns the bytes written back and the destination, if any.
- `ClientProxy`: the destination token and the front door's two pumps. Both pumps use
  the implicit convention: one read is one token.
- `Gateway`: frame encoding and the destination decoding. Also the gateway's two pumps,
  which are length-prefixed: a 4-byte big-endian length, then the token. Each pump is a
  method whose loop is proved against a function on the stream:
  - `ForwardDataDecrypt` against `DecryptRun`;
  - `ForwardDataEncrypt` against `EncryptRun`.
- `GatewayProperties`: what those run functions guarantee:
  - order;
  - stopping at EOF, at EOF inside a body, at a decryption failure, or at a token too
    long for the header;
  - the frame round trip under any chunking of the bodies.
- `Session`: one session's destination, from the CONNECT request to the gateway's
  decoded `Endpoint`.

Where the code departs from the protocol it follows, the model follows the code:

- A SOCKS5 destination port is meant to be 1..65535. The code accepts port 0 from the
  handshake. At the gateway it accepts any non-negative decimal number, because `int()`
  does no range check.
- RFC 1928 section 4 gives the port as the 2 bytes after the address. The code slices,
  and slices clip. So a request that ends early is accepted, and its port is the
  big-endian value of the 0 or 1 bytes present (`ParseIPv4`, `ParseDomain`,
  `TruncatedIPv4RequestGetsPortZero`). A short domain name is taken as it comes in the
  same way.
- The front door and the gateway are meant to be peers, but their data conventions do
  not match. The front door writes unprefixed tokens, while the gateway expects length
  prefixes, and the reverse holds in the other direction. Each side is modelled as
  written, each against its own convention.

## Model

| member | source | states |
|---|---|---|
| Bytes.Slice | CLIENT.py:60-68 | Python's `s[lo:hi]`: the exact slice when in range, clipped to the end when `hi` is past it, empty when `lo` is at or past the end or `hi <= lo`, never longer than `hi - lo` |
| Bytes.BigEndian | SERVER.py:24 | `int.from_bytes(b, 'big')` of `k` bytes is below 256^k |
| Bytes.BigEndianPair | CLIENT.py:68 | two bytes read big-endian are `b[0] * 256 + b[1]` |
| Bytes.ToBytes | SERVER.py:56 | `n.to_bytes(k, 'big')` is `k` bytes whose big-endian value is `n`; it requires `n < 256^k`, beyond which Python raises OverflowError |
| Text.Decimal | CLIENT.py:92 | `str(n)` is a non-empty digit string with no leading zero |
| Text.ParseDecimal | SERVER.py:80 | `int(s)` succeeds exactly on non-empty digit strings |
| Text.DecimalRoundTrip | SERVER.py:80 | `int(str(n)) == n` |
| Text.Split | SERVER.py:79 | `split(sep)` gives one more field than there are separators; no field contains the separator; joining the fields gives the input back |
| Text.SplitJoin | SERVER.py:79 | splitting undoes joining when no field contains the separator |
| Text.EncodeAscii | CLIENT.py:101 | `encode()` of an ASCII string is one byte per character |
| Text.DecodeAscii | SERVER.py:78 | `decode()` succeeds exactly when every byte is below 128, and then yields byte-for-byte the same characters |
| Text.AsciiRoundTrip | SERVER.py:78 | decoding undoes encoding for ASCII text |
| Crypto.EncryptEach | CLIENT.py:28 | one token per unit, in order |
| Crypto.DecryptPrefix | CLIENT.py:36-39 | what a decrypting pump forwards: plaintexts of the units before the first one that fails to decrypt, which is not forwarded |
| Crypto.DecryptPrefixOfTokens | CLIENT.py:38 | for a sound cipher, decrypting the tokens of plaintexts forwards every plaintext, in order |
| Sockets.Take | CLIENT.py:25 | `recv(n)` returns at most `n` bytes, is empty exactly at EOF, and the returned bytes followed by the rest of the stream are the stream |
| Sockets.TakeLeavesDrop | SERVER.py:30 | after a read the stream is what is left once the returned bytes are removed |
| Sockets.Reads | CLIENT.py:23-26 | the chunks read until EOF, joined, are the whole stream |
| Sockets.ReadsBounded | CLIENT.py:25 | each chunk is non-empty and at most the size asked for |
| Sockets.ReadExactlyFrom | SERVER.py:27-33 | reading until `need` more bytes are in ends with exactly that many added, or fails with nothing left |
| Sockets.ReadExactlyFromStep | SERVER.py:30-33 | one read of the missing bytes: an empty one fails the read (ConnectionResetError), any other adds its bytes and lowers what is missing by as many |
| Sockets.ReadExactlyFromMeaning | SERVER.py:27-33 | the accumulated read yields the bytes already in followed by the next `need` bytes and leaves the rest, or fails with the stream exhausted when it is shorter |
| Sockets.ReadExactlyMeaning | SERVER.py:27-33 | the body loop yields exactly the next `need` bytes, or fails when the stream ends first |
| Sockets.ReadExactly | SERVER.py:27-33 | the body loop ends with exactly `need` bytes, or fails with the stream exhausted; it never gives back bytes |
| Sockets.Connection.Recv | SERVER.py:30 | a `recv` call returns what `Take` returns and consumes it; nothing is written |
| Sockets.Connection.SendAll | SERVER.py:39 | `sendall` appends its argument to what was written; nothing is read |
| Destination.FormatDestination | CLIENT.py:92 | `f"{host}:{port}"`: the host, then ':', then digits that `int()` reads back as the port |
| Destination.ParseDestination | SERVER.py:79-80 | parsing fails unless there is exactly one ':'; on success the host is the text before the ':' and the port the value of the digits after it |
| Destination.DestinationRoundTrip | SERVER.py:78-80 | for a host without ':', parsing the formatted text gives the destination back |
| Destination.ParseDestinationOfParts | SERVER.py:79-80 | any colon-free host, ':' and a non-empty digit string is accepted, the port being the digits' decimal value, leading zeros allowed |
| Destination.ExampleLeadingZeroPort | SERVER.py:80 | "a:080" is host "a" and port 80, as `int("080") == 80` |
| Destination.ColonInHostRejected | SERVER.py:79 | a host containing ':' never survives the exchange |
| Socks.DottedQuad | CLIENT.py:60 | `inet_ntoa` gives ASCII text without ':' |
| Socks.ParseIPv4 | CLIENT.py:59-68 | the host is the dotted quad of bytes 4..7; the port is bytes 8 and 9 big-endian, byte 8 alone when the request stops there, 0 when both are missing, so always below 65536 |
| Socks.ParseDomain | CLIENT.py:62-68 | with N = byte 4, the host is bytes 5..4+N decoded and the port bytes 5+N and 6+N big-endian; a request one byte short has the N name bytes as its host and byte 5+N as its port, and one that stops inside the name has the name bytes present as its host and port 0; a non-ASCII name byte fails |
| Socks.ParseRequest | CLIENT.py:54-68 | fails on a command other than CONNECT, an unknown address type, or a request too short to index; otherwise dispatches to the IPv4 or domain branch |
| Socks.SocksHandshake | CLIENT.py:48-73 | a bad or missing version byte fails with nothing written; otherwise `05 00` is written first; the success reply follows exactly when the request parses; the port is below 65536 |
| Socks.ParseIPv4Request | CLIENT.py:58-68 | a well-formed IPv4 CONNECT request is parsed to its address and port |
| Socks.ParseDomainRequest | CLIENT.py:58-68 | a well-formed DOMAINNAME CONNECT request is parsed to its name and port |
| Socks.HandshakeRoundTrip | CLIENT.py:44-76 | every well-formed CONNECT request yields its destination byte-exact and the fixed reply `05 00`, `05 00 00 01 00 00 00 00 00 00` |
| Socks.ExampleDottedQuad | CLIENT.py:60 | `inet_ntoa` of 93, 184, 216, 34 is "93.184.216.34" |
| Socks.ExampleIPv4Handshake | CLIENT.py:44-76 | a browser's request for 93.184.216.34 port 80 is answered with the success reply and that destination |
| Socks.TruncatedIPv4RequestGetsPortZero | CLIENT.py:68 | an IPv4 request ending after the address is accepted with port 0 |
| ClientProxy.DestinationToken | CLIENT.py:101 | `fernet.encrypt(dest_info.encode())`: for a sound cipher the token decrypts to the ASCII bytes of "host:port" |
| ClientProxy.SendDestination | CLIENT.py:101 | the destination goes to the gateway as one unprefixed token |
| ClientProxy.TunnelToRemote | CLIENT.py:21-30 | the encryption of every chunk read from the application is sent, one token per read, in read order, until EOF |
| ClientProxy.FromRemoteRun | CLIENT.py:32-40 | what `tunnel_from_remote` forwards and leaves: at EOF nothing; otherwise at least the first read is consumed, even when it fails to decrypt |
| ClientProxy.TunnelFromRemote | CLIENT.py:32-40 | what is forwarded to the application is the run of decrypted reads, up to the first EOF or decryption failure |
| ClientProxy.FromRemoteStep | CLIENT.py:36-38 | one pass: a failed decryption ends the pump with nothing forwarded, a successful one forwards that plaintext first |
| ClientProxy.FromRemoteForwardsDecryptPrefix | CLIENT.py:32-40 | the front door forwards exactly the decryptions of the chunks it reads, up to and excluding the first failure |
| ClientProxy.FromRemoteStopsAtFailure | CLIENT.py:38-40 | nothing at or after the first chunk that fails to decrypt reaches the application |
| ClientProxy.FromRemoteOfTokens | CLIENT.py:36-38 | when every read is one whole token, every plaintext is forwarded in order |
| ClientProxy.ToRemoteRoundTrip | CLIENT.py:25-28 | a peer decrypting each token sent recovers the application's bytes exactly |
| Gateway.EncodeFrame | SERVER.py:53-58 | a frame is a 4-byte big-endian length, then the token; requires the token to be shorter than 2^32 bytes |
| Gateway.NextFrame | SERVER.py:21-33 | EOF at the header gives no frame; a frame read leaves strictly less of the stream |
| Gateway.FrameBodies | SERVER.py:18-33 | the complete frame bodies on the stream, none at EOF, never more than the stream has bytes |
| Gateway.DecryptRun | SERVER.py:16-43 | what `forward_data_decrypt` forwards and leaves: at most one plaintext per complete frame, and it never gives back bytes |
| Gateway.ReceiveBody | SERVER.py:27-33 | the body loop keeps `bytes_received == len(encrypted_data) <= encrypted_len`, asks each time for exactly the missing bytes, and ends as `ReadExactly` says |
| Gateway.ReceiveFrame | SERVER.py:21-33 | the reads of one pass yield the next frame's body and leave its rest; when there is no whole frame the stream is exhausted |
| Gateway.DecryptRunStep | SERVER.py:36-39 | one pass over a whole frame: a failed decryption ends the run, a successful one forwards that plaintext before the rest of the run |
| Gateway.DecryptRunEnd | SERVER.py:21-31 | a pass that reads no whole frame ends the run with nothing more forwarded |
| Gateway.ForwardDataDecrypt | SERVER.py:16-43 | what the decrypting pump writes is `DecryptRun` of what it reads, and it leaves what `DecryptRun` leaves |
| Gateway.EncryptRunStep | SERVER.py:49-58 | one pass: a token too long for the header ends the run, any other is sent framed before the rest of the run |
| Gateway.EncryptRun | SERVER.py:45-61 | what `forward_data_encrypt` sends and leaves: at EOF nothing; otherwise at least the first read is consumed, even when its token is too long |
| Gateway.ForwardDataEncrypt | SERVER.py:45-61 | what the encrypting pump writes is `EncryptRun` of what it reads, and it leaves what `EncryptRun` leaves |
| Gateway.DecodeDestination | SERVER.py:76-80 | an empty read or a failed decryption gives no destination; a decoded host has no ':' |
| Gateway.ReceiveDestination | SERVER.py:75-80 | one bounded `recv(1024)`, then the decoding of exactly those bytes |
| GatewayProperties.DecryptRunForwardsDecryptPrefix | SERVER.py:16-43 | the decrypting pump forwards exactly the plaintexts of the complete frames before the first frame that fails to decrypt |
| GatewayProperties.DecryptRunStopsAtFailure | SERVER.py:36-43 | nothing of a frame that fails to decrypt is forwarded, nor of anything after it |
| GatewayProperties.PrematureEofForwardsNothing | SERVER.py:30-31 | EOF inside a body ends the pump with nothing of that frame forwarded |
| GatewayProperties.EncodeEach | SERVER.py:56-58 | one frame per token, each 4 bytes longer than its token |
| GatewayProperties.HeaderOfEncoded | SERVER.py:21-24 | a header read in one piece returns the frame's 4 header bytes |
| GatewayProperties.NextFrameOfEncoded | SERVER.py:21-33 | a frame at the head of the stream is decoded to its token, whatever the chunking of the body |
| GatewayProperties.FrameBodiesStep | SERVER.py:18-33 | the frames of a stream are its next frame, then the frames after it |
| GatewayProperties.EncodedStreamCons | SERVER.py:58 | the bytes of a frame list are the first frame, then the rest |
| GatewayProperties.FrameBodiesOfEncoded | SERVER.py:21-33 | the frame bodies decoded from an encoded stream are its tokens, however the bodies are chunked |
| GatewayProperties.DecryptRunOfEncoded | SERVER.py:21-39 | the frame round trip: frames of a sound cipher's tokens are decrypted back to the plaintexts, in order |
| GatewayProperties.EncodeTokensCons | SERVER.py:58 | the frames of the first `k` reads' tokens are the first read's frame, then the frames of the next `k - 1` |
| GatewayProperties.EncryptRunBeforeOverflow | SERVER.py:47-61 | when the tokens of reads 0..k-1 fit and that of read k (if any) overflows the header, exactly the frames of reads 0..k-1 are sent, in order; with no overflow the stream is read to EOF |
| GatewayProperties.EncryptRunFramesReads | SERVER.py:45-61 | when every token fits, the encrypting pump sends one frame per read, in order, and reads to EOF |
| GatewayProperties.EncryptRunStopsAtOverflow | SERVER.py:56 | a token too long for the header ends the pump: at most the frames before it are sent |
| GatewayProperties.GatewayFramingRoundTrip | SERVER.py:16-61 | what the encrypting pump sends, fed to a decrypting pump in any chunking that keeps headers whole, comes out as the original reads and so the original bytes |
| GatewayProperties.OneReadKeepsHeadersWhole | SERVER.py:21 | the whole-header hypothesis holds when the frames arrive in one read |
| GatewayProperties.SplitHeaderMisframes | SERVER.py:21-24 | a header split across two reads is misread as a shorter length |
| Session.DestinationExchangeRoundTrip | SERVER.py:78-80 | for a sound cipher and a host without ':', the gateway recovers exactly the destination the front door encoded |
| Session.EmptyDestinationReadEndsSession | SERVER.py:75-76 | an empty first read ends the session with no destination |
| Session.DestinationInFirstRead | SERVER.py:75-78 | when the destination token arrives as the gateway's first read, it is decoded to the destination |
| Session.ConnectRequestReachesGateway | CLIENT.py:88-101 | a well-formed CONNECT request for a host without ':' gets the success reply, and the gateway decodes the token it is sent back to the same host and port |

## Left out

- crypto.py is not part of this model. Fernet, its key and its tokens are replaced by
  an arbitrary `Cipher` and the round-trip predicate `Sound`. Integrity (tampered tokens
  fail) is not stated; a failing `decrypt` is modelled as one outcome.
- Crypto.Cipher: `encrypt` is a function, so the random IV and timestamp of a Fernet
  token are not modelled. Every `decrypt` in the code is called without a `ttl`, so no
  token ever expires, and the model has no expiry either.
- Session.DestinationExchangeRoundTrip: besides `Sound`, it requires the destination
  token to be non-empty. A Fernet token never is, but `Sound` alone does not rule out
  an empty one. `Session.ConnectRequestReachesGateway` takes the same precondition.
- Socket creation, `connect`, `settimeout`, `close` and the accept loops are I/O
  plumbing and are not modelled. Those are CLIENT.py:80-137 and SERVER.py:65-129, apart
  from the destination lines cited above. The model's sockets are `Connection` values
  over a stream script.
- Threads and `join` are not modelled. Each pump is modelled as its own sequential
  loop, and the interleaving of a session's two pumps is not modelled.
- Timeouts, resets and the exception types are collapsed into the end of the stream,
  matching the catch-all `except` clauses. A timeout in mid-stream is taken as EOF.
- Sockets.Connection.SendAll never fails. A `sendall` that raises, and so ends a pump
  through its `except`, is not modelled.
- Logging `print` calls are left out: they have no effect on the protocol.
- Socks.SocksHandshake takes the results of the two reads (`recv(262)` and
  `recv(4096)`) as arguments. How the application's bytes are split across reads is
  not modelled for the handshake.
- Text.DecodeAscii: UTF-8 `decode()` is restricted to ASCII, so a domain name or
  destination with valid multi-byte UTF-8 fails here, where Python would accept it.
- Text.ParseDecimal: `int()` is restricted to non-empty ASCII digit strings. Python's
  leniency (sign, surrounding whitespace, underscores, non-ASCII digits) is not
  modelled, so such ports are rejected here.
- Destination.Endpoint: the port is unbounded at the gateway, as `int()` leaves it. The
  later `connect`, which would reject a port above 65535, is not modelled.
- GatewayProperties.DecryptRunOfEncoded: the frame round trip is proved only when each
  4-byte header arrives in one read (`HeadersWhole`), because `recv(4)` is not
  repeated. `SplitHeaderMisframes` shows what happens otherwise.
- Interoperation of the front door with the gateway is not proved. Their framing
  conventions differ in both directions; each side is proved against its own.
- The per-session lifecycle (handshaking, exchanging, relaying, closed) and releasing
  sockets when both pumps end are concurrency and resource management, and are not
  modelled.
