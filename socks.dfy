/**
 * The front door's SOCKS5 handshake (CLIENT.py, handle_socks_handshake): the subset of
 * RFC 1928 with version 5, the NO AUTHENTICATION method, the CONNECT command and the
 * IPv4 and DOMAINNAME address types. Any failure drops the connection; no SOCKS error
 * reply is ever sent.
 */
module Socks {
  import opened Bytes
  import opened Text
  import opened Destination

  const SOCKS_VERSION: byte := 0x05
  const CMD_CONNECT: byte := 0x01
  const ATYP_IPV4: byte := 0x01
  const ATYP_DOMAINNAME: byte := 0x03

  /** Version 5, method 0 (no authentication) selected: RFC 1928 section 3. */
  const METHOD_ACK: seq<byte> := [0x05, 0x00]

  /** The fixed success reply of RFC 1928 section 6: IPv4 bound address 0.0.0.0, port 0. */
  const SUCCESS_REPLY: seq<byte> := [0x05, 0x00, 0x00, 0x01, 0x00, 0x00, 0x00, 0x00, 0x00, 0x00]

  /** What the handshake wrote back to the application, and the destination if it succeeded. */
  datatype Handshake = Handshake(sent: seq<byte>, dest: Option<Endpoint>)

  /** `socket.inet_ntoa` of four bytes: dotted decimal. */
  function DottedQuad(octets: seq<byte>): (s: string)
    requires |octets| == 4
    ensures ':' !in s && IsAscii(s)
  {
    var s := Decimal(octets[0]) + "." + Decimal(octets[1]) + "." + Decimal(octets[2]) + "." + Decimal(octets[3]);
    assert forall i :: 0 <= i < |s| ==> IsDigit(s[i]) || s[i] == '.';
    s
  }

  /** The IPv4 branch: the host is `inet_ntoa(data[4:8])`, the port `data[8:10]` big-endian. */
  function ParseIPv4(req: seq<byte>): (r: Endpoint)
    requires |req| >= 8
    ensures |req| >= 10 ==> r == Endpoint(DottedQuad(req[4..8]), req[8] as int * 256 + req[9] as int)
    ensures |req| == 9 ==> r.port == req[8] as int
    ensures |req| == 8 ==> r.port == 0
    ensures r.host == DottedQuad(req[4..8]) && r.port < 0x1_0000
  {
    var port := Slice(req, 8, 10);
    BigEndianPair(port);
    Endpoint(DottedQuad(req[4..8]), BigEndian(port))
  }

  /** The DOMAINNAME branch: byte 4 is the length N, the host is the next N bytes decoded,
      the port the two bytes after them. */
  function ParseDomain(req: seq<byte>): (r: Option<Endpoint>)
    requires |req| >= 5
    ensures var n := req[4] as int;
            |req| >= 7 + n && (forall i :: 5 <= i < 5 + n ==> req[i] < 128) ==>
              r.Some? && |r.value.host| == n
              && (forall i :: 0 <= i < n ==> r.value.host[i] as int == req[5 + i])
              && r.value.port == req[5 + n] as int * 256 + req[6 + n] as int
    ensures var n := req[4] as int;
            |req| == 6 + n && (forall i :: 5 <= i < 5 + n ==> req[i] < 128) ==>
              r.Some? && |r.value.host| == n && r.value.port == req[5 + n] as int
              && (forall i :: 0 <= i < n ==> r.value.host[i] as int == req[5 + i])
    ensures var n := req[4] as int;
            |req| <= 5 + n && (forall i :: 5 <= i < |req| ==> req[i] < 128) ==>
              r.Some? && r.value.port == 0 && |r.value.host| == |req| - 5
              && (forall i :: 0 <= i < |req| - 5 ==> r.value.host[i] as int == req[5 + i])
    ensures (exists i :: 5 <= i < Min(5 + req[4] as int, |req|) && req[i] >= 128) ==> r.None?
    ensures r.Some? ==> r.value.port < 0x1_0000 && IsAscii(r.value.host)
  {
    var n := req[4] as int;
    var name := Slice(req, 5, 5 + n);
    var port := Slice(req, 5 + n, 7 + n);
    BigEndianPair(port);
    assert forall i :: 0 <= i < |name| ==> name[i] == req[5 + i];
    assert forall i :: 5 <= i < Min(5 + n, |req|) ==> req[i] == name[i - 5];
    match DecodeAscii(name)
    case None => None
    case Some(host) => Some(Endpoint(host, BigEndian(port)))
  }

  /**
   * The connection request of RFC 1928 section 4 as the code decodes it. Indexing past
   * the end raises, so a request too short to reach the command byte, the address type,
   * the IPv4 address or the domain length fails; slices clip, so a short domain name or
   * a missing port is taken as it comes (`int.from_bytes(b'')` is 0).
   */
  function ParseRequest(req: seq<byte>): (r: Option<Endpoint>)
    ensures |req| < 4 || req[1] != CMD_CONNECT ==> r.None?
    ensures |req| >= 4 && req[3] != ATYP_IPV4 && req[3] != ATYP_DOMAINNAME ==> r.None?
    ensures |req| >= 4 && req[1] == CMD_CONNECT && req[3] == ATYP_IPV4 ==> (|req| < 8 <==> r.None?)
    ensures |req| >= 8 && req[1] == CMD_CONNECT && req[3] == ATYP_IPV4 ==> r == Some(ParseIPv4(req))
    ensures |req| >= 4 && req[3] == ATYP_DOMAINNAME ==> (|req| < 5 ==> r.None?)
    ensures |req| >= 5 && req[1] == CMD_CONNECT && req[3] == ATYP_DOMAINNAME ==> r == ParseDomain(req)
    ensures r.Some? ==> r.value.port < 0x1_0000 && IsAscii(r.value.host)
  {
    if |req| < 2 || req[1] != CMD_CONNECT then None
    else if |req| < 4 then None
    else if req[3] == ATYP_IPV4 then
      if |req| < 8 then None else Some(ParseIPv4(req))
    else if req[3] == ATYP_DOMAINNAME then
      if |req| < 5 then None else ParseDomain(req)
    else None
  }

  /**
   * The whole handshake over the method-selection message and the request: a bad
   * version aborts before anything is written; otherwise the method ack is written
   * before the request is looked at, and the success reply only when it parses.
   */
  function SocksHandshake(greeting: seq<byte>, request: seq<byte>): (r: Handshake)
    ensures greeting == [] || greeting[0] != SOCKS_VERSION ==> r == Handshake([], None)
    ensures greeting != [] && greeting[0] == SOCKS_VERSION ==>
              |r.sent| >= 2 && r.sent[..2] == METHOD_ACK && r.dest == ParseRequest(request)
    ensures r.dest.Some? <==> r.sent == METHOD_ACK + SUCCESS_REPLY
    ensures r.dest.None? ==> r.sent == [] || r.sent == METHOD_ACK
    ensures r.dest.Some? ==> r.dest.value.port < 0x1_0000
  {
    if greeting == [] || greeting[0] != SOCKS_VERSION then Handshake([], None)
    else
      match ParseRequest(request)
      case None => Handshake(METHOD_ACK, None)
      case Some(dest) => Handshake(METHOD_ACK + SUCCESS_REPLY, Some(dest))
  }

  /** The address field of a request (RFC 1928 section 5), for the two types supported. */
  datatype Address = IPv4(octets: seq<byte>) | DomainName(name: seq<byte>)

  predicate ValidAddress(addr: Address)
  {
    match addr
    case IPv4(octets) => |octets| == 4
    case DomainName(name) => |name| < 256 && forall i :: 0 <= i < |name| ==> name[i] < 128
  }

  /** The host text the front door passes on for an address. */
  function AddressHost(addr: Address): string
    requires ValidAddress(addr)
  {
    match addr
    case IPv4(octets) => DottedQuad(octets)
    case DomainName(name) => DecodeAscii(name).value
  }

  /** A CONNECT request as an application sends it (RFC 1928 section 4). */
  function ConnectRequest(addr: Address, port: nat): (req: seq<byte>)
    requires ValidAddress(addr) && port < 0x1_0000
  {
    var field := match addr
      case IPv4(octets) => [ATYP_IPV4] + octets
      case DomainName(name) => [ATYP_DOMAINNAME, |name| as byte] + name;
    [SOCKS_VERSION, CMD_CONNECT, 0x00] + field + [(port / 256) as byte, (port % 256) as byte]
  }

  /** A well-formed IPv4 CONNECT request is parsed to its address and port. */
  lemma ParseIPv4Request(octets: seq<byte>, port: nat)
    requires |octets| == 4 && port < 0x1_0000
    ensures ParseRequest(ConnectRequest(IPv4(octets), port)) == Some(Endpoint(DottedQuad(octets), port))
  {
    var req := ConnectRequest(IPv4(octets), port);
    assert |req| == 10 && req[4..8] == octets;
    assert req[8] == port / 256 && req[9] == port % 256;
  }

  /** A well-formed DOMAINNAME CONNECT request is parsed to its name and port. */
  lemma ParseDomainRequest(name: seq<byte>, port: nat)
    requires ValidAddress(DomainName(name)) && port < 0x1_0000
    ensures ParseRequest(ConnectRequest(DomainName(name), port)) == Some(Endpoint(DecodeAscii(name).value, port))
  {
    var req := ConnectRequest(DomainName(name), port);
    var n := |name|;
    assert req[4] as int == n && |req| == 7 + n;
    assert forall i :: 0 <= i < n ==> req[5 + i] == name[i];
    assert req[5 + n] == port / 256 && req[6 + n] == port % 256;
    var host := ParseDomain(req).value.host;
    assert host == DecodeAscii(name).value;
  }

  /** Every well-formed CONNECT request yields its destination byte-exact and the fixed reply. */
  lemma HandshakeRoundTrip(greeting: seq<byte>, addr: Address, port: nat)
    requires greeting != [] && greeting[0] == SOCKS_VERSION
    requires ValidAddress(addr) && port < 0x1_0000
    ensures SocksHandshake(greeting, ConnectRequest(addr, port))
         == Handshake(METHOD_ACK + SUCCESS_REPLY, Some(Endpoint(AddressHost(addr), port)))
  {
    match addr
    case IPv4(octets) => ParseIPv4Request(octets, port);
    case DomainName(name) => ParseDomainRequest(name, port);
  }

  /** `inet_ntoa(b'\x5d\xb8\xd8\x22')` is "93.184.216.34". */
  lemma ExampleDottedQuad()
    ensures DottedQuad([93, 184, 216, 34]) == "93.184.216.34"
  {
    assert Decimal(9) == "9" && Decimal(93) == "93";
    assert Decimal(18) == "18" && Decimal(184) == "184";
    assert Decimal(21) == "21" && Decimal(216) == "216";
    assert Decimal(3) == "3" && Decimal(34) == "34";
  }

  /** The example of a browser asking for 93.184.216.34 port 80. */
  lemma ExampleIPv4Handshake()
    ensures SocksHandshake([0x05, 0x01, 0x00], [0x05, 0x01, 0x00, 0x01, 93, 184, 216, 34, 0x00, 80])
         == Handshake(METHOD_ACK + SUCCESS_REPLY, Some(Endpoint("93.184.216.34", 80)))
  {
    var req: seq<byte> := [0x05, 0x01, 0x00, 0x01, 93, 184, 216, 34, 0x00, 80];
    assert req[4..8] == [93, 184, 216, 34];
    ExampleDottedQuad();
    assert ParseIPv4(req) == Endpoint("93.184.216.34", 80);
  }

  /** Slices clip: an IPv4 request that stops after the address is accepted with port 0. */
  lemma TruncatedIPv4RequestGetsPortZero(greeting: seq<byte>, octets: seq<byte>)
    requires greeting != [] && greeting[0] == SOCKS_VERSION && |octets| == 4
    ensures SocksHandshake(greeting, [SOCKS_VERSION, CMD_CONNECT, 0x00, ATYP_IPV4] + octets)
         == Handshake(METHOD_ACK + SUCCESS_REPLY, Some(Endpoint(DottedQuad(octets), 0)))
  {
    var req := [SOCKS_VERSION, CMD_CONNECT, 0x00, ATYP_IPV4] + octets;
    assert req[4..8] == octets;
  }
}
