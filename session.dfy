/**
 * One session's destination, from the application's CONNECT request at the front door
 * to the gateway: the handshake extracts it, the front door formats and encrypts it,
 * and the gateway decrypts and parses it back.
 */
module Session {
  import opened Bytes
  import opened Text
  import opened Destination
  import opened Crypto
  import opened Sockets
  import opened Socks
  import opened ClientProxy
  import opened Gateway

  /**
   * The destination exchange round trip: for a host without ':', the gateway recovers
   * exactly the destination the front door sent. Tokens are taken to be non-empty,
   * since an empty first read ends the gateway's session.
   */
  lemma DestinationExchangeRoundTrip(c: Cipher, e: Endpoint)
    requires Sound(c) && IsAscii(e.host) && ':' !in e.host
    requires DestinationToken(c, e) != []
    ensures DecodeDestination(c, DestinationToken(c, e)) == Some(e)
  {
    var text := FormatDestination(e);
    AsciiRoundTrip(text);
    DestinationRoundTrip(e);
  }

  /** An empty first read ends the gateway's session with no destination. */
  lemma EmptyDestinationReadEndsSession(c: Cipher)
    ensures DecodeDestination(c, Take(Eof, DEST_RECV_SIZE).data).None?
  {
  }

  /** When the token is the gateway's first read, `ReceiveDestination` yields the destination. */
  lemma DestinationInFirstRead(c: Cipher, e: Endpoint, p: Stream)
    requires Sound(c) && IsAscii(e.host) && ':' !in e.host
    requires p.Seg? && p.first == DestinationToken(c, e) && |p.first| <= DEST_RECV_SIZE
    ensures Take(p, DEST_RECV_SIZE) == Read(DestinationToken(c, e), p.rest)
    ensures DecodeDestination(c, Take(p, DEST_RECV_SIZE).data) == Some(e)
  {
    DestinationExchangeRoundTrip(c, e);
  }

  /** A requested address whose host text contains no ':'. */
  predicate ColonFree(addr: Address)
  {
    match addr
    case IPv4(_) => true
    case DomainName(name) => forall i :: 0 <= i < |name| ==> name[i] != ':' as int
  }

  /**
   * The whole chain for one session: a well-formed CONNECT request for a host without
   * ':' gets the success reply at the front door, and the gateway decodes the token it
   * is sent back to the same host and port.
   */
  lemma ConnectRequestReachesGateway(c: Cipher, greeting: seq<byte>, addr: Address, port: nat)
    requires Sound(c)
    requires greeting != [] && greeting[0] == SOCKS_VERSION
    requires ValidAddress(addr) && ColonFree(addr) && port < 0x1_0000
    requires DestinationToken(c, Endpoint(AddressHost(addr), port)) != []
    ensures var e := Endpoint(AddressHost(addr), port);
            SocksHandshake(greeting, ConnectRequest(addr, port)) == Handshake(METHOD_ACK + SUCCESS_REPLY, Some(e))
            && DecodeDestination(c, DestinationToken(c, e)) == Some(e)
  {
    var e := Endpoint(AddressHost(addr), port);
    HandshakeRoundTrip(greeting, addr, port);
    assert IsAscii(e.host) && ':' !in e.host by {
      if addr.DomainName? {
        var host := DecodeAscii(addr.name).value;
        assert forall i :: 0 <= i < |host| ==> host[i] as int == addr.name[i];
      }
    }
    DestinationExchangeRoundTrip(c, e);
  }
}
