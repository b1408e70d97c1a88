/**
 * The front door's data path (CLIENT.py): the destination token it sends once, and
 * its two pumps. Both pumps use the implicit convention: one `recv` result is one
 * token, with no length prefix.
 */
module ClientProxy {
  import opened Bytes
  import opened Text
  import opened Destination
  import opened Crypto
  import opened Sockets

  const RECV_SIZE: nat := 4096

  /** `fernet.encrypt(f"{dest_host}:{dest_port}".encode())`. */
  function DestinationToken(c: Cipher, e: Endpoint): (token: seq<byte>)
    requires IsAscii(e.host)
    ensures Sound(c) ==> c.decrypt(token) == Some(EncodeAscii(FormatDestination(e)))
  {
    c.encrypt(EncodeAscii(FormatDestination(e)))
  }

  /** Sends the destination to the gateway as one unprefixed token. */
  method SendDestination(remote: Connection, c: Cipher, e: Endpoint)
    requires IsAscii(e.host)
    modifies remote
    ensures remote.written == old(remote.written) + [DestinationToken(c, e)]
    ensures remote.incoming == old(remote.incoming)
  {
    remote.SendAll(DestinationToken(c, e));
  }

  lemma EncryptEachCons(c: Cipher, unit: seq<byte>, units: seq<seq<byte>>)
    ensures EncryptEach(c, [unit] + units) == [c.encrypt(unit)] + EncryptEach(c, units)
  {
  }

  /**
   * `tunnel_to_remote`: each chunk read from the application is encrypted and sent as
   * one token, in read order, until the application's side reaches EOF.
   */
  method TunnelToRemote(local: Connection, remote: Connection, c: Cipher)
    requires local != remote
    modifies local, remote
    ensures remote.written == old(remote.written) + EncryptEach(c, Reads(old(local.incoming), RECV_SIZE))
    ensures local.incoming == Eof
    ensures local.written == old(local.written) && remote.incoming == old(remote.incoming)
  {
    ghost var goal := remote.written + EncryptEach(c, Reads(local.incoming, RECV_SIZE));
    while true
      invariant remote.written + EncryptEach(c, Reads(local.incoming, RECV_SIZE)) == goal
      invariant local.written == old(local.written) && remote.incoming == old(remote.incoming)
      decreases |Contents(local.incoming)|
    {
      ghost var before := local.incoming;
      var data := local.Recv(RECV_SIZE);
      if data == [] {
        break;
      }
      ReadsStep(before, RECV_SIZE);
      EncryptEachCons(c, data, Reads(local.incoming, RECV_SIZE));
      remote.SendAll(c.encrypt(data));
    }
  }

  /** What `tunnel_from_remote` forwards from the segments `p`, and what it leaves unread. */
  function FromRemoteRun(c: Cipher, p: Stream): (r: Run)
    ensures p == Eof ==> r == Run([], Eof)
    ensures p != Eof ==> |Contents(r.left)| < |Contents(p)|
    decreases |Contents(p)|
  {
    if p == Eof then Run([], Eof)
    else
      var read := Take(p, RECV_SIZE);
      match c.decrypt(read.data)
      case None => Run([], read.left)
      case Some(plain) =>
        var more := FromRemoteRun(c, read.left);
        Run([plain] + more.sent, more.left)
  }

  /**
   * `tunnel_from_remote`: each chunk read from the gateway is decrypted as one token and
   * forwarded to the application; a token that fails to decrypt ends the pump unforwarded.
   */
  method TunnelFromRemote(local: Connection, remote: Connection, c: Cipher)
    requires local != remote
    modifies local, remote
    ensures local.written == old(local.written) + FromRemoteRun(c, old(remote.incoming)).sent
    ensures remote.incoming == FromRemoteRun(c, old(remote.incoming)).left
    ensures remote.written == old(remote.written) && local.incoming == old(local.incoming)
  {
    ghost var total := FromRemoteRun(c, remote.incoming);
    while true
      invariant local.written + FromRemoteRun(c, remote.incoming).sent == old(local.written) + total.sent
      invariant FromRemoteRun(c, remote.incoming).left == total.left
      invariant remote.written == old(remote.written) && local.incoming == old(local.incoming)
      decreases |Contents(remote.incoming)|
    {
      ghost var before := remote.incoming;
      var encrypted := remote.Recv(RECV_SIZE);
      if encrypted == [] {
        break;
      }
      var plain := c.decrypt(encrypted);
      FromRemoteStep(c, before, encrypted, remote.incoming);
      if plain.None? {
        break;
      }
      local.SendAll(plain.value);
    }
  }

  lemma FromRemoteStep(c: Cipher, p: Stream, data: seq<byte>, left: Stream)
    requires p != Eof && Take(p, RECV_SIZE) == Read(data, left)
    ensures c.decrypt(data).None? ==> FromRemoteRun(c, p) == Run([], left)
    ensures c.decrypt(data).Some? ==>
      FromRemoteRun(c, p).sent == [c.decrypt(data).value] + FromRemoteRun(c, left).sent
      && FromRemoteRun(c, p).left == FromRemoteRun(c, left).left
  {
  }

  /** The front door forwards exactly the decryptions of the chunks it reads, up to the first failure. */
  lemma {:induction false} FromRemoteForwardsDecryptPrefix(c: Cipher, p: Stream)
    ensures FromRemoteRun(c, p).sent == DecryptPrefix(c, Reads(p, RECV_SIZE))
    decreases |Contents(p)|
  {
    if p != Eof {
      var read := Take(p, RECV_SIZE);
      var units := Reads(p, RECV_SIZE);
      assert units[0] == read.data && units[1..] == Reads(read.left, RECV_SIZE);
      FromRemoteForwardsDecryptPrefix(c, read.left);
    }
  }

  /** Nothing read at or after the first chunk that fails to decrypt reaches the application. */
  lemma FromRemoteStopsAtFailure(c: Cipher, p: Stream, k: nat)
    requires k < |Reads(p, RECV_SIZE)| && c.decrypt(Reads(p, RECV_SIZE)[k]).None?
    ensures |FromRemoteRun(c, p).sent| <= k
  {
    FromRemoteForwardsDecryptPrefix(c, p);
  }

  /** When every chunk read is one whole token, the application gets every plaintext, in order. */
  lemma FromRemoteOfTokens(c: Cipher, p: Stream, plains: seq<seq<byte>>)
    requires Sound(c) && Reads(p, RECV_SIZE) == EncryptEach(c, plains)
    ensures FromRemoteRun(c, p).sent == plains
  {
    FromRemoteForwardsDecryptPrefix(c, p);
    DecryptPrefixOfTokens(c, plains);
  }

  /** A peer that decrypts each token sent by TunnelToRemote recovers the application's bytes exactly. */
  lemma ToRemoteRoundTrip(c: Cipher, p: Stream)
    requires Sound(c)
    ensures Concat(DecryptPrefix(c, EncryptEach(c, Reads(p, RECV_SIZE)))) == Contents(p)
  {
    DecryptPrefixOfTokens(c, Reads(p, RECV_SIZE));
  }
}
