/**
 * The gateway's data path (SERVER.py): the destination it decodes once per session,
 * and its two pumps. Both pumps use the length-prefixed convention: a 4-byte big-endian
 * length followed by that many bytes of token.
 */
module Gateway {
  import opened Bytes
  import opened Text
  import opened Destination
  import opened Crypto
  import opened Sockets

  const HEADER_SIZE: nat := 4
  const RECV_SIZE: nat := 4096
  const DEST_RECV_SIZE: nat := 1024

  /** `to_bytes(4, 'big')` raises OverflowError from this length on. */
  const MAX_FRAME_LEN: nat := 0x1_0000_0000

  /** `len(encrypted_data).to_bytes(4, 'big') + encrypted_data`. */
  function EncodeFrame(token: seq<byte>): (frame: seq<byte>)
    requires |token| < MAX_FRAME_LEN
    ensures |frame| == HEADER_SIZE + |token|
    ensures BigEndian(frame[..HEADER_SIZE]) == |token| && frame[HEADER_SIZE..] == token
  {
    var header := ToBytes(|token|, HEADER_SIZE);
    assert (header + token)[..HEADER_SIZE] == header;
    header + token
  }

  /** A frame body read off the stream, and the stream after it. */
  datatype Frame = Frame(body: seq<byte>, left: Stream)

  /**
   * One round of `forward_data_decrypt`'s reads: `recv(4)` for the header, whose bytes
   * are taken big-endian as the length (however few arrived), then the body loop.
   * None when the header read is at EOF or the stream ends inside the body; in both
   * cases nothing of the stream is left.
   */
  function NextFrame(p: Stream): (r: Option<Frame>)
    ensures p == Eof ==> r.None?
    ensures r.Some? ==> |Contents(r.value.left)| < |Contents(p)|
  {
    var header := Take(p, HEADER_SIZE);
    if header.data == [] then None
    else
      var body := ReadExactly(header.left, BigEndian(header.data));
      if body.data.None? then None
      else Some(Frame(body.data.value, body.left))
  }

  /** The complete frame bodies on the stream, up to EOF. */
  function FrameBodies(p: Stream): (bodies: seq<seq<byte>>)
    ensures p == Eof ==> bodies == []
    ensures |bodies| <= |Contents(p)|
    decreases |Contents(p)|
  {
    match NextFrame(p)
    case None => []
    case Some(f) => [f.body] + FrameBodies(f.left)
  }

  /** What `forward_data_decrypt` forwards from the stream `p`, and what it leaves unread. */
  function DecryptRun(c: Cipher, p: Stream): (r: Run)
    ensures |r.sent| <= |FrameBodies(p)|
    ensures |Contents(r.left)| <= |Contents(p)|
    decreases |Contents(p)|
  {
    match NextFrame(p)
    case None => Run([], Eof)
    case Some(f) =>
      match c.decrypt(f.body)
      case None => Run([], f.left)
      case Some(raw) =>
        var more := DecryptRun(c, f.left);
        Run([raw] + more.sent, more.left)
  }

  /**
   * The body loop of `forward_data_decrypt`: each `recv` asks for exactly the bytes
   * still missing, and the loop ends with exactly `len` bytes, or fails at EOF.
   */
  method ReceiveBody(source: Connection, len: nat) returns (body: Option<seq<byte>>)
    modifies source
    ensures Exact(body, source.incoming) == ReadExactly(old(source.incoming), len)
    ensures source.written == old(source.written)
  {
    ghost var goal := ReadExactly(source.incoming, len);
    var encrypted: seq<byte> := [];
    var received := 0;
    while received < len
      invariant received == |encrypted| <= len
      invariant ReadExactlyFrom(encrypted, source.incoming, len - received) == goal
      invariant source.written == old(source.written)
      decreases len - received
    {
      ghost var before, missing := source.incoming, len - received;
      var chunk := source.Recv(len - received);
      ReadExactlyFromStep(encrypted, before, missing, chunk, source.incoming);
      if chunk == [] {
        return None;
      }
      encrypted := encrypted + chunk;
      received := received + |chunk|;
      assert len - received == missing - |chunk|;
    }
    return Some(encrypted);
  }

  /**
   * The reads of one pass of `forward_data_decrypt`'s loop: `recv(4)` for the header,
   * then the body loop. None when the header read is at EOF or the body is cut short.
   */
  method ReceiveFrame(source: Connection) returns (body: Option<seq<byte>>)
    modifies source
    ensures body.Some? <==> NextFrame(old(source.incoming)).Some?
    ensures body.Some? ==> body.value == NextFrame(old(source.incoming)).value.body
                           && source.incoming == NextFrame(old(source.incoming)).value.left
    ensures body.None? ==> source.incoming == Eof
    ensures source.written == old(source.written)
  {
    var header := source.Recv(HEADER_SIZE);
    if header == [] {
      return None;
    }
    var encryptedLen := BigEndian(header);
    body := ReceiveBody(source, encryptedLen);
  }

  /** One pass of `forward_data_decrypt`'s loop that reads a whole frame keeps what is
      forwarded so far plus what is still to be forwarded equal to the whole run. */
  lemma DecryptRunStep(c: Cipher, p: Stream, body: seq<byte>, left: Stream, sent: seq<seq<byte>>)
    requires NextFrame(p) == Some(Frame(body, left))
    ensures c.decrypt(body).None? ==> sent + DecryptRun(c, p).sent == sent && DecryptRun(c, p).left == left
    ensures c.decrypt(body).Some? ==>
              sent + DecryptRun(c, p).sent == sent + [c.decrypt(body).value] + DecryptRun(c, left).sent
              && DecryptRun(c, p).left == DecryptRun(c, left).left
  {
    match c.decrypt(body)
    case None =>
      assert DecryptRun(c, p) == Run([], left);
      AppendNothing(sent);
    case Some(raw) =>
      var more := DecryptRun(c, left);
      assert DecryptRun(c, p) == Run([raw] + more.sent, more.left);
      AppendAssoc(sent, [raw], more.sent);
  }

  /** A pass that reads no whole frame ends the run with nothing more forwarded. */
  lemma DecryptRunEnd(c: Cipher, p: Stream, sent: seq<seq<byte>>)
    requires NextFrame(p).None?
    ensures sent + DecryptRun(c, p).sent == sent && DecryptRun(c, p).left == Eof
  {
    AppendNothing(sent);
  }

  /**
   * `forward_data_decrypt`: frames are read, decrypted and forwarded in order until
   * EOF at a header, EOF inside a body, or a token that fails to decrypt; nothing of
   * the frame where the pump stops is forwarded.
   */
  method ForwardDataDecrypt(source: Connection, dest: Connection, c: Cipher)
    requires source != dest
    modifies source, dest
    ensures dest.written == old(dest.written) + DecryptRun(c, old(source.incoming)).sent
    ensures source.incoming == DecryptRun(c, old(source.incoming)).left
    ensures source.written == old(source.written) && dest.incoming == old(dest.incoming)
  {
    ghost var goal := dest.written + DecryptRun(c, source.incoming).sent;
    ghost var rest := DecryptRun(c, source.incoming).left;
    while true
      invariant dest.written + DecryptRun(c, source.incoming).sent == goal
      invariant DecryptRun(c, source.incoming).left == rest
      invariant source.written == old(source.written) && dest.incoming == old(dest.incoming)
      decreases |Contents(source.incoming)|
    {
      ghost var before := source.incoming;
      var encrypted := ReceiveFrame(source);
      if encrypted.None? {
        DecryptRunEnd(c, before, dest.written);
        break;
      }
      DecryptRunStep(c, before, encrypted.value, source.incoming, dest.written);
      var rawData := c.decrypt(encrypted.value);
      if rawData.None? {
        break;
      }
      dest.SendAll(rawData.value);
    }
  }

  /** What `forward_data_encrypt` sends from the segments `p`, and what it leaves unread. */
  function EncryptRun(c: Cipher, p: Stream): (r: Run)
    ensures p == Eof ==> r == Run([], Eof)
    ensures p != Eof ==> |Contents(r.left)| < |Contents(p)|
    decreases |Contents(p)|
  {
    if p == Eof then Run([], Eof)
    else
      var read := Take(p, RECV_SIZE);
      var token := c.encrypt(read.data);
      if |token| >= MAX_FRAME_LEN then Run([], read.left)
      else
        var more := EncryptRun(c, read.left);
        Run([EncodeFrame(token)] + more.sent, more.left)
  }

  /** One pass of `forward_data_encrypt`'s loop keeps what is sent so far plus what is
      still to be sent equal to the whole run. */
  lemma EncryptRunStep(c: Cipher, p: Stream, data: seq<byte>, left: Stream, sent: seq<seq<byte>>)
    requires p != Eof && Take(p, RECV_SIZE) == Read(data, left)
    ensures |c.encrypt(data)| >= MAX_FRAME_LEN ==> EncryptRun(c, p) == Run([], left)
    ensures |c.encrypt(data)| < MAX_FRAME_LEN ==>
              sent + EncryptRun(c, p).sent == sent + [EncodeFrame(c.encrypt(data))] + EncryptRun(c, left).sent
              && EncryptRun(c, p).left == EncryptRun(c, left).left
  {
    var token := c.encrypt(data);
    if |token| < MAX_FRAME_LEN {
      assert EncryptRun(c, p).sent == [EncodeFrame(token)] + EncryptRun(c, left).sent;
    }
  }

  /**
   * `forward_data_encrypt`: each chunk read from the destination is encrypted and sent
   * as one length-prefixed frame, in order, until EOF or a token too long for the header.
   */
  method ForwardDataEncrypt(source: Connection, dest: Connection, c: Cipher)
    requires source != dest
    modifies source, dest
    ensures dest.written == old(dest.written) + EncryptRun(c, old(source.incoming)).sent
    ensures source.incoming == EncryptRun(c, old(source.incoming)).left
    ensures source.written == old(source.written) && dest.incoming == old(dest.incoming)
  {
    ghost var total := EncryptRun(c, source.incoming);
    while true
      invariant dest.written + EncryptRun(c, source.incoming).sent == old(dest.written) + total.sent
      invariant EncryptRun(c, source.incoming).left == total.left
      invariant source.written == old(source.written) && dest.incoming == old(dest.incoming)
      decreases |Contents(source.incoming)|
    {
      ghost var before := source.incoming;
      var rawData := source.Recv(RECV_SIZE);
      if rawData == [] {
        break;
      }
      EncryptRunStep(c, before, rawData, source.incoming, dest.written);
      var encryptedData := c.encrypt(rawData);
      if |encryptedData| >= MAX_FRAME_LEN {
        break;
      }
      dest.SendAll(EncodeFrame(encryptedData));
    }
  }

  /**
   * The destination step of `handle_proxy_client`: an empty read ends the session,
   * otherwise the bytes are decrypted as one token, decoded as text and parsed as
   * "host:port".
   */
  function DecodeDestination(c: Cipher, data: seq<byte>): (r: Option<Endpoint>)
    ensures data == [] ==> r.None?
    ensures c.decrypt(data).None? ==> r.None?
    ensures r.Some? ==> ':' !in r.value.host
  {
    if data == [] then None
    else
      match c.decrypt(data)
      case None => None
      case Some(plain) =>
        match DecodeAscii(plain)
        case None => None
        case Some(text) => ParseDestination(text)
  }

  /** Reads the destination with one bounded `recv(1024)` and decodes it. */
  method ReceiveDestination(conn: Connection, c: Cipher) returns (dest: Option<Endpoint>)
    modifies conn
    ensures var read := Take(old(conn.incoming), DEST_RECV_SIZE);
              dest == DecodeDestination(c, read.data) && conn.incoming == read.left
    ensures conn.written == old(conn.written)
  {
    var encryptedDest := conn.Recv(DEST_RECV_SIZE);
    dest := DecodeDestination(c, encryptedDest);
  }
}
