/**
 * What the gateway's pumps guarantee: the decrypting pump forwards the plaintexts of the
 * complete frames in order and stops at the first failure; the encrypting pump frames
 * every read; and decoding the encoder's output under any chunking of the bodies gives
 * back what was read, provided each 4-byte header arrives in one read.
 */
module GatewayProperties {
  import opened Bytes
  import opened Crypto
  import opened Sockets
  import opened Gateway

  /** The decrypting pump forwards exactly the plaintexts of the frame bodies before the
      first body that fails to decrypt. */
  lemma {:induction false} DecryptRunForwardsDecryptPrefix(c: Cipher, p: Stream)
    ensures DecryptRun(c, p).sent == DecryptPrefix(c, FrameBodies(p))
    decreases |Contents(p)|
  {
    match NextFrame(p)
    case None =>
    case Some(f) =>
      var bodies := FrameBodies(p);
      assert bodies[0] == f.body && bodies[1..] == FrameBodies(f.left);
      DecryptRunForwardsDecryptPrefix(c, f.left);
  }

  /** Nothing of a frame that fails to decrypt is forwarded, and nothing after it. */
  lemma DecryptRunStopsAtFailure(c: Cipher, p: Stream, k: nat)
    requires k < |FrameBodies(p)| && c.decrypt(FrameBodies(p)[k]).None?
    ensures |DecryptRun(c, p).sent| <= k
  {
    DecryptRunForwardsDecryptPrefix(c, p);
  }

  /** EOF inside a body: the pump stops, forwards nothing of that frame and consumes the rest. */
  lemma PrematureEofForwardsNothing(c: Cipher, p: Stream)
    requires p != Eof
    requires |Contents(Take(p, HEADER_SIZE).left)| < BigEndian(Take(p, HEADER_SIZE).data)
    ensures NextFrame(p).None? && FrameBodies(p) == [] && DecryptRun(c, p) == Run([], Eof)
  {
    var header := Take(p, HEADER_SIZE);
    ReadExactlyMeaning(header.left, BigEndian(header.data));
  }

  /** Every token fits the 4-byte length header. */
  predicate Framable(tokens: seq<seq<byte>>)
  {
    forall i :: 0 <= i < |tokens| ==> |tokens[i]| < MAX_FRAME_LEN
  }

  /** The frame sent for each token, in order. */
  function EncodeEach(tokens: seq<seq<byte>>): (frames: seq<seq<byte>>)
    requires Framable(tokens)
    ensures |frames| == |tokens|
    ensures forall i :: 0 <= i < |tokens| ==> |frames[i]| == HEADER_SIZE + |tokens[i]|
  {
    seq(|tokens|, i requires 0 <= i < |tokens| && Framable(tokens) => EncodeFrame(tokens[i]))
  }

  /**
   * The header of every frame arrives in a single read: at each frame boundary the next
   * segment holds at least the 4 header bytes. (`recv(4)` is not repeated, so a header
   * split across reads is taken as a shorter number.)
   */
  predicate HeadersWhole(p: Stream, tokens: seq<seq<byte>>)
    decreases |tokens|
  {
    tokens == [] ||
    (p.Seg? && |p.first| >= HEADER_SIZE && HeadersWhole(Drop(p, HEADER_SIZE + |tokens[0]|), tokens[1..]))
  }

  /** A whole header read returns the frame's header and leaves the rest as it arrived. */
  lemma HeaderOfEncoded(p: Stream, token: seq<byte>, rest: seq<byte>)
    requires |token| < MAX_FRAME_LEN
    requires Contents(p) == EncodeFrame(token) + rest
    requires p.Seg? && |p.first| >= HEADER_SIZE
    ensures Take(p, HEADER_SIZE).data == EncodeFrame(token)[..HEADER_SIZE]
    ensures Take(p, HEADER_SIZE).left == Drop(p, HEADER_SIZE)
  {
    assert Take(p, HEADER_SIZE).data == p.first[..HEADER_SIZE] == Contents(p)[..HEADER_SIZE];
    TakeLeavesDrop(p, HEADER_SIZE);
  }

  /** A frame at the head of the stream, its header in one read, is decoded as its token. */
  lemma NextFrameOfEncoded(p: Stream, token: seq<byte>, rest: seq<byte>)
    requires |token| < MAX_FRAME_LEN
    requires Contents(p) == EncodeFrame(token) + rest
    requires p.Seg? && |p.first| >= HEADER_SIZE
    ensures NextFrame(p) == Some(Frame(token, Drop(p, HEADER_SIZE + |token|)))
  {
    var frame := EncodeFrame(token);
    HeaderOfEncoded(p, token, rest);
    var mid := Drop(p, HEADER_SIZE);
    SuffixOfAppend(frame, rest, HEADER_SIZE);
    ReadExactlyMeaning(mid, |token|);
    assert Contents(mid)[..|token|] == token;
    DropDrop(p, HEADER_SIZE, |token|);
  }

  lemma ContentsEmpty(p: Stream)
    requires Contents(p) == []
    ensures p == Eof
  {
  }

  lemma FrameBodiesStep(p: Stream, f: Frame)
    requires NextFrame(p) == Some(f)
    ensures FrameBodies(p) == [f.body] + FrameBodies(f.left)
  {
  }

  lemma EncodeEachCons(tokens: seq<seq<byte>>)
    requires Framable(tokens) && tokens != []
    ensures Framable(tokens[1..])
    ensures EncodeEach(tokens) == [EncodeFrame(tokens[0])] + EncodeEach(tokens[1..])
  {
    var rest := tokens[1..];
    assert forall i :: 0 <= i < |rest| ==> rest[i] == tokens[i + 1];
  }

  /** The frames of a token list are the first token's frame followed by the rest. */
  lemma EncodedStreamCons(tokens: seq<seq<byte>>)
    requires Framable(tokens) && tokens != []
    ensures Framable(tokens[1..])
    ensures Concat(EncodeEach(tokens)) == EncodeFrame(tokens[0]) + Concat(EncodeEach(tokens[1..]))
  {
    EncodeEachCons(tokens);
    assert EncodeEach(tokens)[1..] == EncodeEach(tokens[1..]);
  }

  /** The frame bodies of an encoded stream are its tokens, however the bodies are chunked. */
  lemma {:induction false} FrameBodiesOfEncoded(p: Stream, tokens: seq<seq<byte>>)
    requires Framable(tokens)
    requires Contents(p) == Concat(EncodeEach(tokens))
    requires HeadersWhole(p, tokens)
    ensures FrameBodies(p) == tokens
    decreases |tokens|
  {
    if tokens == [] {
      assert EncodeEach(tokens) == [];
      ContentsEmpty(p);
    } else {
      var rest := tokens[1..];
      var more := Concat(EncodeEach(rest));
      EncodedStreamCons(tokens);
      NextFrameOfEncoded(p, tokens[0], more);
      var left := Drop(p, HEADER_SIZE + |tokens[0]|);
      AfterPrefix(EncodeFrame(tokens[0]), more);
      FrameBodiesOfEncoded(left, rest);
      FrameBodiesStep(p, Frame(tokens[0], left));
      HeadAndTail(tokens);
    }
  }

  /**
   * The frame round trip: a stream of frames holding the tokens of a sound cipher is
   * decoded and decrypted back to the plaintexts, in order, whatever the body chunking.
   */
  lemma DecryptRunOfEncoded(c: Cipher, p: Stream, plains: seq<seq<byte>>)
    requires Sound(c)
    requires Framable(EncryptEach(c, plains))
    requires Contents(p) == Concat(EncodeEach(EncryptEach(c, plains)))
    requires HeadersWhole(p, EncryptEach(c, plains))
    ensures DecryptRun(c, p).sent == plains
  {
    FrameBodiesOfEncoded(p, EncryptEach(c, plains));
    DecryptRunForwardsDecryptPrefix(c, p);
    DecryptPrefixOfTokens(c, plains);
  }

  /** The tokens the encrypting pump produces for a stream fit the header. */
  predicate TokensFit(c: Cipher, units: seq<seq<byte>>)
  {
    forall i :: 0 <= i < |units| ==> |c.encrypt(units[i])| < MAX_FRAME_LEN
  }

  /** The frames of the first `k` units' tokens are the first unit's frame, then the frames
      of the next `k - 1`. */
  lemma EncodeTokensCons(c: Cipher, units: seq<seq<byte>>, k: nat)
    requires 0 < k <= |units| && TokensFit(c, units[..k])
    ensures TokensFit(c, units[1..][..k - 1])
    ensures Framable(EncryptEach(c, units[..k]))
    ensures |c.encrypt(units[0])| < MAX_FRAME_LEN
    ensures EncodeEach(EncryptEach(c, units[..k]))
         == [EncodeFrame(c.encrypt(units[0]))] + EncodeEach(EncryptEach(c, units[1..][..k - 1]))
  {
    var first, rest := units[..k], units[1..][..k - 1];
    assert first[0] == units[0];
    assert forall i :: 0 <= i < |rest| ==> rest[i] == first[i + 1];
    var tokens := EncryptEach(c, first);
    assert tokens[1..] == EncryptEach(c, rest);
    EncodeEachCons(tokens);
  }

  /**
   * The encrypting pump up to its first overflow: when the tokens of the first `k` reads
   * fit and the token of read `k`, if any, does not, exactly the frames of those `k`
   * reads are sent, in order; when there is no overflow the stream is read to EOF.
   */
  lemma {:induction false} EncryptRunBeforeOverflow(c: Cipher, p: Stream, k: nat)
    requires k <= |Reads(p, RECV_SIZE)|
    requires TokensFit(c, Reads(p, RECV_SIZE)[..k])
    requires k < |Reads(p, RECV_SIZE)| ==> |c.encrypt(Reads(p, RECV_SIZE)[k])| >= MAX_FRAME_LEN
    ensures Framable(EncryptEach(c, Reads(p, RECV_SIZE)[..k]))
    ensures EncryptRun(c, p).sent == EncodeEach(EncryptEach(c, Reads(p, RECV_SIZE)[..k]))
    ensures k == |Reads(p, RECV_SIZE)| ==> EncryptRun(c, p).left == Eof
    decreases k
  {
    var units := Reads(p, RECV_SIZE);
    if k == 0 {
      assert EncodeEach(EncryptEach(c, units[..0])) == [];
      if p != Eof {
        var read := Take(p, RECV_SIZE);
        ReadsStep(p, RECV_SIZE);
        EncryptRunStep(c, p, read.data, read.left, []);
      }
    } else {
      var read := Take(p, RECV_SIZE);
      ReadsStep(p, RECV_SIZE);
      var more := Reads(read.left, RECV_SIZE);
      assert units[0] == read.data && units[1..] == more;
      EncodeTokensCons(c, units, k);
      if k - 1 < |more| {
        assert more[k - 1] == units[k];
      }
      EncryptRunBeforeOverflow(c, read.left, k - 1);
      EncryptRunStep(c, p, read.data, read.left, []);
      assert [] + EncryptRun(c, p).sent == EncryptRun(c, p).sent;
    }
  }

  /** When every token fits, the encrypting pump sends one frame per read, in order, until EOF. */
  lemma EncryptRunFramesReads(c: Cipher, p: Stream)
    requires TokensFit(c, Reads(p, RECV_SIZE))
    ensures Framable(EncryptEach(c, Reads(p, RECV_SIZE)))
    ensures EncryptRun(c, p) == Run(EncodeEach(EncryptEach(c, Reads(p, RECV_SIZE))), Eof)
  {
    var units := Reads(p, RECV_SIZE);
    assert units[..|units|] == units;
    EncryptRunBeforeOverflow(c, p, |units|);
  }

  /** A token too long for the header ends the encrypting pump: at most the frames before it are sent. */
  lemma {:induction false} EncryptRunStopsAtOverflow(c: Cipher, p: Stream, k: nat)
    requires k < |Reads(p, RECV_SIZE)| && |c.encrypt(Reads(p, RECV_SIZE)[k])| >= MAX_FRAME_LEN
    ensures |EncryptRun(c, p).sent| <= k
    decreases k
  {
    var read := Take(p, RECV_SIZE);
    ReadsStep(p, RECV_SIZE);
    if k > 0 && |c.encrypt(read.data)| < MAX_FRAME_LEN {
      assert Reads(p, RECV_SIZE)[k] == Reads(read.left, RECV_SIZE)[k - 1];
      EncryptRunStopsAtOverflow(c, read.left, k - 1);
    }
  }

  /**
   * The gateway's two directions compose: what the encrypting pump sends, delivered to a
   * decrypting pump in any chunking that keeps each header in one read, comes out as the
   * reads of the original stream, and so as the original bytes.
   */
  lemma GatewayFramingRoundTrip(c: Cipher, p: Stream, q: Stream)
    requires Sound(c)
    requires TokensFit(c, Reads(p, RECV_SIZE))
    requires Contents(q) == Concat(EncryptRun(c, p).sent)
    requires HeadersWhole(q, EncryptEach(c, Reads(p, RECV_SIZE)))
    ensures DecryptRun(c, q).sent == Reads(p, RECV_SIZE)
    ensures Concat(DecryptRun(c, q).sent) == Contents(p)
  {
    EncryptRunFramesReads(c, p);
    DecryptRunOfEncoded(c, q, Reads(p, RECV_SIZE));
  }

  /** The hypothesis on headers is met, for instance, when the whole stream arrives in one read. */
  lemma {:induction false} OneReadKeepsHeadersWhole(tokens: seq<seq<byte>>)
    requires Framable(tokens) && tokens != []
    ensures HeadersWhole(Seg(Concat(EncodeEach(tokens)), Eof), tokens)
    decreases |tokens|
  {
    var s := Concat(EncodeEach(tokens));
    var rest := tokens[1..];
    EncodedStreamCons(tokens);
    var k := HEADER_SIZE + |tokens[0]|;
    if rest != [] {
      OneReadKeepsHeadersWhole(rest);
      EncodedStreamCons(rest);
      assert s[k..] == Concat(EncodeEach(rest));
      assert Drop(Seg(s, Eof), k) == Seg(s[k..], Eof);
    }
  }

  /** A header split across two reads is misread: a one-byte token whose header arrives as
      two bytes and then the rest is decoded as an empty body. */
  lemma SplitHeaderMisframes(b: byte)
    ensures EncodeFrame([b]) == [0, 0, 0, 1, b]
    ensures NextFrame(Seg([0, 0], Seg([0, 1, b], Eof))) == Some(Frame([], Seg([0, 1, b], Eof)))
  {
    var frame := EncodeFrame([b]);
    assert ToBytes(1, HEADER_SIZE) == [0, 0, 0, 1];
    BigEndianPair([0, 0]);
    var p := Seg([0, 0], Seg([0, 1, b], Eof));
    assert Take(p, HEADER_SIZE) == Read([0, 0], Seg([0, 1, b], Eof));
  }
}
