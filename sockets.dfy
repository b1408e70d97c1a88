/**
 * A stream socket as the pumps see it. The bytes still to arrive are a list of
 * non-empty segments; `recv(n)` returns at most `n` bytes of the first segment and
 * leaves the rest of it for the next call, so every way the transport may split the
 * stream into short reads is one choice of segments. An exhausted stream is EOF (a
 * timeout or reset ends every loop of the source the same way, so it is the same here).
 */
module Sockets {
  import opened Bytes

  type Segment = s: seq<byte> | |s| > 0 witness [0]

  /** The segments still to arrive, in order. */
  datatype Stream = Eof | Seg(first: Segment, rest: Stream)

  /** The bytes of a stream, however they are segmented. */
  function Contents(p: Stream): seq<byte>
  {
    match p
    case Eof => []
    case Seg(s, rest) => s + Contents(rest)
  }

  /** The bytes of a list of chunks, in order (`b''.join`). */
  function Concat(chunks: seq<seq<byte>>): seq<byte>
  {
    if chunks == [] then [] else chunks[0] + Concat(chunks[1..])
  }

  /** The stream with its first `k` bytes removed, the rest segmented as it arrives. */
  function Drop(p: Stream, k: nat): (r: Stream)
    ensures Contents(r) == if k <= |Contents(p)| then Contents(p)[k..] else []
  {
    if k == 0 then p
    else
      match p
      case Eof => Eof
      case Seg(s, rest) =>
        if |s| <= k then Drop(rest, k - |s|) else Seg(s[k..], rest)
  }

  lemma {:induction false} DropDrop(p: Stream, j: nat, k: nat)
    ensures Drop(Drop(p, j), k) == Drop(p, j + k)
  {
    if j > 0 && k > 0 && p.Seg? {
      var s := p.first;
      if |s| <= j {
        DropDrop(p.rest, j - |s|, k);
      } else {
        assert Drop(p, j) == Seg(s[j..], p.rest);
        if |s| - j > k {
          assert s[j..][k..] == s[j + k..];
        }
      }
    }
  }

  /** The result of one `recv(n)` call and the stream that remains. */
  datatype Read = Read(data: seq<byte>, left: Stream)

  function Take(p: Stream, n: nat): (r: Read)
    requires n > 0
    ensures |r.data| <= n
    ensures r.data == [] <==> p == Eof
    ensures r.data + Contents(r.left) == Contents(p)
  {
    match p
    case Eof => Read([], Eof)
    case Seg(s, rest) =>
      if |s| <= n then Read(s, rest)
      else
        assert s == s[..n] + s[n..];
        Read(s[..n], Seg(s[n..], rest))
  }

  /** A read leaves exactly the bytes after those it returned. */
  lemma TakeLeavesDrop(p: Stream, n: nat)
    requires n > 0
    ensures Take(p, n).left == Drop(p, |Take(p, n).data|)
  {
    if p.Seg? && |p.first| <= n {
      assert Drop(p, |p.first|) == Drop(p.rest, 0);
    }
  }

  /** The results of `recv(n)` calls repeated until EOF, in order. */
  function Reads(p: Stream, n: nat): (r: seq<seq<byte>>)
    requires n > 0
    ensures Concat(r) == Contents(p)
    decreases |Contents(p)|
  {
    if p == Eof then []
    else
      var first := Take(p, n);
      var more := Reads(first.left, n);
      assert ([first.data] + more)[1..] == more;
      [first.data] + more
  }

  /** Every read result is non-empty and at most the size asked for. */
  lemma {:induction false} ReadsBounded(p: Stream, n: nat)
    requires n > 0
    ensures forall i :: 0 <= i < |Reads(p, n)| ==> 0 < |Reads(p, n)[i]| <= n
    decreases |Contents(p)|
  {
    if p != Eof {
      ReadsBounded(Take(p, n).left, n);
    }
  }

  lemma ReadsStep(p: Stream, n: nat)
    requires n > 0 && p != Eof
    ensures Reads(p, n) == [Take(p, n).data] + Reads(Take(p, n).left, n)
  {
  }

  /** The outcome of reading until exactly `need` bytes have arrived. */
  datatype Exact = Exact(data: Option<seq<byte>>, left: Stream)

  /**
   * Reading until exactly `need` bytes are in, `d` having arrived already: each `recv`
   * asks for the bytes still missing; an empty read before the end fails the whole read
   * (ConnectionResetError), and the stream is then exhausted.
   */
  function ReadExactlyFrom(d: seq<byte>, p: Stream, need: nat): (r: Exact)
    ensures r.data.Some? ==> |r.data.value| == |d| + need
    ensures r.data.None? ==> r.left == Eof
    ensures |Contents(r.left)| <= |Contents(p)|
    decreases need
  {
    if need == 0 then Exact(Some(d), p)
    else
      var chunk := Take(p, need);
      if chunk.data == [] then Exact(None, chunk.left)
      else ReadExactlyFrom(d + chunk.data, chunk.left, need - |chunk.data|)
  }

  /** One `recv` of the missing bytes: an empty one fails the read, any other moves what it
      returned into the bytes already in. */
  lemma ReadExactlyFromStep(d: seq<byte>, p: Stream, need: nat, chunk: seq<byte>, left: Stream)
    requires need > 0 && Take(p, need) == Read(chunk, left)
    ensures chunk == [] ==> ReadExactlyFrom(d, p, need) == Exact(None, left)
    ensures chunk != [] ==> ReadExactlyFrom(d, p, need) == ReadExactlyFrom(d + chunk, left, need - |chunk|)
  {
  }

  /** Reading until exactly `need` bytes are in. */
  function ReadExactly(p: Stream, need: nat): (r: Exact)
    ensures r.data.Some? ==> |r.data.value| == need
    ensures r.data.None? ==> r.left == Eof
    ensures |Contents(r.left)| <= |Contents(p)|
  {
    ReadExactlyFrom([], p, need)
  }

  /** What reading exactly `need` bytes means: the bytes already in followed by the next
      `need` bytes of the stream, with the rest left as it arrives, or failure with nothing
      left when the stream is shorter. */
  lemma {:induction false} ReadExactlyFromMeaning(d: seq<byte>, p: Stream, need: nat)
    ensures need <= |Contents(p)| ==>
              ReadExactlyFrom(d, p, need) == Exact(Some(d + Contents(p)[..need]), Drop(p, need))
    ensures need > |Contents(p)| ==> ReadExactlyFrom(d, p, need) == Exact(None, Eof)
    decreases need
  {
    if need == 0 {
      assert d + Contents(p)[..0] == d;
    } else {
      var chunk := Take(p, need);
      ReadExactlyFromStep(d, p, need, chunk.data, chunk.left);
      if chunk.data != [] {
        var k := |chunk.data|;
        ReadExactlyFromMeaning(d + chunk.data, chunk.left, need - k);
        TakeLeavesDrop(p, need);
        DropDrop(p, k, need - k);
        if need <= |Contents(p)| {
          PrefixOfAppend(chunk.data, Contents(chunk.left), need);
          AppendAssoc(d, chunk.data, Contents(chunk.left)[..need - k]);
        }
      }
    }
  }

  /** Reading exactly `need` bytes gives the first `need` bytes of the stream and leaves the
      rest, or fails with nothing left when the stream is shorter. */
  lemma ReadExactlyMeaning(p: Stream, need: nat)
    ensures need <= |Contents(p)| ==> ReadExactly(p, need) == Exact(Some(Contents(p)[..need]), Drop(p, need))
    ensures need > |Contents(p)| ==> ReadExactly(p, need) == Exact(None, Eof)
  {
    ReadExactlyFromMeaning([], p, need);
    assert [] + Contents(p)[..Min(need, |Contents(p)|)] == Contents(p)[..Min(need, |Contents(p)|)];
  }

  /** What a pump passed to `sendall`, in order, and the part of its source it left unread. */
  datatype Run = Run(sent: seq<seq<byte>>, left: Stream)

  /** A connected socket: the segments still to arrive and what was passed to `sendall`. */
  class Connection {
    var incoming: Stream
    var written: seq<seq<byte>>

    constructor (arrivals: Stream)
      ensures incoming == arrivals && written == []
    {
      incoming := arrivals;
      written := [];
    }

    /** `recv(n)`: at most `n` bytes, empty only at EOF. */
    method Recv(n: nat) returns (data: seq<byte>)
      requires n > 0
      modifies this
      ensures Read(data, incoming) == Take(old(incoming), n)
      ensures written == old(written)
    {
      var r := Take(incoming, n);
      data, incoming := r.data, r.left;
    }

    /** `sendall(data)`. */
    method SendAll(data: seq<byte>)
      modifies this
      ensures written == old(written) + [data]
      ensures incoming == old(incoming)
    {
      written := written + [data];
    }
  }
}
