/** Length-prefixed frames: the simple decoder on a byte stream, and the buffered reader that pulls
    chunks from the transport. Bodies are decoded by a function that may fail. */
module FrameReader {
  import opened Bytes

  const MAX_BODY: nat := 2 * 1024 * 1024

  function EncodeFrame(body: seq<Byte>): seq<Byte>
    requires |body| < 0x1_0000_0000
  {
    ToBE(|body|, 4) + body
  }

  /** What one `decode_frame` returns on the rest of a stream, and what it leaves of it. A stream that
      ends inside a frame is used up. */
  function DecodeFrame<F>(loads: seq<Byte> -> Option<F>, stream: seq<Byte>): (r: (Option<F>, seq<Byte>)) {
    if |stream| < 4 then (None, [])
    else
      var length := FromBE(stream[..4]);
      if length == 0 || length > MAX_BODY then (None, stream[4..])
      else if |stream| < 4 + length then (None, [])
      else (loads(stream[4..4 + length]), stream[4 + length..])
  }

  /** The results of `n` successive calls, and what they leave. */
  function DecodeMany<F>(loads: seq<Byte> -> Option<F>, stream: seq<Byte>, n: nat): (seq<Option<F>>, seq<Byte>) {
    if n == 0 then ([], stream)
    else
      var (results, rest) := DecodeMany(loads, stream, n - 1);
      var (result, rest') := DecodeFrame(loads, rest);
      (results + [result], rest')
  }

  function Join(chunks: seq<seq<Byte>>): seq<Byte> {
    if chunks == [] then [] else chunks[0] + Join(chunks[1..])
  }

  /** A call returns a frame, returns nothing, or fails while unpacking a short header. */
  datatype Outcome<F> = Returned(frame: Option<F>) | Raised

  lemma Consume(buf: seq<Byte>, rest: seq<Byte>, n: nat)
    requires n <= |buf|
    ensures (buf + rest)[n..] == buf[n..] + rest
  {
  }

  /** The chunks that are left are the last of those there were. */
  predicate LastOf(left: seq<seq<Byte>>, chunks: seq<seq<Byte>>) {
    |left| <= |chunks| && left == chunks[|chunks| - |left|..]
  }

  /** No chunk was pulled that was not needed: what the buffer holds is less than the last one. */
  predicate Frugal(left: seq<seq<Byte>>, chunks: seq<seq<Byte>>, buffered: nat) {
    |left| < |chunks| ==> buffered < |chunks[|chunks| - |left| - 1]|
  }

  lemma LastOfSelf(chunks: seq<seq<Byte>>)
    ensures LastOf(chunks, chunks)
  {
  }

  lemma OneLess(chunks: seq<seq<Byte>>)
    requires chunks != []
    ensures LastOf(chunks[1..], chunks)
  {
  }

  lemma OneLessThen(chunks: seq<seq<Byte>>, left: seq<seq<Byte>>)
    requires chunks != [] && LastOf(left, chunks[1..])
    ensures LastOf(left, chunks)
  {
  }

  lemma JoinNone()
    ensures Join([]) == []
  {
  }

  lemma DecodeShort<F>(loads: seq<Byte> -> Option<F>, stream: seq<Byte>)
    requires |stream| < 4
    ensures DecodeFrame(loads, stream) == (None, [])
  {
  }

  /** One chunk for the header, and then what the body needs. */
  lemma HeaderThenBody(chunks: seq<seq<Byte>>, left: seq<seq<Byte>>, held: nat, buffered: nat)
    requires chunks != [] && held < 4 && LastOf(left, chunks[1..]) && Frugal(left, chunks[1..], buffered)
    requires |left| == |chunks[1..]| ==> buffered <= held + |chunks[0]| - 4
    ensures LastOf(left, chunks) && Frugal(left, chunks, buffered)
  {
    if |left| < |chunks[1..]| {
      var i := |chunks| - |left| - 1;
      assert chunks[1..][i - 1] == chunks[i];
    }
  }

  class BufferedFrameReader<F> {
    const loads: seq<Byte> -> Option<F>
    /** What the transport will deliver, read by read, before its end. */
    var pending: seq<seq<Byte>>
    var buf: seq<Byte>
    var closed: bool

    ghost predicate Valid()
      reads this
    {
      forall i :: 0 <= i < |pending| ==> pending[i] != []
    }

    /** The bytes the reader has not consumed yet. */
    function Remaining(): seq<Byte>
      reads this
    {
      if closed then [] else buf + Join(pending)
    }

    constructor (loads: seq<Byte> -> Option<F>, chunks: seq<seq<Byte>>)
      requires forall i :: 0 <= i < |chunks| ==> chunks[i] != []
      ensures Valid() && Remaining() == Join(chunks)
      ensures this.loads == loads && pending == chunks && buf == [] && !closed
    {
      this.loads := loads;
      pending := chunks;
      buf := [];
      closed := false;
    }

    /** One read from the transport; an empty one means that the peer has closed. */
    method Pull() returns (got: bool)
      requires Valid() && !closed
      modifies this
      ensures Valid() && got == (old(pending) != []) && closed == !got
      ensures got ==> Remaining() == old(Remaining()) && buf == old(buf) + old(pending)[0]
      ensures got ==> pending == old(pending)[1..]
      ensures !got ==> buf == old(buf) && pending == []
    {
      if pending == [] {
        closed := true;
        return false;
      }
      assert buf + Join(pending) == (buf + pending[0]) + Join(pending[1..]);
      buf := buf + pending[0];
      pending := pending[1..];
      return true;
    }

    /** The one read for the header comes up short. */
    predicate ShortHeader()
      reads this
    {
      !closed && |buf| < 4 && pending != [] && |buf| + |pending[0]| < 4
    }

    /** The reader as shipped: the header is topped up by a single read. It fails exactly when that
        read leaves fewer than 4 bytes, and otherwise agrees with the simple decoder. */
    method ReadFrame() returns (o: Outcome<F>)
      requires Valid()
      modifies this
      ensures Valid()
      ensures o.Raised? <==> old(ShortHeader())
      ensures o.Raised? ==> Remaining() == old(Remaining())
      ensures o.Returned? ==> (o.frame, Remaining()) == DecodeFrame(loads, old(Remaining()))
      ensures LastOf(pending, old(pending)) && (closed ==> Remaining() == [])
      ensures !closed && o.Returned? ==> Frugal(pending, old(pending), |buf|)
      ensures old(closed) ==> closed
    {
      hide DecodeFrame, Join, LastOf, Frugal;
      LastOfSelf(pending);
      if closed {
        DecodeShort(loads, Remaining());
        return Returned(None);
      }
      ghost var chunks, held := pending, |buf|;
      if |buf| < 4 {
        var got := Pull();
        if !got {
          JoinNone();
          DecodeShort(loads, old(Remaining()));
          return Returned(None);
        }
        OneLess(chunks);
        if |buf| < 4 {
          return Raised;
        }
        o := ReadBody();
        if !closed {
          HeaderThenBody(chunks, pending, held, |buf|);
        }
        OneLessThen(chunks, pending);
      } else {
        o := ReadBody();
      }
    }

    /** The reader as intended: the header is topped up until it is complete. It agrees with the
        simple decoder for every chunking. */
    method ReadFrameLooped() returns (o: Outcome<F>)
      requires Valid()
      modifies this
      ensures Valid()
      ensures o.Returned? && (o.frame, Remaining()) == DecodeFrame(loads, old(Remaining()))
    {
      if closed {
        return Returned(None);
      }
      var enough := Fill(4);
      if !enough {
        return Returned(None);
      }
      o := ReadBody();
    }

    /** Pulls until the buffer holds enough bytes or the transport ends. */
    method Fill(needed: nat) returns (enough: bool)
      requires Valid() && !closed
      modifies this
      ensures Valid() && LastOf(pending, old(pending)) && closed == !enough
      ensures enough ==> |buf| >= needed && Remaining() == old(Remaining()) && old(buf) <= buf
      ensures !enough ==> |old(Remaining())| < needed
      ensures enough ==> Frugal(pending, old(pending), |buf| - needed)
      ensures enough && |pending| == |old(pending)| ==> buf == old(buf)
    {
      hide Join;
      while |buf| < needed
        invariant Valid() && !closed && Remaining() == old(Remaining()) && old(buf) <= buf
        invariant LastOf(pending, old(pending))
        invariant |buf| >= needed ==> Frugal(pending, old(pending), |buf| - needed)
        invariant |pending| == |old(pending)| ==> buf == old(buf)
        decreases |pending|
      {
        var got := Pull();
        if !got {
          JoinNone();
          return false;
        }
      }
      return true;
    }

    /** From a complete header on. */
    method ReadBody() returns (o: Outcome<F>)
      requires Valid() && !closed && |buf| >= 4
      modifies this
      ensures Valid() && LastOf(pending, old(pending)) && (!closed ==> Frugal(pending, old(pending), |buf|))
      ensures !closed && |pending| == |old(pending)| ==> |buf| <= old(|buf|) - 4
      ensures o.Returned? && (o.frame, Remaining()) == DecodeFrame(loads, old(Remaining()))
    {
      hide FromBE, Join;
      var length := FromBE(buf[..4]);
      ghost var all := Remaining();
      assert all[..4] == buf[..4];
      if length == 0 || length > MAX_BODY {
        Consume(buf, Join(pending), 4);
        buf := buf[4..];
        return Returned(None);
      }
      var needed := 4 + length;
      var enough := Fill(needed);
      if !enough {
        return Returned(None);
      }
      var body := buf[4..needed];
      Consume(buf, Join(pending), needed);
      assert all[4..needed] == body;
      buf := buf[needed..];
      return Returned(loads(body));
    }

    /** Successive reads until one fails. Up to there they return what the simple decoder returns on the
        joined stream. One fails exactly if a frame begins where the header is cut twice: if two chunk
        boundaries lie less than 4 bytes from its beginning. */
    method ReadMany(n: nat) returns (results: seq<Option<F>>, raised: bool)
      requires Valid()
      modifies this
      ensures Valid()
      ensures (results, Remaining()) == DecodeMany(loads, old(Remaining()), |results|)
      ensures |results| <= n && (!raised ==> |results| == n)
      ensures !old(closed) ==> forall i :: 0 <= i < |results| ==>
                !HeaderCutAt(loads, old(|buf|), old(pending), old(Remaining()), i)
      ensures raised ==> !old(closed) && |results| < n
      ensures raised ==> HeaderCutAt(loads, old(|buf|), old(pending), old(Remaining()), |results|)
      ensures (forall i :: 0 <= i < |old(pending)| ==> |old(pending)[i]| >= 4) ==> !raised
    {
      hide DecodeFrame, Join, LastOf, Frugal, CutTwice, AtFrame, Arrived, DecodeMany, HeaderCutAt;
      results, raised := [], false;
      ghost var all, p0, b0, live := Remaining(), pending, |buf|, !closed;
      ManyNone(loads, all);
      LastOfSelf(p0);
      if live {
        AtStart(b0, p0, buf);
      }
      while |results| < n
        invariant Valid() && |results| <= n && LastOf(pending, p0)
        invariant (results, Remaining()) == DecodeMany(loads, all, |results|)
        invariant (!live ==> closed) && (closed ==> Remaining() == [])
        invariant live ==> |all| == Arrived(b0, p0, |p0|)
        invariant !closed ==> AtFrame(b0, p0, pending, |all| - |Remaining()|, |buf|)
        invariant live ==> forall i :: 0 <= i < |results| ==> !HeaderCutAt(loads, b0, p0, all, i)
      {
        ghost var o, left, held, k := |all| - |Remaining()|, pending, |buf|, |results|;
        CutAt(loads, b0, p0, all, k, o);
        if !closed {
          CutIffShort(b0, p0, left, o, |buf|);
        } else if live {
          NoCutAtEnd(b0, p0);
        }
        ManyNext(loads, all, k);
        var r := ReadFrame();
        if r.Raised? {
          LongChunksNeverCut(b0, p0, o);
          return results, true;
        }
        results := results + [r.frame];
        LastOfTrans(pending, left, p0);
        if !closed {
          NextFrame(b0, p0, left, pending, o, held, |all|, buf);
        }
      }
    }

    /** The intended reader returns what the simple decoder returns, for every chunking. */
    method ReadManyLooped(n: nat) returns (results: seq<Option<F>>)
      requires Valid()
      modifies this
      ensures Valid()
      ensures (results, Remaining()) == DecodeMany(loads, old(Remaining()), n)
    {
      results := [];
      var i := 0;
      while i < n
        invariant Valid() && i <= n && (results, Remaining()) == DecodeMany(loads, old(Remaining()), i)
      {
        var o := ReadFrameLooped();
        results := results + [o.frame];
        i := i + 1;
      }
    }
  }

  // ---- where chunks end ----

  /** How many bytes have arrived once `q` more chunks are pulled. */
  function Arrived(buffered: nat, chunks: seq<seq<Byte>>, q: nat): nat
    requires q <= |chunks|
  {
    if q == 0 then buffered else Arrived(buffered, chunks, q - 1) + |chunks[q - 1]|
  }

  /** Two chunk boundaries lie in the first bytes of a header that begins at `o`. */
  ghost predicate CutTwice(buffered: nat, chunks: seq<seq<Byte>>, o: int) {
    exists q :: 0 <= q < |chunks| && o <= Arrived(buffered, chunks, q) && Arrived(buffered, chunks, q + 1) < o + 4
  }

  /** Frame `i` of the stream begins at such a place. */
  ghost predicate HeaderCutAt<F>(loads: seq<Byte> -> Option<F>, buffered: nat, chunks: seq<seq<Byte>>,
                                 stream: seq<Byte>, i: nat) {
    CutTwice(buffered, chunks, |stream| - |DecodeMany(loads, stream, i).1|)
  }

  /** The reader stands at the beginning of a frame and has pulled the chunks that reach it, no more. */
  ghost predicate AtFrame(buffered: nat, chunks: seq<seq<Byte>>, left: seq<seq<Byte>>, o: int, inBuffer: nat) {
    && |left| <= |chunks|
    && var q := |chunks| - |left|;
    && Arrived(buffered, chunks, q) == o + inBuffer && (q > 0 ==> Arrived(buffered, chunks, q - 1) < o)
  }

  lemma {:induction false} ArrivedGrows(buffered: nat, chunks: seq<seq<Byte>>, q: nat, r: nat)
    requires q <= r <= |chunks| && forall i :: 0 <= i < |chunks| ==> chunks[i] != []
    ensures Arrived(buffered, chunks, q) + (r - q) <= Arrived(buffered, chunks, r)
  {
    if q < r {
      ArrivedGrows(buffered, chunks, q, r - 1);
    }
  }

  /** At a frame the header is cut twice iff the next read leaves it short. */
  lemma CutIffShort(buffered: nat, chunks: seq<seq<Byte>>, left: seq<seq<Byte>>, o: int, inBuffer: nat)
    requires LastOf(left, chunks) && AtFrame(buffered, chunks, left, o, inBuffer)
    requires forall i :: 0 <= i < |chunks| ==> chunks[i] != []
    ensures CutTwice(buffered, chunks, o) <==> left != [] && inBuffer + |left[0]| < 4
  {
    var q := |chunks| - |left|;
    if m :| 0 <= m < |chunks| && o <= Arrived(buffered, chunks, m) && Arrived(buffered, chunks, m + 1) < o + 4 {
      if m < q {
        ArrivedGrows(buffered, chunks, m, q - 1);
      } else {
        ArrivedGrows(buffered, chunks, q + 1, m + 1);
      }
    }
    if left != [] && inBuffer + |left[0]| < 4 {
      assert Arrived(buffered, chunks, q + 1) < o + 4;
    }
  }

  /** Chunks of at least 4 bytes are safe everywhere. */
  lemma LongChunksNeverCut(buffered: nat, chunks: seq<seq<Byte>>, o: int)
    ensures (forall i :: 0 <= i < |chunks| ==> |chunks[i]| >= 4) ==> !CutTwice(buffered, chunks, o)
  {
    if q :| 0 <= q < |chunks| && o <= Arrived(buffered, chunks, q) && Arrived(buffered, chunks, q + 1) < o + 4 {
      assert |chunks[q]| < 4;
    }
  }

  lemma AtStart(buffered: nat, chunks: seq<seq<Byte>>, buf: seq<Byte>)
    requires buffered == |buf|
    ensures AtFrame(buffered, chunks, chunks, 0, buffered)
    ensures |buf + Join(chunks)| == Arrived(buffered, chunks, |chunks|)
  {
    ArrivedRest(buffered, chunks, 0);
    assert chunks[0..] == chunks;
  }

  lemma CutAt<F>(loads: seq<Byte> -> Option<F>, buffered: nat, chunks: seq<seq<Byte>>, stream: seq<Byte>, i: nat,
                 o: int)
    requires o == |stream| - |DecodeMany(loads, stream, i).1|
    ensures HeaderCutAt(loads, buffered, chunks, stream, i) <==> CutTwice(buffered, chunks, o)
  {
  }

  lemma ManyNone<F>(loads: seq<Byte> -> Option<F>, stream: seq<Byte>)
    ensures DecodeMany(loads, stream, 0) == ([], stream)
  {
  }

  lemma ManyNext<F>(loads: seq<Byte> -> Option<F>, stream: seq<Byte>, n: nat)
    ensures var (results, rest) := DecodeMany(loads, stream, n);
            var (result, rest') := DecodeFrame(loads, rest);
            DecodeMany(loads, stream, n + 1) == (results + [result], rest') && |rest'| <= |rest|
  {
  }

  lemma LastOfTrans(left: seq<seq<Byte>>, mid: seq<seq<Byte>>, chunks: seq<seq<Byte>>)
    requires LastOf(left, mid) && LastOf(mid, chunks)
    ensures LastOf(left, chunks)
  {
  }

  lemma NoCutAtEnd(buffered: nat, chunks: seq<seq<Byte>>)
    requires forall i :: 0 <= i < |chunks| ==> chunks[i] != []
    ensures !CutTwice(buffered, chunks, Arrived(buffered, chunks, |chunks|))
  {
    forall q | 0 <= q < |chunks|
      ensures Arrived(buffered, chunks, q) < Arrived(buffered, chunks, |chunks|)
    {
      ArrivedGrows(buffered, chunks, q, |chunks|);
    }
  }

  lemma {:induction false} ArrivedRest(buffered: nat, chunks: seq<seq<Byte>>, q: nat)
    requires q <= |chunks|
    ensures Arrived(buffered, chunks, q) + |Join(chunks[q..])| == Arrived(buffered, chunks, |chunks|)
    decreases |chunks| - q
  {
    if q < |chunks| {
      ArrivedRest(buffered, chunks, q + 1);
      assert chunks[q..][1..] == chunks[q + 1..];
    }
  }

  /** From one frame to the next. */
  lemma NextFrame(buffered: nat, chunks: seq<seq<Byte>>, left: seq<seq<Byte>>, left': seq<seq<Byte>>, o: int,
                  held: nat, total: nat, buf: seq<Byte>)
    requires LastOf(left, chunks) && LastOf(left', left) && Frugal(left', left, |buf|)
    requires total == Arrived(buffered, chunks, |chunks|) && o <= total - |buf + Join(left')|
    requires AtFrame(buffered, chunks, left, o, held)
    ensures AtFrame(buffered, chunks, left', total - |buf + Join(left')|, |buf|)
  {
    hide Join, Arrived, LastOf;
    LastOfTrans(left', left, chunks);
    ArrivedLeft(buffered, chunks, left');
    LastOneSame(chunks, left, left');
    if |left'| < |left| {
      ArrivedOne(buffered, chunks, |chunks| - |left'| - 1);
    }
  }

  lemma ArrivedLeft(buffered: nat, chunks: seq<seq<Byte>>, left: seq<seq<Byte>>)
    requires LastOf(left, chunks)
    ensures |left| <= |chunks|
    ensures Arrived(buffered, chunks, |chunks| - |left|) + |Join(left)| == Arrived(buffered, chunks, |chunks|)
  {
    hide Join, Arrived;
    ArrivedRest(buffered, chunks, |chunks| - |left|);
  }

  lemma LastOneSame(chunks: seq<seq<Byte>>, left: seq<seq<Byte>>, left': seq<seq<Byte>>)
    requires LastOf(left, chunks) && LastOf(left', left)
    ensures |left'| <= |left| <= |chunks|
    ensures |left'| < |left| ==> left[|left| - |left'| - 1] == chunks[|chunks| - |left'| - 1]
  {
  }

  lemma ArrivedOne(buffered: nat, chunks: seq<seq<Byte>>, q: nat)
    requires q < |chunks|
    ensures Arrived(buffered, chunks, q + 1) == Arrived(buffered, chunks, q) + |chunks[q]|
  {
  }

  // ---- round trip ----

  function EncodeAll(bodies: seq<seq<Byte>>): seq<Byte>
    requires forall b :: b in bodies ==> |b| < 0x1_0000_0000
  {
    if bodies == [] then [] else EncodeFrame(bodies[0]) + EncodeAll(bodies[1..])
  }

  lemma FourBytesRange()
    ensures Pow256(4) == 0x1_0000_0000
  {
    assert Pow256(2) == 65536 && Pow256(3) == 65536 * 256;
  }

  lemma DecodeEncoded<F>(loads: seq<Byte> -> Option<F>, body: seq<Byte>, rest: seq<Byte>)
    requires 1 <= |body| <= MAX_BODY
    ensures DecodeFrame(loads, EncodeFrame(body) + rest) == (loads(body), rest)
  {
    FourBytesRange();
    BERoundTrip(|body|, 4);
    var s := EncodeFrame(body) + rest;
    assert s[..4] == ToBE(|body|, 4);
    assert s[4..4 + |body|] == body && s[4 + |body|..] == rest;
  }

  /** One more call at the front instead of at the end. */
  lemma {:induction false} DecodeManyFront<F>(loads: seq<Byte> -> Option<F>, stream: seq<Byte>, n: nat)
    ensures var (first, rest) := DecodeFrame(loads, stream);
            DecodeMany(loads, stream, n + 1) ==
            ([first] + DecodeMany(loads, rest, n).0, DecodeMany(loads, rest, n).1)
  {
    hide DecodeFrame;
    var (first, rest) := DecodeFrame(loads, stream);
    if n == 0 {
      assert DecodeMany(loads, stream, 0) == ([], stream);
      assert [] + [first] == [first] + [];
    } else {
      DecodeManyFront(loads, stream, n - 1);
      var (results, left) := DecodeMany(loads, rest, n - 1);
      assert ([first] + results) + [DecodeFrame(loads, left).0] == [first] + (results + [DecodeFrame(loads, left).0]);
    }
  }

  /** A length of 0 or above 2 MiB is refused, and reading goes on right behind the header. */
  lemma BadLengthIsSkipped<F>(loads: seq<Byte> -> Option<F>, length: nat, rest: seq<Byte>)
    requires length < 0x1_0000_0000 && (length == 0 || length > 2_097_152)
    ensures DecodeFrame(loads, ToBE(length, 4) + rest) == (None, rest)
  {
    FourBytesRange();
    BERoundTrip(length, 4);
    var s := ToBE(length, 4) + rest;
    assert s[..4] == ToBE(length, 4) && s[4..] == rest;
  }

  /** A stream that ends inside a frame yields nothing and is used up. */
  lemma TruncatedIsDropped<F>(loads: seq<Byte> -> Option<F>, body: seq<Byte>, n: nat)
    requires 1 <= |body| <= 2_097_152 && n < 4 + |body|
    ensures DecodeFrame(loads, EncodeFrame(body)[..n]) == (None, [])
  {
    FourBytesRange();
    BERoundTrip(|body|, 4);
    if n >= 4 {
      assert EncodeFrame(body)[..n][..4] == ToBE(|body|, 4);
    }
  }

  /** The header is the length of the body, its most significant byte first. */
  lemma HeaderIsBigEndian(body: seq<Byte>)
    requires |body| < 0x1_0000_0000
    ensures var f := EncodeFrame(body); f[4..] == body && |body| == Base256(f[0], f[1], f[2], f[3])
  {
    FourBytesRange();
    BERoundTrip(|body|, 4);
    FourBytesWord(ToBE(|body|, 4));
  }

  /** Round trip: frames with bodies of 1 byte to 2 MiB, written one after the other, are read back one
      after the other, and what follows them is untouched. */
  lemma {:induction false} RoundTrip<F>(loads: seq<Byte> -> Option<F>, bodies: seq<seq<Byte>>, rest: seq<Byte>)
    requires forall b :: b in bodies ==> 1 <= |b| <= MAX_BODY
    ensures DecodeMany(loads, EncodeAll(bodies) + rest, |bodies|) ==
            (Loaded(loads, bodies), rest)
  {
    hide DecodeFrame, EncodeFrame, Pow256, DecodeMany, Loaded, EncodeAll;
    if bodies == [] {
      NoCalls(loads, rest);
    } else {
      var tail := EncodeAll(bodies[1..]) + rest;
      EncodeFirst(bodies, rest);
      DecodeEncoded(loads, bodies[0], tail);
      DecodeManyFront(loads, EncodeFrame(bodies[0]) + tail, |bodies| - 1);
      RoundTrip(loads, bodies[1..], rest);
      LoadedFirst(loads, bodies);
    }
  }

  lemma EncodeFirst(bodies: seq<seq<Byte>>, rest: seq<Byte>)
    requires bodies != [] && forall b :: b in bodies ==> |b| < 0x1_0000_0000
    ensures EncodeAll(bodies) + rest == EncodeFrame(bodies[0]) + (EncodeAll(bodies[1..]) + rest)
  {
    hide EncodeFrame;
  }

  lemma LoadedFirst<F>(loads: seq<Byte> -> Option<F>, bodies: seq<seq<Byte>>)
    requires bodies != []
    ensures Loaded(loads, bodies) == [loads(bodies[0])] + Loaded(loads, bodies[1..])
  {
  }

  function Loaded<F>(loads: seq<Byte> -> Option<F>, bodies: seq<seq<Byte>>): seq<Option<F>> {
    seq(|bodies|, i requires 0 <= i < |bodies| => loads(bodies[i]))
  }

  lemma NoCalls<F>(loads: seq<Byte> -> Option<F>, stream: seq<Byte>)
    ensures DecodeMany(loads, EncodeAll([]) + stream, 0) == (Loaded(loads, []), stream)
  {
    assert EncodeAll([]) + stream == stream;
    assert Loaded(loads, []) == [];
  }

  method ReadTwo<F>(loads: seq<Byte> -> Option<F>, a: seq<Byte>, b: seq<Byte>) returns (o: Outcome<F>)
    requires 0 < |a| < 4 && b != []
    ensures o.Raised?
  {
    hide DecodeFrame, Join, LastOf, Frugal;
    var reader := new BufferedFrameReader(loads, [a, b]);
    o := reader.ReadFrame();
  }

  /** The shipped reader fails on every frame whose header arrives in two reads, wherever it is split,
      although the simple decoder finds the frame. */
  method SplitHeaderFails<F>(loads: seq<Byte> -> Option<F>, body: seq<Byte>, split: nat) returns (o: Outcome<F>)
    requires 1 <= |body| <= MAX_BODY && 0 < split < 4
    ensures o.Raised?
    ensures var frame := EncodeFrame(body);
            DecodeFrame(loads, Join([frame[..split], frame[split..]])) == (loads(body), [])
  {
    var frame := EncodeFrame(body);
    assert |frame| == 4 + |body|;
    hide DecodeFrame, EncodeFrame, Join, FromBE, ToBE, LastOf, Frugal;
    o := ReadTwo(loads, frame[..split], frame[split..]);
    JoinTwo(frame[..split], frame[split..]);
    assert frame[..split] + frame[split..] == frame + [];
    DecodeEncoded(loads, body, []);
  }

  lemma JoinTwo(a: seq<Byte>, b: seq<Byte>)
    ensures Join([a, b]) == a + b
  {
    assert [a, b][1..] == [b] && [b][1..] == [];
    assert Join([b]) == b + Join([]) == b;
  }
}
