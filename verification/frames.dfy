/**
  Reading transaction frames off a byte stream. A reader takes exactly 20 header bytes,
  then exactly `body_len` body bytes, and parses the body from that buffer alone. The
  stream is modelled as the sequence of bytes still to arrive; a read past its end is
  an I/O error that leaves the stream exhausted.
*/
module Frames {
  import opened Wrappers
  import opened Wire
  import opened Protocol
  import opened Transactions

  /** What one read produced and the stream that remains after it. */
  datatype Step = Step(result: Result<TransactionFrame, ProtocolError>, rest: Bytes)

  /** The header bytes a stream with at least 20 bytes starts with, decoded. */
  function HeaderOf(s: Bytes): TransactionHeader
    requires |s| >= HeaderSize
  {
    DecodeHeader(s[..HeaderSize]).value.value
  }

  /** Whether the stream holds a whole header and the whole body it announces. */
  predicate Complete(s: Bytes)
  {
    |s| >= HeaderSize && BodyLen(HeaderOf(s)) <= |s| - HeaderSize
  }

  /** The body buffer of a complete stream. */
  function BodyBytes(s: Bytes): Bytes
    requires Complete(s)
  {
    s[HeaderSize..HeaderSize + BodyLen(HeaderOf(s))]
  }

  /** `next_frame` (and `Connection::read_frame`, which has the same shape). */
  function NextFrame(s: Bytes): (r: Step)
    ensures r.result != Err(ParseHeader)
    ensures r.result == Err(Io) <==> !Complete(s)
    ensures r.result == Err(Io) ==> r.rest == []
    ensures Complete(s) ==> r.rest == s[HeaderSize + BodyLen(HeaderOf(s))..]
    ensures Complete(s) ==> (r.result == Err(ParseBody) <==> DecodeBody(BodyBytes(s)).Err?)
    ensures r.result.Ok? ==> EncodeHeader(r.result.value.header) == s[..HeaderSize]
    ensures r.result.Ok? ==> r.result.value.body == DecodeBody(BodyBytes(s)).value.value
  {
    if |s| < HeaderSize then Step(Err(Io), [])
    else
      var after := s[HeaderSize..];
      match DecodeHeader(s[..HeaderSize])
      case Err(_) => Step(Err(ParseHeader), after)
      case Ok(h) =>
        assert h.value == HeaderOf(s);
        var n := BodyLen(h.value);
        if |after| < n then Step(Err(Io), [])
        else
          assert s[HeaderSize..HeaderSize + n] == BodyBytes(s);
          match DecodeBody(s[HeaderSize..HeaderSize + n])
          case Ok(b) => Step(Ok(TransactionFrame(h.value, b.value)), s[HeaderSize + n..])
          case Err(_) => Step(Err(ParseBody), s[HeaderSize + n..])
  }

  /** The first k items of the endless `frames` stream: `next_frame` again and again, errors included. */
  function FrameStream(s: Bytes, k: nat): (r: seq<Result<TransactionFrame, ProtocolError>>)
    ensures |r| == k
    ensures k > 0 ==> r[0] == NextFrame(s).result
  {
    Iterate(NextFrame, s, k)
  }

  /** The first k results of applying a reader again and again to what it leaves. */
  function Iterate(next: Bytes -> Step, s: Bytes, k: nat): (r: seq<Result<TransactionFrame, ProtocolError>>)
    ensures |r| == k
    ensures k > 0 ==> r[0] == next(s).result
    decreases k
  {
    if k == 0 then []
    else
      var st := next(s);
      [st.result] + Iterate(next, st.rest, k - 1)
  }

  /** A reader that fails with an I/O error exactly when it has nothing more to give. */
  ghost predicate StaysEnded(next: Bytes -> Step)
  {
    next([]) == Step(Err(Io), []) && forall t :: next(t).result == Err(Io) ==> next(t).rest == []
  }

  /** Once the stream has ended, every later item is the same I/O error. */
  lemma StreamStaysEnded(s: Bytes, k: nat, i: nat, j: nat)
    requires i < j < k && FrameStream(s, k)[i] == Err(Io)
    ensures FrameStream(s, k)[j] == Err(Io)
  {
    IterateStaysEnded(NextFrame, s, k, i, j);
  }

  lemma {:induction false} IterateStaysEnded(next: Bytes -> Step, s: Bytes, k: nat, i: nat, j: nat)
    requires StaysEnded(next)
    requires i < j < k && Iterate(next, s, k)[i] == Err(Io)
    ensures Iterate(next, s, k)[j] == Err(Io)
    decreases k
  {
    var st := next(s);
    var tail := Iterate(next, st.rest, k - 1);
    assert Iterate(next, s, k) == [st.result] + tail;
    if i == 0 {
      assert st.rest == [];
      IterateEnded(next, st.rest, k - 1, j - 1);
    } else {
      assert tail[i - 1] == Err(Io);
      IterateStaysEnded(next, st.rest, k - 1, i - 1, j - 1);
    }
    assert Iterate(next, s, k)[j] == tail[j - 1];
  }

  lemma {:induction false} IterateEnded(next: Bytes -> Step, s: Bytes, k: nat, j: nat)
    requires StaysEnded(next)
    requires s == [] && j < k
    ensures Iterate(next, s, k)[j] == Err(Io)
    decreases k
  {
    if j > 0 {
      IterateEnded(next, next(s).rest, k - 1, j - 1);
    }
  }

  /**
    A frame as written by `write_frame` (its encoding, with both size fields set to the
    body length) is read back whole, and the following bytes stay in the stream.
  */
  lemma WriteThenRead(f: TransactionFrame, rest: Bytes)
    requires Encodable(f.body) && |EncodeBody(f.body)| < 0x8000_0000
    ensures NextFrame(EncodeFrame(f) + rest) == Step(Ok(Sized(f)), rest)
  {
    var s := EncodeFrame(f) + rest;
    var h := Sized(f).header;
    var body := EncodeBody(f.body);
    assert s[..HeaderSize] == EncodeHeader(h) && s[HeaderSize..] == body + rest;
    HeaderOfEncoded(h, s);
    assert BodyLen(h) == |body|;
    SplitBody(s[HeaderSize..], body, rest);
    DecodeExactBody(f.body);
    assert s[HeaderSize..HeaderSize + |body|] == body;
    assert s[HeaderSize + |body|..] == rest;
  }

  /** A stream that starts with an encoded header yields that header. */
  lemma HeaderOfEncoded(h: TransactionHeader, s: Bytes)
    requires |s| >= HeaderSize && s[..HeaderSize] == EncodeHeader(h)
    ensures HeaderOf(s) == h
  {
    DecodeEncodeHeader(h, []);
    assert EncodeHeader(h) + [] == EncodeHeader(h);
  }

  lemma SplitBody(t: Bytes, body: Bytes, rest: Bytes)
    requires t == body + rest
    ensures t[..|body|] == body && t[|body|..] == rest
  {
  }

  /** An encoded body on its own decodes to itself with nothing left. */
  lemma DecodeExactBody(b: TransactionBody)
    requires Encodable(b)
    ensures DecodeBody(EncodeBody(b)) == Ok(Parsed(b, []))
  {
    DecodeEncodeBody(b, []);
    assert EncodeBody(b) + [] == EncodeBody(b);
  }
}
