/**
 NVMe/TCP framing: cutting the byte stream of a connection into PDUs out of a fixed receive buffer.
 How TCP cuts the stream into segments makes no difference.
 */
module TcpFramer {
  import opened Common

  newtype Byte = x: int | 0 <= x < 256

  const BUFFER_SIZE: nat := 65536
  const HEADER_SIZE: nat := 8
  const ICREQ_SIZE: nat := 128
  const PDU_ICREQ: Byte := 0

  /** One dispatched PDU: its type, the bytes it spans, how many were removed, and the data length handed on. */
  datatype Frame = Frame(kind: Byte, pdu: seq<Byte>, consumed: nat, dataLen: nat)

  /** The total length field, little endian in bytes 4 to 7. */
  function Plen(s: seq<Byte>): nat
    requires HEADER_SIZE <= |s|
  {
    s[4] as int + 256 * s[5] as int + 65536 * s[6] as int + 16777216 * s[7] as int
  }

  /** The four bytes of a 32-bit length, lowest first. */
  function LengthBytes(n: nat): (r: seq<Byte>)
    requires n < 0x1_0000_0000
    ensures |r| == 4
    ensures r[0] as int + 256 * r[1] as int + 65536 * r[2] as int + 16777216 * r[3] as int == n
  {
    var q1 := n / 256;
    var q2 := q1 / 256;
    [(n % 256) as Byte, (q1 % 256) as Byte, (q2 % 256) as Byte, (q2 / 256) as Byte]
  }

  /** A header that announces a length is read as announcing that length, whatever comes before and behind. */
  lemma PlenReadsBack(front: seq<Byte>, n: nat, behind: seq<Byte>)
    requires |front| == 4 && n < 0x1_0000_0000
    ensures Plen(front + LengthBytes(n) + behind) == n
  {
    hide LengthBytes;
    var s, b := front + LengthBytes(n) + behind, LengthBytes(n);
    assert s[4] == b[0] && s[5] == b[1] && s[6] == b[2] && s[7] == b[3];
  }

  function FrameAt(s: seq<Byte>): (f: Frame)
    requires HEADER_SIZE <= |s| && Plen(s) <= |s|
    ensures f.consumed <= Plen(s) && (0 < Plen(s) ==> 0 < f.consumed)
  {
    var plen := Plen(s);
    var pdo := s[3] as int;
    Frame(s[0], s[..plen],
          if s[0] == PDU_ICREQ && ICREQ_SIZE < plen then ICREQ_SIZE else plen,
          if pdo < plen then plen - pdo else 0)
  }

  /**
   What a run of the parsing loop over the bytes `s` yields: frames, bytes left over, whether a length was invalid.
   */
  datatype Parsed = Parsed(frames: seq<Frame>, rest: seq<Byte>, failed: bool)

  function Parse(s: seq<Byte>): (r: Parsed)
    ensures |r.rest| <= |s|
    decreases |s|
  {
    if |s| < HEADER_SIZE then Parsed([], s, false)
    else if Plen(s) == 0 || BUFFER_SIZE < Plen(s) then Parsed([], s, true)
    else if |s| < Plen(s) then Parsed([], s, false)
    else
      var f := FrameAt(s);
      var r := Parse(s[f.consumed..]);
      r.(frames := [f] + r.frames)
  }

  /**
   Parsing can be interrupted anywhere: what is left over, with more bytes behind it, parses to the remaining frames.
   */
  lemma {:induction false} ParseSplit(s: seq<Byte>, t: seq<Byte>)
    ensures var a := Parse(s);
            if a.failed then Parse(s + t).frames == a.frames && Parse(s + t).failed
            else var b := Parse(a.rest + t);
                 Parse(s + t) == b.(frames := a.frames + b.frames)
    decreases |s|
  {
    hide Plen, FrameAt;
    var a := Parse(s);
    if HEADER_SIZE <= |s| { StartSame(s, t); }
    if HEADER_SIZE <= |s| && 0 < Plen(s) <= BUFFER_SIZE && Plen(s) <= |s| {
      var f := FrameAt(s);
      ParseSplit(s[f.consumed..], t);
      if !a.failed {
        var b := Parse(a.rest + t);
        assert [f] + (Parse(s[f.consumed..]).frames + b.frames) == a.frames + b.frames;
      }
    } else if !a.failed {
      assert a.frames + Parse(s + t).frames == Parse(s + t).frames;
    }
  }

  lemma StartSame(s: seq<Byte>, t: seq<Byte>)
    requires HEADER_SIZE <= |s|
    ensures Plen(s + t) == Plen(s)
    ensures Plen(s) <= |s| ==> FrameAt(s + t) == FrameAt(s)
                               && (s + t)[FrameAt(s).consumed..] == s[FrameAt(s).consumed..] + t
  {
    if Plen(s) <= |s| { assert (s + t)[..Plen(s)] == s[..Plen(s)]; }
  }

  /** After a call that does not fail, the buffer has room for at least one more byte. */
  lemma {:induction false} RoomLeft(s: seq<Byte>)
    ensures !Parse(s).failed ==> |Parse(s).rest| < BUFFER_SIZE
    decreases |s|
  {
    if HEADER_SIZE <= |s| && 0 < Plen(s) <= BUFFER_SIZE && Plen(s) <= |s| {
      RoomLeft(s[FrameAt(s).consumed..]);
    }
  }

  // ---- connections

  /** The connection after receiving the segments one by one, starting with `buffered` bytes; it stops at a failure. */
  function Receive(buffered: seq<Byte>, segments: seq<seq<Byte>>): Parsed
    decreases segments
  {
    if segments == [] then Parsed([], buffered, false)
    else
      var a := Parse(buffered + segments[0]);
      if a.failed then a
      else
        var b := Receive(a.rest, segments[1..]);
        b.(frames := a.frames + b.frames)
  }

  function Concat(segments: seq<seq<Byte>>): seq<Byte> {
    if segments == [] then [] else segments[0] + Concat(segments[1..])
  }

  /** Receiving segment by segment dispatches exactly the frames of the whole stream. */
  lemma {:induction false} ReceiveIsParse(buffered: seq<Byte>, segments: seq<seq<Byte>>)
    requires Parse(buffered) == Parsed([], buffered, false)
    ensures Receive(buffered, segments).frames == Parse(buffered + Concat(segments)).frames
    ensures Receive(buffered, segments).failed == Parse(buffered + Concat(segments)).failed
    ensures !Receive(buffered, segments).failed ==>
              Receive(buffered, segments).rest == Parse(buffered + Concat(segments)).rest
    decreases segments
  {
    if segments == [] {
      assert buffered + Concat(segments) == buffered;
    } else {
      var s, t := buffered + segments[0], Concat(segments[1..]);
      assert buffered + Concat(segments) == s + t;
      ParseSplit(s, t);
      var a := Parse(s);
      if !a.failed {
        RestIsStuck(s);
        ReceiveIsParse(a.rest, segments[1..]);
      }
    }
  }

  /** Left-over bytes hold no complete frame. */
  lemma {:induction false} RestIsStuck(s: seq<Byte>)
    requires !Parse(s).failed
    ensures Parse(Parse(s).rest) == Parsed([], Parse(s).rest, false)
    decreases |s|
  {
    if HEADER_SIZE <= |s| && 0 < Plen(s) <= BUFFER_SIZE && Plen(s) <= |s| {
      RestIsStuck(s[FrameAt(s).consumed..]);
    }
  }

  /** Two ways of cutting the same stream into segments give the same frames, the same failure, the same left-over. */
  lemma SegmentationIrrelevant(a: seq<seq<Byte>>, b: seq<seq<Byte>>)
    requires Concat(a) == Concat(b)
    ensures Receive([], a).frames == Receive([], b).frames
    ensures Receive([], a).failed == Receive([], b).failed
    ensures !Receive([], a).failed ==> Receive([], a).rest == Receive([], b).rest
  {
    ReceiveIsParse([], a);
    ReceiveIsParse([], b);
  }

  /** The frames of a stream that parses are, in order, its bytes: nothing dropped, nothing twice. */
  function Spanned(frames: seq<Frame>): seq<Byte> {
    if frames == [] then []
    else
      var f := frames[0];
      (if f.consumed <= |f.pdu| then f.pdu[..f.consumed] else []) + Spanned(frames[1..])
  }

  lemma {:induction false} FramesCoverStream(s: seq<Byte>)
    ensures Spanned(Parse(s).frames) + Parse(s).rest == s
    decreases |s|
  {
    hide Plen, FrameAt;
    if HEADER_SIZE <= |s| && 0 < Plen(s) <= BUFFER_SIZE && Plen(s) <= |s| {
      FramesCoverStream(s[FrameAt(s).consumed..]);
      CoverStep(s);
    }
  }

  lemma CoverStep(s: seq<Byte>)
    requires HEADER_SIZE <= |s| && 0 < Plen(s) <= BUFFER_SIZE && Plen(s) <= |s|
    requires var r := Parse(s[FrameAt(s).consumed..]); Spanned(r.frames) + r.rest == s[FrameAt(s).consumed..]
    ensures Spanned(Parse(s).frames) + Parse(s).rest == s
  {
    hide *;
    var k := FrameAt(s).consumed;
    var r := Parse(s[k..]);
    FrameIsPrefix(s);
    ParseCons(s);
    SpannedCons(FrameAt(s), r.frames);
    Regroup(s[..k], Spanned(r.frames), r.rest);
    assert s == s[..k] + s[k..];
  }

  lemma Regroup(a: seq<Byte>, b: seq<Byte>, c: seq<Byte>)
    ensures (a + b) + c == a + (b + c)
  {
  }

  lemma ParseCons(s: seq<Byte>)
    requires HEADER_SIZE <= |s| && 0 < Plen(s) <= BUFFER_SIZE && Plen(s) <= |s|
    ensures var f := FrameAt(s);
            f.consumed <= |s| && Parse(s) == var r := Parse(s[f.consumed..]); r.(frames := [f] + r.frames)
  {
    hide Plen, FrameAt;
  }

  lemma FrameIsPrefix(s: seq<Byte>)
    requires HEADER_SIZE <= |s| && Plen(s) <= |s|
    ensures var f := FrameAt(s); f.consumed <= |f.pdu| && f.pdu[..f.consumed] == s[..f.consumed]
  {
  }

  lemma SpannedCons(f: Frame, rest: seq<Frame>)
    requires f.consumed <= |f.pdu|
    ensures Spanned([f] + rest) == f.pdu[..f.consumed] + Spanned(rest)
  {
    assert ([f] + rest)[1..] == rest;
  }

  // ---- what is dispatched, in terms of the bytes

  /** Where frame `i` starts in the stream. */
  function Offset(frames: seq<Frame>, i: nat): nat
    requires i <= |frames|
  {
    if i == 0 then 0 else frames[0].consumed + Offset(frames[1..], i - 1)
  }

  /**
   `f` is what the stream `s` says at offset `at`: the type in the first byte, the data offset in the fourth, the total
   length in the next four, lowest byte first.  Of a connection request no more than 128 bytes are removed.
   */
  ghost predicate StandsAt(s: seq<Byte>, at: nat, f: Frame) {
    && at + 8 <= |s|
    && var plen := s[at + 4] as int + 0x100 * s[at + 5] as int + 0x1_0000 * s[at + 6] as int
                   + 0x100_0000 * s[at + 7] as int;
       && 0 < plen <= 65536 && at + plen <= |s|
       && f.kind == s[at] && f.pdu == s[at..at + plen]
       && f.consumed == (if s[at] == 0 && 128 < plen then 128 else plen)
       && f.dataLen == if s[at + 3] as int < plen then plen - s[at + 3] as int else 0
  }

  lemma FirstStands(s: seq<Byte>)
    requires HEADER_SIZE <= |s| && 0 < Plen(s) <= BUFFER_SIZE && Plen(s) <= |s|
    ensures StandsAt(s, 0, FrameAt(s))
  {
  }

  lemma StandsLater(s: seq<Byte>, k: nat, at: nat, f: Frame)
    requires k <= |s| && StandsAt(s[k..], at, f)
    ensures StandsAt(s, k + at, f)
  {
    var t := s[k..];
    assert t[at] == s[k + at] && t[at + 3] == s[k + at + 3];
    assert t[at + 4] == s[k + at + 4] && t[at + 5] == s[k + at + 5];
    assert t[at + 6] == s[k + at + 6] && t[at + 7] == s[k + at + 7];
    assert t[at..at + |f.pdu|] == s[k + at..k + at + |f.pdu|];
  }

  lemma ParsesSome(s: seq<Byte>)
    requires Parse(s).frames != []
    ensures HEADER_SIZE <= |s| && 0 < Plen(s) <= BUFFER_SIZE && Plen(s) <= |s|
  {
    hide Plen, FrameAt;
  }

  /** Every frame dispatched is what the stream says at its place. */
  lemma {:induction false} FramesStand(s: seq<Byte>, i: nat)
    requires i < |Parse(s).frames|
    ensures StandsAt(s, Offset(Parse(s).frames, i), Parse(s).frames[i])
    decreases |s|
  {
    hide Plen, FrameAt, StandsAt, Parse;
    ParsesSome(s);
    ParseCons(s);
    var f := FrameAt(s);
    FirstStands(s);
    if 0 < i {
      assert Parse(s).frames[1..] == Parse(s[f.consumed..]).frames;
      FramesStand(s[f.consumed..], i - 1);
      StandsLater(s, f.consumed, Offset(Parse(s[f.consumed..]).frames, i - 1), Parse(s).frames[i]);
    }
  }

  // ---- and what a sender can rely on

  /** A PDU as the other side puts it together. */
  datatype Pdu = Pdu(kind: Byte, flags: Byte, hlen: Byte, pdo: Byte, body: seq<Byte>)
  {
    /** It fits the receive buffer. */
    predicate Fits() { 8 + |body| <= 65536 }

    function Bytes(): (s: seq<Byte>)
      requires Fits()
      ensures |s| == 8 + |body|
    {
      [kind, flags, hlen, pdo] + LengthBytes(8 + |body|) + body
    }

    /** A connection request is not longer than the receiver takes it to be. */
    predicate Whole() { kind == 0 ==> 8 + |body| <= 128 }

    /** How it is dispatched. */
    function Received(): Frame
      requires Fits()
    {
      Frame(kind, Bytes(), if Whole() then 8 + |body| else 128,
            if pdo as int < 8 + |body| then 8 + |body| - pdo as int else 0)
    }
  }

  function Stream(ps: seq<Pdu>): seq<Byte>
    requires forall i :: 0 <= i < |ps| ==> ps[i].Fits()
  {
    if ps == [] then [] else ps[0].Bytes() + Stream(ps[1..])
  }

  /** A PDU at the front of the stream is dispatched as what it is; an over-long connection request is cut. */
  lemma PduParses(p: Pdu, tail: seq<Byte>)
    requires p.Fits()
    ensures var s := p.Bytes() + tail;
            var f := p.Received();
            f.consumed <= |s| && Parse(s) == var r := Parse(s[f.consumed..]); r.(frames := [f] + r.frames)
  {
    hide LengthBytes;
    var s := p.Bytes() + tail;
    PlenReadsBack([p.kind, p.flags, p.hlen, p.pdo], 8 + |p.body|, p.body + tail);
    assert s == [p.kind, p.flags, p.hlen, p.pdo] + LengthBytes(8 + |p.body|) + (p.body + tail);
    assert s[..8 + |p.body|] == p.Bytes();
    ParseCons(s);
  }

  /** How a list of PDUs is dispatched. */
  function AllReceived(ps: seq<Pdu>): (r: seq<Frame>)
    requires forall i :: 0 <= i < |ps| ==> ps[i].Fits()
    ensures |r| == |ps| && forall i :: 0 <= i < |ps| ==> r[i] == ps[i].Received()
  {
    if ps == [] then [] else [ps[0].Received()] + AllReceived(ps[1..])
  }

  /**
   Round trip: a stream put together from PDUs, no connection request of which is over-long, is dispatched as exactly
   these PDUs with their types and data lengths, in order, and then as whatever follows.
   */
  lemma {:induction false} StreamParses(ps: seq<Pdu>, tail: seq<Byte>)
    requires forall i :: 0 <= i < |ps| ==> ps[i].Fits() && ps[i].Whole()
    ensures Parse(Stream(ps) + tail) == var r := Parse(tail); r.(frames := AllReceived(ps) + r.frames)
    decreases ps
  {
    hide Parse, Pdu.Received, Pdu.Bytes;
    var r := Parse(tail);
    if ps == [] {
      assert Stream(ps) + tail == tail;
    } else {
      var rest := Stream(ps[1..]) + tail;
      assert Stream(ps) + tail == ps[0].Bytes() + rest;
      WholeParses(ps[0], rest);
      StreamParses(ps[1..], tail);
      assert [ps[0].Received()] + (AllReceived(ps[1..]) + r.frames) == AllReceived(ps) + r.frames;
    }
  }

  lemma WholeParses(p: Pdu, tail: seq<Byte>)
    requires p.Fits() && p.Whole()
    ensures Parse(p.Bytes() + tail) == var r := Parse(tail); r.(frames := [p.Received()] + r.frames)
  {
    hide Parse;
    PduParses(p, tail);
    assert (p.Bytes() + tail)[|p.Bytes()|..] == tail;
  }

  // ---- the connection in place

  class Connection {
    const buffer: array<Byte>
    var len: nat

    ghost predicate Valid()
      reads this, buffer
    {
      buffer.Length == BUFFER_SIZE && len <= BUFFER_SIZE
    }

    ghost function Buffered(): seq<Byte>
      requires Valid()
      reads this, buffer
    {
      buffer[..len]
    }

    constructor ()
      ensures Valid() && fresh(buffer) && Buffered() == []
    {
      buffer := new Byte[BUFFER_SIZE](_ => 0);
      len := 0;
    }

    /** Removing the first `k` bytes. */
    method Compact(k: nat)
      requires Valid() && k <= len
      modifies this, buffer
      ensures Valid() && Buffered() == old(Buffered())[k..]
    {
      var left := len - k;
      len := left;
      for i := 0 to left
        invariant len == left
        invariant forall j :: 0 <= j < i ==> buffer[j] == old(buffer[k + j])
        invariant forall j :: i <= j < buffer.Length ==> buffer[j] == old(buffer[j])
      {
        buffer[i] := buffer[k + i];
      }
    }

    /** nvme_tcp_process_pdu with the bytes recv delivered: append, then dispatch every complete PDU. */
    method ProcessPdu(received: seq<Byte>) returns (code: RetCode, frames: seq<Frame>)
      requires Valid() && 0 < |received| <= BUFFER_SIZE - len
      modifies this, buffer
      ensures Valid()
      ensures var p := Parse(old(Buffered()) + received);
              frames == p.frames && code == (if p.failed then Internal else Ok) && Buffered() == p.rest
      ensures code == Ok ==> len < BUFFER_SIZE
    {
      hide Plen, FrameAt;
      ghost var stream := Buffered() + received;
      for i := 0 to |received|
        invariant Valid() && len == old(len) && buffer[..len + i] == old(Buffered()) + received[..i]
      {
        buffer[len + i] := received[i];
      }
      len := len + |received|;
      frames := [];
      assert Buffered() == stream;
      RoomLeft(stream);
      while HEADER_SIZE <= len
        invariant Valid()
        invariant Parse(stream) == var r := Parse(Buffered()); r.(frames := frames + r.frames)
        decreases len
      {
        var s := buffer[..len];
        var plen := Plen(s);
        if plen == 0 || BUFFER_SIZE < plen { return Internal, frames; }
        if len < plen { break; }
        var f := FrameAt(s);
        assert frames + ([f] + Parse(s[f.consumed..]).frames) == (frames + [f]) + Parse(s[f.consumed..]).frames;
        frames := frames + [f];
        Compact(f.consumed);
      }
      code := Ok;
    }
  }
}
