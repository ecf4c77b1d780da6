/**
 Framing: how a stream of bytes falls apart into messages, for every way of cutting it into short
 writes and short reads.
 */
module Stream {
  import opened Bytes

  type Frame = seq<byte>

  /** How many bytes the reader wants in all, once it has `part`. */
  function Need(part: seq<byte>): nat {
    if |part| < HEAD_LEN then HEAD_LEN else Low32(HEAD_LEN + U32At(part, 12))
  }

  predicate Complete(part: seq<byte>) { HEAD_LEN <= |part| && |part| == Need(part) }

  /** A message as it is sent: header, then as many bytes as the fourth header word says. */
  predicate WfFrame(f: Frame) { HEAD_LEN <= |f| && |f| == HEAD_LEN + U32At(f, 12) < TWO_32 }

  function Flat(fs: seq<Frame>): seq<byte> {
    if fs == [] then [] else fs[0] + Flat(fs[1..])
  }

  ghost predicate WfFrames(fs: seq<Frame>) { forall i :: 0 <= i < |fs| ==> WfFrame(fs[i]) }

  lemma {:induction false} FlatConcat(a: seq<Frame>, b: seq<Frame>)
    ensures Flat(a + b) == Flat(a) + Flat(b)
  {
    if a == [] {
      assert a + b == b;
    } else {
      assert (a + b)[1..] == a[1..] + b;
      FlatConcat(a[1..], b);
    }
  }

  lemma FlatOne(f: Frame)
    ensures Flat([f]) == f
  {
    assert [f][1..] == [];
  }

  /** Two frames at the front of the same stream are the same frame. */
  lemma SameFront(f: Frame, x: seq<byte>, g: Frame, y: seq<byte>)
    requires WfFrame(f) && WfFrame(g) && f + x == g + y
    ensures f == g && x == y
  {
    var s := f + x;
    assert forall k :: 0 <= k < |f| ==> f[k] == s[k];
    assert forall k :: 0 <= k < |g| ==> g[k] == s[k];
    assert f == s[..|f|] && g == s[..|g|] && x == s[|f|..] && y == s[|g|..];
  }

  /** Frames that a stream starts with are the frames it was made of. */
  lemma {:induction false} Reassembled(pushed: seq<Frame>, got: seq<Frame>, rest: seq<byte>)
    requires WfFrames(pushed) && WfFrames(got) && Flat(pushed) == Flat(got) + rest
    ensures got <= pushed && rest == Flat(pushed[|got|..])
  {
    if got == [] {
      assert pushed[0..] == pushed;
    } else {
      var f, x := got[0], Flat(got[1..]) + rest;
      assert Flat(got) + rest == f + x;
      assert WfFrame(f);
      assert |f + x| > 0;
      assert pushed != [];
      SameFront(pushed[0], Flat(pushed[1..]), f, x);
      Reassembled(pushed[1..], got[1..], rest);
      assert pushed == [pushed[0]] + pushed[1..] && got == [f] + got[1..];
      assert pushed[1..][|got[1..]|..] == pushed[|got|..];
    }
  }

  // ---------------------------------------------------------------- the two ends

  /** The sending end: its queue, and how much of the first message has gone out. */
  datatype Writer = Writer(queue: seq<Frame>, sent: nat)

  ghost predicate WfWriter(w: Writer) {
    && WfFrames(w.queue)
    && (if w.queue == [] then w.sent == 0 else w.sent < |w.queue[0]|)
  }

  ghost function Pending(w: Writer): seq<byte>
    requires WfWriter(w)
  {
    Flat(w.queue)[w.sent..]
  }

  /** The receiving end: the messages completed so far, and the bytes of the next one. */
  datatype Reader = Reader(got: seq<Frame>, part: seq<byte>)

  /** The reader looks at the length as soon as it has a header, and never reads past it. */
  ghost predicate WfReader(r: Reader) { WfFrames(r.got) && Unfinished(r.part) }

  predicate Unfinished(part: seq<byte>) {
    !Complete(part) && (|part| <= HEAD_LEN || |part| < Need(part))
  }

  /** One run of the output callback: some pending bytes move to the wire, in order. */
  ghost predicate WriteStep(w: Writer, w': Writer, chunk: seq<byte>) {
    && WfWriter(w) && WfWriter(w')
    && |w'.queue| <= |w.queue| && w'.queue == w.queue[|w.queue| - |w'.queue|..]
    && chunk + Pending(w') == Pending(w)
  }

  /** One run of the input callback: `chunk` is taken off the wire and some messages complete. */
  ghost predicate ReadStep(r: Reader, r': Reader, chunk: seq<byte>) {
    && WfReader(r) && WfReader(r')
    && r.got <= r'.got
    && r.part + chunk == Flat(r'.got[|r.got|..]) + r'.part
  }

  /** A message joins the end of the queue. */
  function Pushed(w: Writer, f: Frame): Writer {
    w.(queue := w.queue + [f])
  }

  lemma HeadUnsent(w: Writer)
    requires WfWriter(w) && w.queue != []
    ensures w.sent < |w.queue[0]|
  {
  }

  lemma WriteStepEnds(w: Writer, w': Writer, chunk: seq<byte>)
    requires WriteStep(w, w', chunk)
    ensures WfWriter(w) && WfWriter(w')
  {
  }

  lemma WriteNothing(w: Writer)
    requires WfWriter(w)
    ensures WriteStep(w, w, [])
  {
  }

  /** Part of the first message goes out. */
  lemma WriteSome(w: Writer, to: nat)
    requires WfWriter(w) && w.queue != [] && w.sent <= to < |w.queue[0]|
    ensures WriteStep(w, w.(sent := to), w.queue[0][w.sent..to])
  {
    var f := w.queue[0];
    assert Flat(w.queue) == f + Flat(w.queue[1..]);
    assert Flat(w.queue)[w.sent..] == f[w.sent..to] + Flat(w.queue)[to..];
  }

  /** The rest of the first message goes out and it leaves the queue. */
  lemma WriteRest(w: Writer)
    requires WfWriter(w) && w.queue != []
    ensures WriteStep(w, Writer(w.queue[1..], 0), w.queue[0][w.sent..])
  {
    var f := w.queue[0];
    assert Flat(w.queue) == f + Flat(w.queue[1..]);
    assert Flat(w.queue)[w.sent..] == f[w.sent..] + Flat(w.queue[1..]);
    assert w.queue[1..] != [] ==> WfFrame(w.queue[1]);
  }

  lemma WriteThen(w: Writer, w1: Writer, w2: Writer, c: seq<byte>, d: seq<byte>)
    requires WriteStep(w, w1, c) && WriteStep(w1, w2, d)
    ensures WriteStep(w, w2, c + d)
  {
    hide Pending, WfWriter;
    assert (c + d) + Pending(w2) == c + (d + Pending(w2));
  }

  lemma NotCompleteYet(part: seq<byte>)
    requires !Complete(part) && (|part| <= HEAD_LEN || |part| <= Need(part))
    ensures Unfinished(part)
  {
  }

  lemma ReadStepEnds(r: Reader, r': Reader, chunk: seq<byte>)
    requires ReadStep(r, r', chunk)
    ensures WfReader(r) && WfReader(r')
  {
  }

  lemma ReadNothing(r: Reader)
    requires WfReader(r)
    ensures ReadStep(r, r, [])
  {
    assert r.got[|r.got|..] == [];
    assert r.part + [] == Flat([]) + r.part;
  }

  /** Reading on, after some messages: the history is carried along. */
  lemma ReadThen(r: Reader, r1: Reader, r2: Reader, c: seq<byte>, d: seq<byte>)
    requires ReadStep(r, r1, c) && ReadStep(r1, r2, d)
    ensures ReadStep(r, r2, c + d)
  {
    hide Unfinished, WfFrame, Flat;
    var a, b := r1.got[|r.got|..], r2.got[|r1.got|..];
    assert r2.got[|r.got|..] == a + b;
    FlatConcat(a, b);
    assert r.part + (c + d) == (r.part + c) + d;
    assert (Flat(a) + r1.part) + d == Flat(a) + (r1.part + d);
    assert Flat(a) + (Flat(b) + r2.part) == (Flat(a) + Flat(b)) + r2.part;
  }

  /** Bytes arrive and the message is still not complete. */
  lemma ReadPart(r: Reader, part: seq<byte>, chunk: seq<byte>)
    requires WfReader(r) && part == r.part + chunk && Unfinished(part)
    ensures ReadStep(r, r.(part := part), chunk)
  {
    assert Flat(r.got[|r.got|..]) + part == part;
  }

  /** Bytes arrive that complete the message. */
  lemma ReadWhole(r: Reader, f: Frame, chunk: seq<byte>)
    requires WfReader(r) && f == r.part + chunk && WfFrame(f)
    ensures ReadStep(r, Reader(r.got + [f], []), chunk)
  {
    assert (r.got + [f])[|r.got|..] == [f];
    FlatOne(f);
    assert Flat([f]) + [] == f;
    EmptyUnfinished();
  }

  lemma EmptyUnfinished()
    ensures Unfinished([])
  {
  }

  /** One more read after a run of reads: it completes a message, or it does not. */
  lemma ReadOn(start: Reader, r: Reader, chunk: seq<byte>, full: bool, now: seq<byte>, c: seq<byte>)
    requires ReadStep(start, r, chunk) && now == r.part + c
    requires if full then WfFrame(now) else Unfinished(now)
    ensures ReadStep(start, if full then Reader(r.got + [now], []) else Reader(r.got, now), chunk + c)
  {
    hide ReadStep;
    ReadStepEnds(start, r, chunk);
    if full {
      ReadWhole(r, now, c);
      ReadThen(start, r, Reader(r.got + [now], []), chunk, c);
    } else {
      ReadPart(r, now, c);
      ReadThen(start, r, Reader(r.got, now), chunk, c);
    }
  }

  // ---------------------------------------------------------------- whole runs

  /**
   Both ends and the wire between them.  `lost` is what a reader that hung up had of an
   unfinished message; the flags say which end is disconnected.
   */
  datatype Link = Link(pushed: seq<Frame>, writer: Writer, wire: seq<byte>, reader: Reader,
                       writerDown: bool, readerDown: bool, lost: seq<byte>)

  const START: Link := Link([], Writer([], 0), [], Reader([], []), false, false, [])

  /** Pushing works even on a disconnected connection; moving bytes does not. */
  ghost predicate PushStep(s: Link, s': Link, f: Frame) {
    WfFrame(f) && s' == s.(pushed := s.pushed + [f], writer := Pushed(s.writer, f))
  }

  /** The output callback, and whether it found the transport broken. */
  ghost predicate OutStep(s: Link, s': Link, chunk: seq<byte>) {
    && !s.writerDown && WriteStep(s.writer, s'.writer, chunk)
    && s' == s.(writer := s'.writer, wire := s.wire + chunk, writerDown := s'.writerDown)
  }

  /** The input callback, with the bytes it took. */
  ghost predicate InStep(s: Link, s': Link, n: nat) {
    && !s.readerDown && n <= |s.wire| && ReadStep(s.reader, s'.reader, s.wire[..n])
    && s' == s.(reader := s'.reader, wire := s.wire[n..])
  }

  /** The input callback that then finds the transport broken: the unfinished message is dropped. */
  ghost predicate HangUp(s: Link, s': Link, n: nat, r: Reader) {
    && !s.readerDown && n <= |s.wire| && ReadStep(s.reader, r, s.wire[..n])
    && s' == s.(reader := Reader(r.got, []), wire := s.wire[n..], readerDown := true, lost := r.part)
  }

  ghost predicate Step(s: Link, s': Link) {
    || (exists f :: PushStep(s, s', f))
    || (exists chunk :: OutStep(s, s', chunk))
    || (exists n :: InStep(s, s', n))
    || (exists n, r :: HangUp(s, s', n, r))
  }

  ghost predicate Run(states: seq<Link>) {
    && states != [] && states[0] == START
    && forall i :: 0 <= i < |states| - 1 ==> Step(states[i], states[i + 1])
  }

  ghost predicate Inv(s: Link) {
    && WfFrames(s.pushed) && WfWriter(s.writer) && WfReader(s.reader)
    && Unfinished(s.lost) && (!s.readerDown ==> s.lost == [])
    && (s.readerDown ==> s.reader.part == [])
    && Flat(s.pushed) == Flat(s.reader.got) + s.lost + s.reader.part + s.wire + Pending(s.writer)
  }

  lemma PushKeeps(s: Link, s': Link, f: Frame)
    requires Inv(s) && PushStep(s, s', f)
    ensures Inv(s')
  {
    hide WfFrame, Unfinished, WfWriter, Pending, Flat;
    FlatConcat(s.pushed, [f]);
    FlatOne(f);
    HeadStays(s.writer, f);
    var a := Flat(s.reader.got) + s.lost + s.reader.part + s.wire;
    assert (a + Pending(s.writer)) + f == a + (Pending(s.writer) + f);
  }

  lemma HeadStays(w: Writer, f: Frame)
    requires WfWriter(w) && WfFrame(f)
    ensures WfWriter(Pushed(w, f)) && Pending(Pushed(w, f)) == Pending(w) + f
  {
    FlatConcat(w.queue, [f]);
    FlatOne(f);
  }

  lemma Regroup(g: seq<byte>, p: seq<byte>, c: seq<byte>, more: seq<byte>, q: seq<byte>, rest: seq<byte>)
    requires p + c == more + q
    ensures g + p + (c + rest) == (g + more) + q + rest
  {
    assert g + p + (c + rest) == g + (p + c) + rest;
    assert g + (more + q) + rest == (g + more) + q + rest;
  }

  lemma ReadKeeps(s: Link, n: nat, r: Reader)
    requires Inv(s) && !s.readerDown && n <= |s.wire| && ReadStep(s.reader, r, s.wire[..n])
    ensures WfReader(r)
    ensures Flat(s.pushed) == Flat(r.got) + r.part + s.wire[n..] + Pending(s.writer)
  {
    hide WfFrame, Unfinished, WfWriter, Pending, Flat;
    var more := r.got[|s.reader.got|..];
    assert r.got == s.reader.got + more;
    FlatConcat(s.reader.got, more);
    assert s.wire == s.wire[..n] + s.wire[n..];
    assert Flat(s.reader.got) + s.lost == Flat(s.reader.got);
    Regroup(Flat(s.reader.got), s.reader.part, s.wire[..n], Flat(more), r.part, s.wire[n..]);
  }

  lemma OutKeeps(s: Link, s': Link, chunk: seq<byte>)
    requires Inv(s) && OutStep(s, s', chunk)
    ensures Inv(s')
  {
    hide WfFrame, Unfinished, Pending, Flat;
    var a := Flat(s.reader.got) + s.lost + s.reader.part;
    assert a + s.wire + (chunk + Pending(s'.writer)) == a + (s.wire + chunk) + Pending(s'.writer);
  }

  lemma StepKeeps(s: Link, s': Link)
    requires Inv(s) && Step(s, s')
    ensures Inv(s')
  {
    hide WfFrame, Unfinished, Pending, ReadStep, WriteStep, WfWriter, Flat;
    if f :| PushStep(s, s', f) {
      PushKeeps(s, s', f);
    } else if chunk :| OutStep(s, s', chunk) {
      OutKeeps(s, s', chunk);
    } else if n :| InStep(s, s', n) {
      ReadKeeps(s, n, s'.reader);
      assert Flat(s'.reader.got) + [] == Flat(s'.reader.got);
    } else {
      var n, r :| HangUp(s, s', n, r);
      ReadKeeps(s, n, r);
      EmptyUnfinished();
      assert Flat(r.got) + r.part + [] == Flat(r.got) + r.part;
    }
  }

  lemma {:induction false} RunKeeps(states: seq<Link>)
    requires Run(states)
    ensures Inv(states[|states| - 1])
  {
    if |states| == 1 {
      assert Flat([])[0..] == [];
      EmptyUnfinished();
    } else {
      var before := states[..|states| - 1];
      RunKeeps(before);
      assert before[|before| - 1] == states[|states| - 2];
      StepKeeps(states[|states| - 2], states[|states| - 1]);
    }
  }

  /** What the invariant says of the messages read. */
  lemma InvReassembles(s: Link)
    requires Inv(s)
    ensures s.reader.got <= s.pushed
    ensures s.writer.queue == [] && s.wire == [] ==>
      s.reader.got == s.pushed && s.reader.part == [] && s.lost == []
  {
    hide WfFrame, Unfinished, Flat, Pending, WfWriter;
    var tail := s.lost + s.reader.part + s.wire + Pending(s.writer);
    Regroup4(Flat(s.reader.got), s.lost, s.reader.part, s.wire, Pending(s.writer));
    Reassembled(s.pushed, s.reader.got, tail);
    if s.writer.queue == [] && s.wire == [] {
      NothingPending(s.writer);
      var left := if s.readerDown then s.lost else s.reader.part;
      assert tail == left;
      NothingLeft(s.pushed[|s.reader.got|..], left);
    }
  }

  /**
   Stream reassembly, over every run: what the reader has completed is always an in-order,
   byte-exact prefix of what was pushed, and everything that was pushed as soon as the queue and the
   wire are empty - also after the reader has hung up, which then lost nothing.
   */
  lemma StreamReassembly(states: seq<Link>)
    requires Run(states)
    ensures var s := states[|states| - 1];
            && s.reader.got <= s.pushed
            && (s.writer.queue == [] && s.wire == []
                ==> s.reader.got == s.pushed && s.reader.part == [] && s.lost == [])
  {
    hide Inv;
    RunKeeps(states);
    InvReassembles(states[|states| - 1]);
  }

  lemma Regroup4(a: seq<byte>, b: seq<byte>, c: seq<byte>, d: seq<byte>, e: seq<byte>)
    ensures a + b + c + d + e == a + (b + c + d + e)
  {
  }

  lemma NothingPending(w: Writer)
    requires WfWriter(w) && w.queue == []
    ensures Pending(w) == []
  {
  }

  /** An unfinished message is not a whole number of messages, unless it is none. */
  lemma NothingLeft(fs: seq<Frame>, part: seq<byte>)
    requires WfFrames(fs) && part == Flat(fs) && Unfinished(part)
    ensures fs == [] && part == []
  {
    if fs != [] {
      WholeInFront(fs[0], Flat(fs[1..]));
    }
  }

  /** A reader that has a whole message in front is not in the middle of one. */
  lemma WholeInFront(f: Frame, x: seq<byte>)
    requires WfFrame(f)
    ensures !Unfinished(f + x)
  {
    var part := f + x;
    assert part[12] == f[12] && part[13] == f[13] && part[14] == f[14] && part[15] == f[15];
  }
}
