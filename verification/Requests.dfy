/**
 Requests on the wire: the dispatch machine and the byte stream together.  A request's frame carries
 the cookie its result is registered under, so the peer sees the requests in order, each with the
 cookie that its answer needs.
 */
module Requests {
  import opened Bytes
  import opened Values
  import opened Dispatch
  import Stream

  const OBJECT_SIGNAL: uint32 := 0
  const CMD_SIGNAL: uint32 := 32
  const CMD_BROADCAST: uint32 := 33
  const CMD_ERROR: uint32 := 1

  /** The class of the result that xmmsc_send_msg makes for a message with this object and command. */
  function KindOf(obj: uint32, cmd: uint32): Kind {
    if obj == OBJECT_SIGNAL && cmd == CMD_SIGNAL then Signal
    else if obj == OBJECT_SIGNAL && cmd == CMD_BROADCAST then Broadcast
    else Default
  }

  /** The state after a request with this header, whose result has one notifier, has been answered. */
  function Answered(s: State, head: seq<byte>, v: Option<Value>, keep: nat -> bool): State
    requires 8 <= |head|
  {
    Reply(Hook(Send(s, KindOf(U32At(head, 0), U32At(head, 4))), 0), NextCookie(s), Some(v), keep)
  }

  lemma KeptOne(n: nat, kind: Kind, keep: nat -> bool)
    requires keep(n)
    ensures Kept([n], kind, keep) == if kind == Default then [] else [n]
  {
    assert [n][1..] == [];
  }

  /** A new result with one notifier, which stays, gets an answer. */
  lemma OneRun(t: State, r: Res, n: nat, v: Option<Value>, keep: nat -> bool)
    requires t.regs != [] && t.regs[0] == r && r.notifiers == [n] && r.users == 1 && r.ref == 2 && keep(n)
    ensures var s' := Dispatch.Run(t, 0, v, keep);
      && s'.regs != [] && s'.regs[0].id == r.id && s'.regs[1..] == t.regs[1..]
      && s'.calls == t.calls + [Call(r.id, r.kind, n, v)]
      && s'.log == t.log + (if r.kind == Signal then [r.id] else [])
      && s'.regs[0].notifiers == (if r.kind == Default then [] else [n])
      && s'.regs[0].cookie == (if r.kind == Signal then NextCookie(t) else r.cookie)
  {
    hide Kept, CallsOf, NextCookie;
    KeptOne(n, r.kind, keep);
    assert CallsOf(r, [n], v) == [Call(r.id, r.kind, n, v)];
    assert t.log + [] == t.log;
  }

  /** One notifier that stays, and one answer, on a new result of each kind. */
  lemma OneAnswer(s: State, kind: Kind, v: Option<Value>, keep: nat -> bool)
    requires |s.log| + 1 < TWO_32 && keep(s.hooked)
    ensures var s' := Reply(Hook(Send(s, kind), 0), NextCookie(s), Some(v), keep);
      && s'.regs != [] && s'.regs[0].id == s.born && s'.regs[1..] == s.regs
      && s'.calls == s.calls + [Call(s.born, kind, s.hooked, v)]
      && s'.log == s.log + [s.born] + (if kind == Signal then [s.born] else [])
      && s'.regs[0].notifiers == (if kind == Default then [] else [s.hooked])
      && s'.regs[0].cookie == |s.log| + (if kind == Signal then 1 else 0)
  {
    hide Dispatch.Run;
    var t := Hook(Send(s, kind), 0);
    var r := t.regs[0];
    assert [] + [s.hooked] == [s.hooked];
    assert t.regs[1..] == s.regs;
    OneRun(t, r, s.hooked, v, keep);
  }

  lemma WordIs(f: seq<byte>, i: nat, low: byte)
    requires i + 4 <= |f|
    ensures U32At(f, i) == low <==> f[i..i + 4] == [0, 0, 0, low]
  {
    if U32At(f, i) == low {
      assert f[i] == 0 && f[i + 1] == 0 && f[i + 2] == 0;
    }
  }

  /**
   What the header of a request makes of its answers, where the notifier stays.  After object 0 and
   command 32 the signal is asked for once more, and the result answers to the new cookie; after
   command 33 nothing is asked, and the result answers to its cookie as before; after anything else
   the notifier has gone all the same.
   */
  lemma HeaderDecides(s: State, head: seq<byte>, v: Option<Value>, keep: nat -> bool)
    requires 8 <= |head| && |s.log| + 1 < TWO_32 && keep(s.hooked)
    ensures var s' := Answered(s, head, v, keep);
      && s'.regs != [] && s'.regs[0].id == s.born && s'.regs[1..] == s.regs
      && |s'.calls| == |s.calls| + 1 && s'.calls[|s.calls|].notifier == s.hooked && s'.calls[|s.calls|].value == v
      && (head[..8] == [0, 0, 0, 0, 0, 0, 0, 32] ==>
            && s'.log == s.log + [s.born] + [s.born] && s'.regs[0].notifiers == [s.hooked]
            && Lookup(s'.regs, |s.log| + 1) == 0)
      && (head[..8] == [0, 0, 0, 0, 0, 0, 0, 33] ==>
            && s'.log == s.log + [s.born] && s'.regs[0].notifiers == [s.hooked]
            && Lookup(s'.regs, |s.log|) == 0)
      && (head[..8] != [0, 0, 0, 0, 0, 0, 0, 32] && head[..8] != [0, 0, 0, 0, 0, 0, 0, 33] ==>
            s'.log == s.log + [s.born] && s'.regs[0].notifiers == [])
  {
    hide U32At, Reply, Send, Hook;
    WordIs(head, 0, 0);
    WordIs(head, 4, 32);
    WordIs(head, 4, 33);
    assert head[..8] == head[0..4] + head[4..8];
    var kind := KindOf(U32At(head, 0), U32At(head, 4));
    OneAnswer(s, kind, v, keep);
  }

  /** The third word of the header. */
  function CookieOf(f: Stream.Frame): uint32 { if |f| < HEAD_LEN then 0 else U32At(f, 8) }

  predicate Stamped(f: Stream.Frame, cookie: uint32) { Stream.WfFrame(f) && CookieOf(f) == cookie }

  lemma StampedFrame(was: Stream.Frame, f: Stream.Frame, cookie: uint32)
    requires HEAD_LEN <= |was| && f == was[..8] + PutU32(cookie) + was[12..] && Stream.WfFrame(f)
    ensures Stamped(f, cookie)
  {
    hide Stream.WfFrame, PutU32, U32At;
    U32AtPut(f, 8, cookie);
  }

  /** The out queue of a connection that has, or has not, made a request. */
  ghost predicate Sent(w: Stream.Writer, w': Stream.Writer, cookie: uint32, sent: bool) {
    if sent then exists f :: Stamped(f, cookie) && w' == Stream.Pushed(w, f) else w' == w
  }

  /** A frame with another cookie. */
  function Restamped(f: Stream.Frame, cookie: uint32): Stream.Frame
    requires HEAD_LEN <= |f|
  {
    f[..8] + PutU32(cookie) + f[12..]
  }

  /**
   The request for a signal, byte by byte: object 0, command 32 or 33, the cookie, the length; a list
   (6) of one integer (2), the signal.
   */
  function SignalFrame(cmd: byte, signal: int32, cookie: uint32): Stream.Frame {
    [0, 0, 0, 0, 0, 0, 0, cmd] + PutU32(cookie) + [0, 0, 0, 16]
    + [0, 0, 0, 6, 0, 0, 0, 1, 0, 0, 0, 2] + PutU32(Unsigned(signal))
  }

  lemma SignalRestamped(cmd: byte, signal: int32, was: uint32, cookie: uint32)
    ensures |SignalFrame(cmd, signal, was)| == 32
    ensures Restamped(SignalFrame(cmd, signal, was), cookie) == SignalFrame(cmd, signal, cookie)
  {
    hide PutU32;
    var f, g := SignalFrame(cmd, signal, was), SignalFrame(cmd, signal, cookie);
    assert f[..8] == g[..8] && f[12..] == g[12..] && g[8..12] == PutU32(cookie);
    assert g == g[..8] + g[8..12] + g[12..];
  }

  /** The out queue after a run: with the request for the signal, if that is asked for again. */
  function Asked(w: Stream.Writer, signal: int32, cookie: uint32, again: bool): Stream.Writer {
    if again then Stream.Pushed(w, SignalFrame(32, signal, cookie)) else w
  }

  lemma AskedIsSent(w: Stream.Writer, signal: int32, cookie: uint32, again: bool)
    ensures Sent(w, Asked(w, signal, cookie, again), cookie, again)
  {
    hide BigWord, BigEndian;
    var f := SignalFrame(32, signal, cookie);
    assert f[8..12] == PutU32(cookie) && f[12] == 0 && f[13] == 0 && f[14] == 0 && f[15] == 16;
    SmallWord(f);
    StampedFrame(f, f, cookie);
  }

  lemma SmallWord(f: seq<byte>)
    requires |f| == 32 && f[12] == 0 && f[13] == 0 && f[14] == 0 && f[15] == 16
    ensures Stream.WfFrame(f)
  {
  }

  datatype System = System(state: State, link: Stream.Link)

  const IDLE: System := System(START, Stream.START)

  /** The program does something; if that makes a request, its frame is pushed, stamped with the next cookie. */
  ghost predicate ProgramStep(s: System, s': System) {
    && Dispatch.Step(s.state, s'.state)
    && (|| (s'.state.log == s.state.log && s'.link == s.link)
        || (|s'.state.log| == |s.state.log| + 1 &&
            exists f :: Stamped(f, NextCookie(s.state)) && Stream.PushStep(s.link, s'.link, f)))
  }

  /** However the rest of the connection stands, the change of both is a step of the program. */
  ghost predicate Steps(s: State, w: Stream.Writer, s': State, w': Stream.Writer) {
    forall link: Stream.Link :: link.writer == w ==>
      exists link': Stream.Link :: link'.writer == w' && ProgramStep(System(s, link), System(s', link'))
  }

  /** Bytes move, or an end finds the connection closed. */
  ghost predicate WireStep(s: System, s': System) {
    && s'.state == s.state
    && Stream.Step(s.link, s'.link) && s'.link.pushed == s.link.pushed
  }

  ghost predicate Run(run: seq<System>) {
    && run != [] && run[0] == IDLE
    && forall i :: 0 <= i < |run| - 1 ==> ProgramStep(run[i], run[i + 1]) || WireStep(run[i], run[i + 1])
  }

  ghost predicate Inv(s: System) {
    && Dispatch.Inv(s.state) && Stream.Inv(s.link)
    && |s.link.pushed| == |s.state.log|
    && forall k :: 0 <= k < |s.link.pushed| ==> Stamped(s.link.pushed[k], Low32(k))
  }

  // ---------------------------------------------------------------- what the program does are its steps

  /** A request that was made is in the queue, stamped; where none was made, nothing is. */
  lemma SentSteps(s: State, s': State, w: Stream.Writer, w': Stream.Writer, sent: bool)
    requires Dispatch.Step(s, s') && Sent(w, w', NextCookie(s), sent)
    requires if sent then |s'.log| == |s.log| + 1 else s'.log == s.log
    ensures Steps(s, w, s', w')
  {
    hide Dispatch.Step, Stamped, NextCookie;
    forall link: Stream.Link | link.writer == w
      ensures exists link': Stream.Link :: link'.writer == w' && ProgramStep(System(s, link), System(s', link'))
    {
      var link' := link;
      if sent {
        var f :| Stamped(f, NextCookie(s)) && w' == Stream.Pushed(w, f);
        StampedIsWf(f, NextCookie(s));
        link' := link.(pushed := link.pushed + [f], writer := w');
        assert Stream.PushStep(link, link', f);
      }
      assert link'.writer == w' && ProgramStep(System(s, link), System(s', link'));
    }
  }

  lemma StampedIsWf(f: Stream.Frame, cookie: uint32)
    requires Stamped(f, cookie)
    ensures Stream.WfFrame(f)
  {
  }

  lemma SendSteps(s: State, kind: Kind, w: Stream.Writer, w': Stream.Writer)
    requires Sent(w, w', NextCookie(s), true)
    ensures Steps(s, w, Send(s, kind), w')
  {
    hide Sent, Steps;
    SentSteps(s, Send(s, kind), w, w', true);
  }

  lemma NothingSent(w: Stream.Writer, cookie: uint32)
    ensures Sent(w, w, cookie, false)
  {
  }

  /** A run makes one request at most. */
  lemma RunMakesOne(s: State, i: nat, v: Option<Value>, keep: nat -> bool)
    requires i < |s.regs|
    ensures var log := Dispatch.Run(s, i, v, keep).log; log == s.log || |log| == |s.log| + 1
  {
    hide Kept, CallsOf, NextCookie;
  }

  lemma ReplySteps(s: State, cookie: uint32, v: Option<Option<Value>>, keep: nat -> bool, w: Stream.Writer, w': Stream.Writer)
    requires Sent(w, w', NextCookie(s), Reply(s, cookie, v, keep).log != s.log)
    ensures Steps(s, w, Reply(s, cookie, v, keep), w')
  {
    hide Sent, Steps, Dispatch.Run, NextCookie;
    var s' := Reply(s, cookie, v, keep);
    var i := Lookup(s.regs, cookie);
    if i < |s.regs| && v.Some? { RunMakesOne(s, i, v.value, keep); }
    assert Dispatch.Step(s, s');
    SentSteps(s, s', w, w', s'.log != s.log);
  }

  /** Setting a notifier, taking and dropping a reference touch no queue. */
  lemma QuietSteps(s: State, i: nat, w: Stream.Writer)
    requires i < |s.regs|
    ensures Steps(s, w, Hook(s, i), w) && Steps(s, w, Take(s, i), w)
    ensures s.regs[i].users > 0 ==> Steps(s, w, Drop(s, i), w)
  {
    hide Steps, Settle;
    SentSteps(s, Hook(s, i), w, w, false);
    SentSteps(s, Take(s, i), w, w, false);
    if s.regs[i].users > 0 {
      DropIsQuiet(s, i);
      SentSteps(s, Drop(s, i), w, w, false);
    }
  }

  lemma DropIsQuiet(s: State, i: nat)
    requires i < |s.regs| && s.regs[i].users > 0
    ensures Drop(s, i).log == s.log
  {
  }

  // ---------------------------------------------------------------- what every run keeps

  lemma ProgramKeeps(s: System, s': System)
    requires Inv(s) && ProgramStep(s, s')
    ensures Inv(s')
  {
    hide Dispatch.Inv, Dispatch.Step, Stream.Inv, Stream.WfFrame, CookieOf, Stream.Pushed;
    Dispatch.StepKeeps(s.state, s'.state);
    if s'.state.log != s.state.log {
      var f :| Stamped(f, NextCookie(s.state)) && Stream.PushStep(s.link, s'.link, f);
      Stream.PushKeeps(s.link, s'.link, f);
    }
  }

  lemma {:induction false} RunKeeps(run: seq<System>)
    requires Run(run)
    ensures Inv(run[|run| - 1])
  {
    hide Dispatch.Inv, Stream.Inv, Dispatch.Step, Stream.Step;
    if |run| == 1 {
      Dispatch.ReachesKeeps([START]);
      Stream.RunKeeps([Stream.START]);
    } else {
      var before := run[..|run| - 1];
      RunKeeps(before);
      var s, s' := run[|run| - 2], run[|run| - 1];
      assert before[|before| - 1] == s;
      if ProgramStep(s, s') {
        ProgramKeeps(s, s');
      } else {
        Stream.StepKeeps(s.link, s'.link);
      }
    }
  }

  /**
   Over every run with at most 2^32 requests: the k-th message that reaches the peer is the k-th
   request and carries cookie k, and an answer to it reaches exactly the result that request was
   sent for, unless that result has sent a later one; with nothing queued and nothing on the wire
   every request has arrived.
   */
  lemma RequestsAndAnswers(run: seq<System>)
    requires Run(run) && NoWrap(run[|run| - 1].state)
    ensures var s := run[|run| - 1];
            var got, log, regs := s.link.reader.got, s.state.log, s.state.regs;
            && |got| <= |log|
            && (s.link.writer.queue == [] && s.link.wire == [] ==> |got| == |log|)
            && (forall k :: 0 <= k < |got| ==> Stamped(got[k], k))
            && (forall k: uint32, i {:trigger Latest(log, k, regs[i].id)} :: 0 <= k < |got| && 0 <= i < |regs| ==>
                  (Lookup(regs, CookieOf(got[k])) == i <==> Latest(log, k, regs[i].id)))
  {
    hide Dispatch.Inv, Stream.WfFrame, CookieOf, Latest, Stream.Pending, Stream.WfWriter, Stream.Unfinished;
    RunKeeps(run);
    var s := run[|run| - 1];
    var got := s.link.reader.got;
    Stream.InvReassembles(s.link);
    forall k | 0 <= k < |got| ensures Stamped(got[k], k) {
      assert got[k] == s.link.pushed[k] && Stamped(s.link.pushed[k], Low32(k));
    }
    InvFound(s.state, got);
  }

  lemma InvFound(s: State, got: seq<Stream.Frame>)
    requires Dispatch.Inv(s) && NoWrap(s) && |got| <= TWO_32
    requires forall k :: 0 <= k < |got| ==> Stamped(got[k], k)
    ensures forall k: uint32, i {:trigger Latest(s.log, k, s.regs[i].id)} :: 0 <= k < |got| && 0 <= i < |s.regs| ==>
              (Lookup(s.regs, CookieOf(got[k])) == i <==> Latest(s.log, k, s.regs[i].id))
  {
    hide Latest, CookieOf, Stream.WfFrame, Population, Cookies;
    forall k: uint32, i | 0 <= k < |got| && 0 <= i < |s.regs|
      ensures Lookup(s.regs, CookieOf(got[k])) == i <==> Latest(s.log, k, s.regs[i].id)
    {
      assert Stamped(got[k], k);
      LookupIsLatest(s, i, k);
    }
  }
}
