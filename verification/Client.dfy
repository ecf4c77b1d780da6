/**
 The connection and its results as objects updated in place.  `state` is the abstract state of
 Dispatch; every method takes one of its steps.
 */
module Client {
  import opened Bytes
  import opened Values
  import opened Dispatch
  import opened Msg
  import Ipc
  import Requests
  import RoundTrip
  import Stream
  import Tokens
  import Wire

  class Result {
    var ref: int
    var kind: Kind
    var notifiers: seq<nat>
    var parsed: bool
    var cookie: uint32
    var data: Option<Value>
    /** The signal to ask for again; only restarting reads it. */
    var restartSignal: int32

    constructor (kind: Kind, cookie: uint32)
      ensures ref == 1 && this.kind == kind && notifiers == [] && !parsed && this.cookie == cookie && data == None
    {
      this.kind, this.cookie := kind, cookie;
      notifiers, parsed, data, restartSignal := [], false, None, 0;
      ref := 1;
    }
  }

  ghost predicate Mirrors(res: Result, r: Res)
    reads res
  {
    && res.ref == r.ref && res.kind == r.kind && res.notifiers == r.notifiers
    && res.parsed == r.parsed && res.cookie == r.cookie && res.data == r.data
  }

  ghost predicate AllMirror(results: seq<Result>, regs: seq<Res>)
    reads results
  {
    |results| == |regs| && forall i :: 0 <= i < |results| ==> Mirrors(results[i], regs[i])
  }

  /** Dropping a freed result from the list of objects and from the abstract list. */
  lemma SettledMirrors(was: seq<Result>, now: seq<Result>, s: State, i: nat)
    requires i < |s.regs| && AllMirror(was, s.regs)
    requires now == if s.regs[i].ref != 0 then was else was[..i] + was[i + 1..]
    ensures AllMirror(now, Settle(s, i).regs)
  {
    hide Mirrors;
    assert forall j :: 0 <= j < |now| ==> now[j] == was[if s.regs[i].ref != 0 || j < i then j else j + 1];
  }

  const NO_VALUE: Text := Tokens.T("No error value!")
  const NO_MESSAGE: Text := Tokens.T("No error message!")

  /**
   What xmmsc_result_parse_msg makes of a reply: none if it does not parse, and otherwise the value,
   which may be null.  An error reply always parses; it becomes its error, or one of two of our own.
   */
  function ReplyValue(cmd: uint32, r: Wire.Got<Option<Value>>): Option<Option<Value>> {
    if cmd != Requests.CMD_ERROR then
      match r
      case Fail(_, _) => None
      case Ok(_, v) => Some(v)
    else
      match r
      case Fail(_, _) => Some(Some(Error(NO_VALUE)))
      case Ok(_, Some(Error(m))) => Some(Some(Error(m)))
      case Ok(_, _) => Some(Some(Error(NO_MESSAGE)))
  }

  lemma ErrorWords()
    ensures NO_VALUE == Tokens.T("No error value!") && NO_MESSAGE == Tokens.T("No error message!")
  {
  }

  /** The value of a reply that waits to be read. */
  ghost function ReplyOf(msg: Message): Option<Option<Value>>
    requires msg.Valid()
    reads msg, msg.data
  {
    ReplyValue(U32At(msg.data[..], 4), Wire.GetValue(msg.Payload(), msg.getPos))
  }

  /** Reading it uses a null collection. */
  ghost predicate Breaks(msg: Message)
    requires msg.Valid()
    reads msg, msg.data
  {
    Wire.Broken(Wire.GetValue(msg.Payload(), msg.getPos))
  }

  /**
   The value that a peer has put in its reply is the value that the notifiers get, in normal form; an
   error reply passes on an error, and anything else in one becomes an error of our own.
   */
  lemma AnswerArrives(msg: Message, v: Value)
    requires msg.Valid() && msg.getPos == 0 && Wf(v) && msg.Payload() == Wire.EncValue(v)
    ensures !Breaks(msg)
    ensures var cmd := U32At(msg.data[..], 4);
            ReplyOf(msg) == Some(Some(if cmd != Requests.CMD_ERROR then RoundTrip.Norm(v)
                                      else if v.Error? then v else Error(NO_MESSAGE)))
  {
    hide Wire.GetValue, Wire.EncValue, Wf, U32At, RoundTrip.Clean;
    RoundTrip.SelfDelimiting([], v, []);
    assert [] + Wire.EncValue(v) + [] == Wire.EncValue(v);
  }

  /** An error reply without a value is an error all the same, any other reply without one is none. */
  lemma NoAnswer(msg: Message)
    requires msg.Valid() && !Breaks(msg) && Wire.GetValue(msg.Payload(), msg.getPos).Fail?
    ensures ReplyOf(msg) == if U32At(msg.data[..], 4) == 1 then Some(Some(Error(NO_VALUE))) else None
  {
    hide Wire.GetValue, U32At;
  }

  /** In the guarded state of a run only the one result differs. */
  lemma GuardedMirrors(was: seq<Result>, i: nat, s: State, v: Option<Value>, keep: nat -> bool)
    requires i < |s.regs| && |was| == |s.regs|
    requires forall j :: 0 <= j < |was| && j != i ==> Mirrors(was[j], s.regs[j])
    requires var r := AfterCalls(s.regs[i], v, keep);
             Mirrors(was[i], if r.notifiers != [] && r.kind == Signal then r.(cookie := NextCookie(s)) else r)
    ensures var t := Guarded(s, i, v, keep);
            && AllMirror(was, t.regs) && t.conn == s.conn
            && t.regs[i].ref == AfterCalls(s.regs[i], v, keep).ref
  {
    hide Mirrors, AfterCalls, NextCookie, CallsOf;
  }

  class Connection {
    /** xmmsc_connection_t's count and its next cookie. */
    var ref: int
    var cookie: uint32
    /** The results list of the connection's ipc, newest first. */
    var results: seq<Result>
    const ipc: Ipc.Connection
    ghost var state: State

    ghost predicate Valid()
      reads this, results
    {
      && Inv(state) && NoWrap(state)
      && ref == state.conn && cookie == NextCookie(state)
      && Listed()
      && AllMirror(results, state.regs)
    }

    /** The list and the abstract list have the same length, and no object is listed twice. */
    ghost predicate Listed()
      reads this`results, this`state
    {
      && |results| == |state.regs|
      && forall i, j :: 0 <= i < j < |results| ==> results[i] != results[j]
    }

    constructor (ipc: Ipc.Connection)
      ensures Valid() && state == START && this.ipc == ipc
    {
      this.ipc := ipc;
      ref, cookie, results := 1, 0, [];
      state := START;
      new;
      assert Reaches([START]);
      ReachesKeeps([START]);
    }

    /** xmmsc_next_id */
    method NextId() returns (id: uint32)
      modifies this`cookie
      ensures id == old(cookie) && cookie == Low32(old(cookie) + 1)
    {
      id := cookie;
      cookie := Low32(cookie + 1);
    }

    /**
     xmmsc_send_msg and xmmsc_result_new: the message goes to the out queue with the cookie that the
     new result is registered under.
     */
    method SendMsg(msg: Message) returns (res: Result)
      requires Valid() && |state.log| < TWO_32
      requires ipc.ValidOut() && msg.Whole() && HEAD_LEN + msg.Length() < TWO_32 && msg.xfered == 0
      requires forall m :: m in ipc.outMsg ==> m != msg && m.data != msg.data
      modifies this`ref, this`cookie, this`results, this`state, ipc`outMsg, ipc`frames, msg.data
      ensures Valid() && fresh(res) && results == [res] + old(results)
      ensures state == Send(old(state), Requests.KindOf(old(U32At(msg.data[..], 0)), old(U32At(msg.data[..], 4))))
      ensures ipc.ValidOut()
      ensures ipc.Out() == Stream.Pushed(old(ipc.Out()), Requests.Restamped(old(msg.Frame()), NextCookie(old(state))))
      ensures Requests.Steps(old(state), old(ipc.Out()), state, ipc.Out())
    {
      hide Requests.Steps, Requests.Restamped, Stream.Pushed, Message.Frame;
      hide Inv, U32At, Requests.KindOf, Message.Whole, Message.Length, Ipc.Connection.ValidOut, Ipc.Connection.Out, Ipc.Connection.Queued, Requests.Sent;
      var kind := Requests.KindOf(U32At(msg.data[..], 0), U32At(msg.data[..], 4));
      var id := NextId();
      WriteMsg(msg, id);
      res := ResultNew(kind, id);
      SendKeeps(state, kind);
      Requests.SendSteps(state, kind, old(ipc.Out()), ipc.Out());
      state := Send(state, kind);
    }

    /** xmmsc_result_new and xmmsc_ipc_result_register: one reference for the caller, and first in the list. */
    method ResultNew(kind: Kind, cookie: uint32) returns (res: Result)
      requires Listed() && AllMirror(results, state.regs) && cookie == NextCookie(state)
      modifies this`ref, this`results
      ensures fresh(res) && results == [res] + old(results) && ref == old(ref) + 1
      ensures AllMirror(results, Send(state, kind).regs)
      ensures forall i, j :: 0 <= i < j < |results| ==> results[i] != results[j]
    {
      res := new Result(kind, cookie);
      ref := ref + 1;
      results := [res] + results;
      ghost var regs := Send(state, kind).regs;
      assert forall i :: 1 <= i < |results| ==> results[i] == old(results)[i - 1] && regs[i] == state.regs[i - 1];
    }

    /** xmmsc_write_msg_to_ipc, once it has its cookie. */
    method WriteMsg(msg: Message, id: uint32)
      requires ipc.ValidOut() && msg.Whole() && HEAD_LEN + msg.Length() < TWO_32 && msg.xfered == 0
      requires forall m :: m in ipc.outMsg ==> m != msg && m.data != msg.data
      modifies ipc`outMsg, ipc`frames, msg.data
      ensures ipc.ValidOut() && Requests.Sent(old(ipc.Out()), ipc.Out(), id, true)
      ensures ipc.Out() == Stream.Pushed(old(ipc.Out()), Requests.Restamped(old(msg.Frame()), id))
    {
      hide Requests.Stamped, Stream.WfFrame, PutU32, Stream.WfWriter, Stream.Pushed, Ipc.Connection.ValidOut, Ipc.Connection.Out;
      ghost var was := msg.Frame();
      ipc.MsgWrite(msg, id);
      Requests.StampedFrame(was, msg.Frame(), id);
    }

    /** xmmsc_result_restartable */
    method Restartable(res: Result, signal: int32)
      requires Valid()
      modifies res`restartSignal
      ensures Valid() && res.restartSignal == signal
    {
      res.restartSignal := signal;
    }

    /** xmmsc_send_signal_msg: a signal is asked for, and the result knows which to ask for again. */
    method SendSignalMsg(signal: int32) returns (res: Result)
      requires Valid() && |state.log| < TWO_32 && ipc.ValidOut()
      modifies this`ref, this`cookie, this`results, this`state, ipc`outMsg, ipc`frames
      ensures Valid() && fresh(res) && results == [res] + old(results) && res.restartSignal == signal
      ensures state == Send(old(state), Signal) && ipc.ValidOut()
      ensures ipc.Out() == Stream.Pushed(old(ipc.Out()), Requests.SignalFrame(32, signal, NextCookie(old(state))))
    {
      hide Inv, Requests.Steps, Requests.SignalFrame, Requests.Restamped, Stream.Pushed, Mirrors, Message.Frame;
      hide Ipc.Connection.ValidOut, Ipc.Connection.Out, Message.Whole, U32At;
      var msg := SignalMsg(32, signal);
      HeaderOf(msg, 32, signal);
      Requests.SignalRestamped(32, signal, 0, NextCookie(state));
      res := SendMsg(msg);
      Restartable(res, signal);
    }

    /** xmmsc_send_broadcast_msg */
    method SendBroadcastMsg(signal: int32) returns (res: Result)
      requires Valid() && |state.log| < TWO_32 && ipc.ValidOut()
      modifies this`ref, this`cookie, this`results, this`state, ipc`outMsg, ipc`frames
      ensures Valid() && fresh(res) && results == [res] + old(results)
      ensures state == Send(old(state), Broadcast) && ipc.ValidOut()
      ensures ipc.Out() == Stream.Pushed(old(ipc.Out()), Requests.SignalFrame(33, signal, NextCookie(old(state))))
    {
      hide Inv, Requests.Steps, Requests.SignalFrame, Requests.Restamped, Stream.Pushed, Mirrors, Message.Frame;
      hide Ipc.Connection.ValidOut, Ipc.Connection.Out, Message.Whole, U32At;
      var msg := SignalMsg(33, signal);
      HeaderOf(msg, 33, signal);
      Requests.SignalRestamped(33, signal, 0, NextCookie(state));
      res := SendMsg(msg);
    }

    /** xmmsc_result_notifier_set_full; `cb` is the number of the new notifier. */
    method NotifierSet(res: Result, ghost i: nat, cb: nat)
      requires Valid() && i < |results| && results[i] == res && cb == state.hooked
      modifies this`state, res
      ensures Valid() && state == Hook(old(state), i)
    {
      hide Inv;
      res.ref := res.ref + 1;
      res.notifiers := res.notifiers + [cb];
      HookKeeps(state, i);
      state := Hook(state, i);
    }

    /** xmmsc_result_ref */
    method ResultRef(res: Result, ghost i: nat)
      requires Valid() && i < |results| && results[i] == res
      modifies this`state, res
      ensures Valid() && state == Take(old(state), i)
    {
      hide Inv;
      res.ref := res.ref + 1;
      TakeKeeps(state, i);
      state := Take(state, i);
    }

    /** xmmsc_ipc_result_lookup: first match from the head of the list. */
    method ResultLookup(wanted: uint32) returns (i: nat)
      requires Valid()
      ensures i == Lookup(state.regs, wanted)
    {
      hide Inv;
      i := 0;
      while i < |results| && results[i].cookie != wanted
        invariant i <= |results|
        invariant Lookup(state.regs, wanted) == i + Lookup(state.regs[i..], wanted)
      {
        assert Mirrors(results[i], state.regs[i]);
        assert state.regs[i..][0] == state.regs[i] && state.regs[i..][1..] == state.regs[i + 1..];
        i := i + 1;
      }
      if i < |results| {
        assert Mirrors(results[i], state.regs[i]);
        assert state.regs[i..][0] == state.regs[i];
      } else {
        assert state.regs[i..] == [];
      }
    }

    /**
     xmmsc_ipc_result_unregister: takes out the first result with the same cookie.  That is the
     result itself, because cookies are distinct.
     */
    method ResultUnregister(res: Result, ghost i: nat)
      requires i < |results| && results[i] == res
      requires forall j :: 0 <= j < |results| && j != i ==> results[j].cookie != res.cookie
      modifies this`results
      ensures results == old(results)[..i] + old(results)[i + 1..]
    {
      var n := 0;
      while n < |results|
        invariant n <= i && results == old(results)
      {
        if res.cookie == results[n].cookie {
          results := results[..n] + results[n + 1..];
          return;
        }
        n := n + 1;
      }
    }

    /** xmmsc_result_free: the notifier list is empty by now, so its clean-up loop has nothing to do. */
    method ResultFree(res: Result, ghost i: nat)
      requires i < |results| && results[i] == res && res.notifiers == []
      requires forall j :: 0 <= j < |results| && j != i ==> results[j].cookie != res.cookie
      modifies this`results, this`ref
      ensures results == old(results)[..i] + old(results)[i + 1..] && ref == old(ref) - 1
    {
      ResultUnregister(res, i);
      ref := ref - 1;
    }

    /** xmmsc_result_unref */
    method Unref(res: Result, ghost i: nat)
      requires i < |results| && results[i] == res && res.ref >= 1
      requires res.ref == 1 ==> res.notifiers == []
      requires forall j :: 0 <= j < |results| && j != i ==> results[j].cookie != res.cookie
      modifies this`results, this`ref, res`ref
      ensures res.ref == old(res.ref) - 1
      ensures res.ref != 0 ==> results == old(results) && ref == old(ref)
      ensures res.ref == 0 ==> results == old(results)[..i] + old(results)[i + 1..] && ref == old(ref) - 1
    {
      res.ref := res.ref - 1;
      if res.ref == 0 {
        ResultFree(res, i);
      }
    }

    /** Cookies of listed results are distinct. */
    lemma CookiesDiffer(i: nat, j: nat)
      requires Valid() && i < |results| && j < |results| && i != j
      ensures results[i].cookie != results[j].cookie
    {
      var a, b := state.regs[i], state.regs[j];
      assert Mirrors(results[i], a) && Mirrors(results[j], b);
      DistinctIds(state, if i < j then i else j, if i < j then j else i);
      assert Latest(state.log, a.cookie, a.id) && Latest(state.log, b.cookie, b.id);
    }

    /** The objects after the program has given back one of its references. */
    method ReleaseObjects(res: Result, ghost i: nat)
      requires Valid() && i < |results| && results[i] == res && state.regs[i].users > 0
      modifies this`results, this`ref, res`ref
      ensures ref == Drop(state, i).conn && AllMirror(results, Drop(state, i).regs)
      ensures results == old(results) || results == old(results)[..i] + old(results)[i + 1..]
    {
      hide Inv;
      forall j | 0 <= j < |results| && j != i ensures results[j].cookie != res.cookie { CookiesDiffer(j, i); }
      CountsAt(state, i);
      ghost var was, r := results, state.regs[i];
      ghost var s := state.(regs := state.regs[i := r.(users := r.users - 1, ref := r.ref - 1)]);
      Unref(res, i);
      assert AllMirror(was, s.regs);
      SettledMirrors(was, results, s, i);
    }

    /** The program gives back one of its references. */
    method Release(res: Result, ghost i: nat)
      requires Valid() && i < |results| && results[i] == res && state.regs[i].users > 0
      modifies this`results, this`ref, this`state, res`ref
      ensures Valid() && state == Drop(old(state), i)
    {
      hide Inv, Mirrors;
      DropKeeps(state, i);
      DropSame(state, i);
      ReleaseObjects(res, i);
      state := Drop(state, i);
    }

    /** xmmsc_result_notifier_remove: unlink the notifier at `n` and give its reference back. */
    method NotifierDelete(res: Result, ghost i: nat, n: nat)
      requires i < |results| && results[i] == res && res.ref >= 2 && n < |res.notifiers|
      requires forall j :: 0 <= j < |results| && j != i ==> results[j].cookie != res.cookie
      modifies this`results, this`ref, res`ref, res`notifiers
      ensures res.notifiers == old(res.notifiers)[..n] + old(res.notifiers)[n + 1..]
      ensures res.ref == old(res.ref) - 1 && results == old(results) && ref == old(ref)
    {
      res.notifiers := res.notifiers[..n] + res.notifiers[n + 1..];
      Unref(res, i);
    }

    /**
     The notifier loop of xmmsc_result_run.  The count stays positive throughout: the result cannot
     be freed inside it.
     */
    method RunNotifiers(res: Result, ghost i: nat, v: Option<Value>, keep: nat -> bool) returns (ghost ran: seq<nat>)
      requires i < |results| && results[i] == res && res.ref >= |res.notifiers| + 1
      requires forall j :: 0 <= j < |results| && j != i ==> results[j].cookie != res.cookie
      modifies this`results, this`ref, res`ref, res`notifiers
      ensures results == old(results) && ref == old(ref)
      ensures ran == old(res.notifiers)
      ensures res.notifiers == Kept(old(res.notifiers), res.kind, keep)
      ensures res.ref == old(res.ref) - (|old(res.notifiers)| - |res.notifiers|) && res.ref > 0
    {
      hide Kept;
      ghost var ns := res.notifiers;
      ghost var k := 0;
      var n := 0;
      ran := [];
      KeptNone(res.kind, keep);
      assert ns[..0] == [] && [] + ns[0..] == ns;
      while n < |res.notifiers|
        invariant results == old(results) && ref == old(ref)
        invariant k <= |ns| && ran == ns[..k]
        invariant n == |Kept(ns[..k], res.kind, keep)|
        invariant res.notifiers == Kept(ns[..k], res.kind, keep) + ns[k..]
        invariant res.ref == old(res.ref) - (|ns| - |res.notifiers|)
        decreases |ns| - k
      {
        var cb := res.notifiers[n];
        ghost var kept := Kept(ns[..k], res.kind, keep);
        VisitOne(kept, ns, k);
        KeptAppend(ns[..k], ns[k], res.kind, keep);
        ran := ran + [cb];
        if !keep(cb) || res.kind == Default {
          NotifierDelete(res, i, n);
        } else {
          n := n + 1;
        }
        k := k + 1;
      }
      assert ns[..|ns|] == ns && ns[|ns|..] == [];
    }

    /** xmmsc_result_run up to the end of the notifier loop. */
    method RunCalls(res: Result, ghost i: nat, v: Option<Value>, keep: nat -> bool)
      requires Valid() && i < |results| && results[i] == res
      modifies this`results, this`ref, res`data, res`parsed, res`ref, res`notifiers
      ensures results == old(results) && ref == old(ref)
      ensures var r := AfterCalls(old(state.regs[i]), v, keep);
              && res.notifiers == r.notifiers && res.kind == r.kind && res.ref == r.ref + 1
              && res.parsed && res.data == v && res.cookie == r.cookie
    {
      hide Inv, Kept;
      forall j | 0 <= j < |results| && j != i ensures results[j].cookie != res.cookie { CookiesDiffer(j, i); }
      CountsAt(state, i);
      assert Mirrors(res, state.regs[i]);
      res.data, res.parsed := v, true;
      res.ref := res.ref + 1;
      ghost var ran := RunNotifiers(res, i, v, keep);
    }

    /** xmmsc_result_run up to the release of the reference that guards it. */
    method RunGuarded(res: Result, ghost i: nat, v: Option<Value>, keep: nat -> bool)
      requires Valid() && i < |results| && results[i] == res && |state.log| < TWO_32 && ipc.ValidOut()
      modifies this`results, this`ref, this`cookie, res, ipc`outMsg, ipc`frames
      ensures results == old(results) && ref == old(ref) && ipc.ValidOut()
      ensures var r := AfterCalls(old(state.regs[i]), v, keep);
              var restart := r.notifiers != [] && r.kind == Signal;
              && res.notifiers == r.notifiers && res.kind == r.kind && res.ref == r.ref + 1
              && res.parsed == r.parsed && res.data == r.data
              && res.cookie == (if restart then NextCookie(state) else r.cookie)
              && cookie == Low32(|state.log| + if restart then 1 else 0)
              && ipc.Out() == Requests.Asked(old(ipc.Out()), old(res.restartSignal), NextCookie(state), restart)
      ensures forall j :: 0 <= j < |results| && j != i ==> results[j].cookie != res.cookie
    {
      hide Inv, Kept, Mirrors, Ipc.Connection.ValidOut, Ipc.Connection.Out, Ipc.Connection.Queued;
      forall j | 0 <= j < |results| && j != i
        ensures results[j].cookie != res.cookie && results[j].cookie < |state.log|
      {
        CookiesDiffer(j, i);
        CookieIssued(j);
      }
      RunCalls(res, i, v, keep);
      if res.notifiers != [] && res.kind == Signal {
        Restart(res, i);
      }
      if res.kind == Broadcast {
        res.data := None;
      }
    }

    lemma CookieIssued(i: nat)
      requires Valid() && i < |results|
      ensures results[i].cookie < |state.log|
    {
      assert Mirrors(results[i], state.regs[i]);
      assert Latest(state.log, state.regs[i].cookie, state.regs[i].id);
    }

    /** All of xmmsc_result_run: the objects are what the Run step says of them. */
    method RunObjects(res: Result, ghost i: nat, v: Option<Value>, keep: nat -> bool)
      requires Valid() && i < |results| && results[i] == res && |state.log| < TWO_32 && ipc.ValidOut()
      modifies this`results, this`ref, this`cookie, res, ipc`outMsg, ipc`frames
      ensures var s := Dispatch.Run(state, i, v, keep);
              && ref == s.conn && cookie == NextCookie(s) && AllMirror(results, s.regs)
              && ipc.ValidOut()
              && ipc.Out() == Requests.Asked(old(ipc.Out()), old(res.restartSignal), NextCookie(state), s.log != state.log)
      ensures results == old(results) || results == old(results)[..i] + old(results)[i + 1..]
    {
      hide Inv, Kept, CallsOf, Ipc.Connection.ValidOut, Ipc.Connection.Out, Ipc.Connection.Queued, Requests.Sent;
      hide Guarded;
      CountsAfter(state, i, v, keep);
      ghost var was, s := results, Guarded(state, i, v, keep);
      RunGuarded(res, i, v, keep);
      Unref(res, i);
      RunLog(state, i, v, keep);
      GuardedMirrors(was, i, state, v, keep);
      SettledMirrors(was, results, s, i);
    }

    /** xmmsc_result_run once the message has parsed to `v`. */
    method RunValue(res: Result, ghost i: nat, v: Option<Value>, keep: nat -> bool)
      requires Valid() && i < |results| && results[i] == res && |state.log| < TWO_32 && ipc.ValidOut()
      modifies this, res, ipc`outMsg, ipc`frames
      ensures Valid() && state == Dispatch.Run(old(state), i, v, keep)
      ensures ipc.ValidOut()
      ensures ipc.Out()
           == Requests.Asked(old(ipc.Out()), old(res.restartSignal), NextCookie(old(state)), state.log != old(state).log)
    {
      hide Requests.Asked;
      hide Inv, Dispatch.Run, Mirrors, Ipc.Connection.ValidOut, Ipc.Connection.Out, Ipc.Connection.Queued, Requests.Sent;
      RunKeeps(state, i, v, keep);
      RunLogGrows(state, i, v, keep);
      RunObjects(res, i, v, keep);
      state := Dispatch.Run(state, i, v, keep);
    }

    /** xmmsc_result_parse_msg, up to the stores into the result. */
    method ParseMsg(msg: Message) returns (ok: bool, broken: bool, v: Option<Value>)
      requires msg.Valid()
      modifies msg`getPos
      ensures broken == old(Breaks(msg))
      ensures if broken then !ok else old(ReplyOf(msg)) == if ok then Some(v) else None
    {
      hide Message.Whole, Message.Length, Message.Payload, Wire.GetValue, U32At;
      var cmd := U32At(msg.data[..], 4);
      ok, broken, v := msg.GetValue();
      if cmd == Requests.CMD_ERROR && !broken {
        if !ok {
          v := Some(Error(NO_VALUE));
        } else if v.None? || !v.value.Error? {
          v := Some(Error(NO_MESSAGE));
        }
        ok := true;
      }
    }

    /** xmmsc_result_run */
    method Run(res: Result, ghost i: nat, msg: Message, keep: nat -> bool) returns (broken: bool)
      requires Valid() && i < |results| && results[i] == res && |state.log| < TWO_32
      requires ipc.ValidOut() && msg.Valid() && msg !in ipc.outMsg
      modifies this, res, ipc`outMsg, ipc`frames, msg`getPos
      ensures Valid() && ipc.ValidOut() && broken == old(Breaks(msg))
      ensures var v := old(ReplyOf(msg));
              state == if broken || v.None? then old(state) else Dispatch.Run(old(state), i, v.value, keep)
      ensures ipc.Out()
           == Requests.Asked(old(ipc.Out()), old(res.restartSignal), NextCookie(old(state)), state.log != old(state).log)
    {
      hide Inv, Dispatch.Run, ReplyOf, Breaks, Message.Valid, Ipc.Connection.Out;
      hide Ipc.Connection.Queued, Stream.WfWriter;
      var ok, v;
      ok, broken, v := ParseMsg(msg);
      if ok {
        RunValue(res, i, v, keep);
      }
    }

    /** xmmsc_result_restart: a new request, and its cookie in the old one's place. */
    method Restart(res: Result, ghost i: nat)
      requires i < |results| && results[i] == res && |state.log| < TWO_32 && cookie == NextCookie(state)
      requires forall j :: 0 <= j < |results| && j != i ==> results[j] != res && results[j].cookie < |state.log|
      requires ipc.ValidOut()
      modifies this`cookie, res`cookie, ipc`outMsg, ipc`frames
      ensures res.cookie == old(cookie) && cookie == Low32(old(cookie) + 1)
      ensures forall j :: 0 <= j < |results| && j != i ==> results[j].cookie != res.cookie
      ensures ipc.ValidOut()
      ensures ipc.Out() == Requests.Asked(old(ipc.Out()), res.restartSignal, NextCookie(state), true)
    {
      hide Message.Whole, Message.Length, Message.Frame, Requests.SignalFrame, Requests.Restamped, Requests.Sent;
      hide Ipc.Connection.ValidOut, Ipc.Connection.Out, Ipc.Connection.Queued;
      var msg := SignalMsg(32, res.restartSignal);
      var id := NextId();
      Requests.SignalRestamped(32, res.restartSignal, 0, id);
      WriteMsg(msg, id);
      res.cookie := id;
    }

    /** xmmsc_ipc_exec_msg: a message that has arrived goes to the result of its cookie. */
    method ExecMsg(msg: Message, keep: nat -> bool) returns (broken: bool)
      requires Valid() && |state.log| < TWO_32
      requires ipc.ValidOut() && msg.Valid() && msg !in ipc.outMsg
      modifies this, results, ipc`outMsg, ipc`frames, msg`getPos
      ensures Valid() && ipc.ValidOut()
      ensures var cookie := Requests.CookieOf(old(msg.Frame()));
              && broken == (Lookup(old(state).regs, cookie) < |old(state).regs| && old(Breaks(msg)))
              && state == if broken then old(state) else Reply(old(state), cookie, old(ReplyOf(msg)), keep)
      ensures Requests.Steps(old(state), old(ipc.Out()), state, ipc.Out())
      ensures if state.log == old(state).log then ipc.Out() == old(ipc.Out()) else
              var i := Lookup(old(state).regs, Requests.CookieOf(old(msg.Frame())));
              i < |old(results)| &&
              ipc.Out() == Requests.Asked(old(ipc.Out()), old(results[i].restartSignal), NextCookie(old(state)), true)
    {
      hide Inv, Dispatch.Run, ReplyOf, Breaks, Mirrors, Requests.Sent, Requests.Steps, Requests.CookieOf;
      hide Ipc.Connection.Out, Ipc.Connection.Queued, Stream.WfWriter, Message.Frame, Message.Whole, Lookup;
      ghost var s, w, reply := state, ipc.Out(), ReplyOf(msg);
      var wanted := U32At(msg.data[..], 8);
      FrameCookie(msg);
      var i := ResultLookup(wanted);
      ghost var signal: int32 := 0;
      broken := false;
      if i < |results| {
        signal := results[i].restartSignal;
        broken := Run(results[i], i, msg, keep);
      }
      Requests.AskedIsSent(w, signal, NextCookie(s), state.log != s.log);
      Requests.ReplySteps(s, wanted, if broken then None else reply, keep, w, ipc.Out());
    }
  }

  lemma FrameCookie(msg: Message)
    requires msg.Whole()
    ensures U32At(msg.data[..], 8) == Requests.CookieOf(msg.Frame())
  {
    hide BigWord;
    var f, b := msg.Frame(), msg.data[..];
    assert forall k :: 8 <= k < 12 ==> f[k] == b[k];
  }

  /** The message of xmmsc_write_signal_msg (32), or of xmmsc_send_broadcast_msg (33). */
  method SignalMsg(cmd: byte, signal: int32) returns (msg: Message)
    ensures fresh(msg) && fresh(msg.data) && msg.Whole() && HEAD_LEN + msg.Length() < TWO_32 && msg.xfered == 0
    ensures msg.Frame() == Requests.SignalFrame(cmd, signal, 0)
  {
    hide Message.Whole, Message.Buffer, Message.Length, Message.Payload, Message.Address, PutU32, Wire.EncValue;
    hide Message.Frame, Requests.SignalFrame;
    msg := new Message();
    assert msg.Address()[8..] == [0, 0, 0, 0];
    msg.SetAddress(Requests.OBJECT_SIGNAL, cmd);
    SignalBytes(signal);
    msg.PutValue(List([Int32(signal)]));
    assert [] + Wire.EncValue(List([Int32(signal)])) == Wire.EncValue(List([Int32(signal)]));
    SignalFrameIs(msg, cmd, signal);
  }

  lemma SignalFrameIs(msg: Message, cmd: byte, signal: int32)
    requires msg.Whole() && msg.Payload() == Wire.EncValue(List([Int32(signal)]))
    requires msg.Address()[..8] == PutU32(0) + PutU32(cmd) && msg.Address()[8..] == [0, 0, 0, 0]
    ensures msg.Frame() == Requests.SignalFrame(cmd, signal, 0)
  {
    hide PutU32, Wire.EncValue;
    SignalBytes(signal);
    SmallPut(0);
    SmallPut(cmd);
    var f, a := msg.Frame(), msg.Address();
    assert f[..12] == a[..8] + a[8..];
    assert msg.Length() == 16;
    LengthWord(f, 16);
    assert f == f[..12] + f[12..16] + msg.Payload();
  }

  lemma HeaderOf(msg: Message, cmd: byte, signal: int32)
    requires msg.Whole() && msg.Frame() == Requests.SignalFrame(cmd, signal, 0)
    ensures U32At(msg.data[..], 0) == 0 && U32At(msg.data[..], 4) == cmd
  {
    hide U32At, PutU32;
    var f, b := msg.Frame(), msg.data[..];
    assert f[0..4] == [0, 0, 0, 0] && f[4..8] == [0, 0, 0, cmd];
    assert b[0..4] == f[0..4] && b[4..8] == f[4..8];
    Requests.WordIs(b, 0, 0);
    Requests.WordIs(b, 4, cmd);
  }

  lemma LengthWord(f: seq<byte>, n: byte)
    requires 16 <= |f| && U32At(f, 12) == n
    ensures f[12..16] == [0, 0, 0, n]
  {
    Requests.WordIs(f, 12, n);
  }

  lemma SmallPut(n: byte)
    ensures PutU32(n) == [0, 0, 0, n]
  {
    hide BigWord, BigEndian;
    var w := PutU32(n);
    U32AtPut(w, 0, n);
    Requests.WordIs(w, 0, n);
    assert w[0..4] == w;
  }

  lemma SignalBytes(signal: int32)
    ensures Wire.EncValue(List([Int32(signal)])) == [0, 0, 0, 6, 0, 0, 0, 1, 0, 0, 0, 2] + PutU32(Unsigned(signal))
  {
    hide PutU32;
    var items := [Int32(signal)];
    SmallPut(6);
    SmallPut(1);
    SmallPut(2);
    assert items[1..] == [] && Wire.EncItems([]) == [];
    assert Wire.EncValue(items[0]) == PutU32(2) + PutU32(Unsigned(signal));
    assert Wire.EncItems(items) == Wire.EncValue(items[0]);
  }

  lemma CountsAt(s: State, i: nat)
    requires Inv(s) && i < |s.regs|
    ensures Counted(s.regs[i]) && s.regs[i].ref > 0
  {
  }

  /** No request is made, and one result at most leaves the list. */
  lemma DropSame(s: State, i: nat)
    requires i < |s.regs| && s.regs[i].users > 0
    ensures Drop(s, i).log == s.log && |s.regs| - 1 <= |Drop(s, i).regs| <= |s.regs|
  {
  }

  lemma CountsAfter(s: State, i: nat, v: Option<Value>, keep: nat -> bool)
    requires Inv(s) && i < |s.regs|
    ensures var r := AfterCalls(s.regs[i], v, keep); r.ref >= |r.notifiers|
  {
    CountsAt(s, i);
  }

  lemma KeptNone(kind: Kind, keep: nat -> bool)
    ensures Kept([], kind, keep) == []
  {
  }

  /** The walk: what was kept, then what is still to visit. */
  lemma VisitOne(kept: seq<nat>, ns: seq<nat>, k: nat)
    requires k < |ns|
    ensures var all, n := kept + ns[k..], |kept|;
            && all[n] == ns[k] && ns[..k + 1] == ns[..k] + [ns[k]]
            && all[..n] + all[n + 1..] == kept + ns[k + 1..]
            && all == kept + [ns[k]] + ns[k + 1..]
  {
  }

  lemma RunLogGrows(s: State, i: nat, v: Option<Value>, keep: nat -> bool)
    requires i < |s.regs| && |s.log| < TWO_32
    ensures NoWrap(Dispatch.Run(s, i, v, keep))
  {
    RunLog(s, i, v, keep);
  }

  lemma RunLog(s: State, i: nat, v: Option<Value>, keep: nat -> bool)
    requires i < |s.regs|
    ensures var restart := Kept(s.regs[i].notifiers, s.regs[i].kind, keep) != [] && s.regs[i].kind == Signal;
            Dispatch.Run(s, i, v, keep).log == if restart then s.log + [s.regs[i].id] else s.log
  {
    hide Kept, CallsOf;
  }
}
