/**
 Requests, replies and the lifetime of results, as a state machine on values: what every run keeps.
 Client.dfy updates the objects in place and is proved to take exactly these steps.
 */
module Dispatch {
  import opened Bytes
  import opened Values

  datatype Kind = Default | Signal | Broadcast

  /**
   A registered result.  `id` is its identity; `users` counts the references that the program holds,
   `ref` is the reference count; a notifier is known by a number of its own.
   */
  datatype Res = Res(id: nat, kind: Kind, cookie: uint32, users: nat, ref: int, notifiers: seq<nat>,
                     parsed: bool, data: Option<Value>)

  /** One callback invocation; the value may be null. */
  datatype Call = Call(id: nat, kind: Kind, notifier: nat, value: Option<Value>)

  /**
   `regs` is the results list, newest first; `log[k]` is the result that the k-th request was sent
   for; `hooked` and `born` count the notifiers and results ever made; `calls` is the history of
   callback invocations; `conn` is the connection's reference count.
   */
  datatype State = State(regs: seq<Res>, log: seq<nat>, born: nat, hooked: nat, freed: set<nat>,
                         calls: seq<Call>, conn: int)

  const START: State := State([], [], 0, 0, {}, [], 1)

  // ---------------------------------------------------------------- the operations

  /** xmmsc_next_id */
  function NextCookie(s: State): uint32 { Low32(|s.log|) }

  /** xmmsc_send_msg: a request and a result for it, with one reference for the caller. */
  function Send(s: State, kind: Kind): State {
    var r := Res(s.born, kind, NextCookie(s), 1, 1, [], false, None);
    s.(regs := [r] + s.regs, log := s.log + [s.born], born := s.born + 1, conn := s.conn + 1)
  }

  /** xmmsc_result_notifier_set_full: the pending call takes one reference. */
  function Hook(s: State, i: nat): State
    requires i < |s.regs|
  {
    var r := s.regs[i];
    s.(regs := s.regs[i := r.(ref := r.ref + 1, notifiers := r.notifiers + [s.hooked])], hooked := s.hooked + 1)
  }

  /** xmmsc_result_ref by the program. */
  function Take(s: State, i: nat): State
    requires i < |s.regs|
  {
    var r := s.regs[i];
    s.(regs := s.regs[i := r.(users := r.users + 1, ref := r.ref + 1)])
  }

  /** What happens to a result whose count may have reached zero: it is unregistered and freed. */
  function Settle(s: State, i: nat): State
    requires i < |s.regs|
  {
    if s.regs[i].ref != 0 then s else
    s.(regs := s.regs[..i] + s.regs[i + 1..], freed := s.freed + {s.regs[i].id}, conn := s.conn - 1)
  }

  /** xmmsc_result_unref by the program, which must hold a reference. */
  function Drop(s: State, i: nat): State
    requires i < |s.regs| && s.regs[i].users > 0
  {
    var r := s.regs[i];
    Settle(s.(regs := s.regs[i := r.(users := r.users - 1, ref := r.ref - 1)]), i)
  }

  /** xmmsc_ipc_result_lookup: the first result in the list with that cookie, or the length. */
  function Lookup(regs: seq<Res>, cookie: uint32): (i: nat)
    ensures i <= |regs|
    ensures i < |regs| ==> regs[i].cookie == cookie
    ensures forall j :: 0 <= j < i ==> regs[j].cookie != cookie
  {
    if regs == [] || regs[0].cookie == cookie then 0 else 1 + Lookup(regs[1..], cookie)
  }

  /** The notifiers that stay: those that ask to be kept, and on a default result none. */
  function Kept(ns: seq<nat>, kind: Kind, keep: nat -> bool): (r: seq<nat>)
    ensures |r| <= |ns|
    ensures forall n :: n in r ==> n in ns && kind != Default
  {
    if ns == [] then []
    else (if keep(ns[0]) && kind != Default then [ns[0]] else []) + Kept(ns[1..], kind, keep)
  }

  function CallsOf(r: Res, ns: seq<nat>, v: Option<Value>): (cs: seq<Call>)
    ensures |cs| == |ns|
    ensures forall k :: 0 <= k < |cs| ==> cs[k] == Call(r.id, r.kind, ns[k], v)
  {
    seq(|ns|, k requires 0 <= k < |ns| => Call(r.id, r.kind, ns[k], v))
  }

  /** The result after its notifiers have run, before the guarding reference is given back. */
  function AfterCalls(r: Res, v: Option<Value>, keep: nat -> bool): Res {
    var kept := Kept(r.notifiers, r.kind, keep);
    r.(parsed := true, notifiers := kept, ref := r.ref - (|r.notifiers| - |kept|),
       data := if r.kind == Broadcast then None else v)
  }

  /** A run before the guarding reference is given back. */
  function Guarded(s: State, i: nat, v: Option<Value>, keep: nat -> bool): (s': State)
    requires i < |s.regs|
    ensures |s'.regs| == |s.regs|
  {
    var r := s.regs[i];
    var r1 := AfterCalls(r, v, keep);
    var restart := r1.notifiers != [] && r1.kind == Signal;
    var r2 := if restart then r1.(cookie := NextCookie(s)) else r1;
    s.(regs := s.regs[i := r2],
       log := if restart then s.log + [r.id] else s.log,
       calls := s.calls + CallsOf(r, r.notifiers, v))
  }

  /** xmmsc_result_run on the i-th result with the value that the reply parsed to. */
  function Run(s: State, i: nat, v: Option<Value>, keep: nat -> bool): State
    requires i < |s.regs|
  {
    Settle(Guarded(s, i, v, keep), i)
  }

  /**
   xmmsc_ipc_exec_msg: no result for the cookie, or a reply that does not parse, changes nothing.  A
   reply may parse to the null value; that is a value like any other.
   */
  function Reply(s: State, cookie: uint32, v: Option<Option<Value>>, keep: nat -> bool): State {
    var i := Lookup(s.regs, cookie);
    if i == |s.regs| || v.None? then s else Run(s, i, v.value, keep)
  }

  // ---------------------------------------------------------------- runs

  ghost predicate Step(s: State, s': State) {
    || (exists kind :: s' == Send(s, kind))
    || (exists i :: 0 <= i < |s.regs| && s' == Hook(s, i))
    || (exists i :: 0 <= i < |s.regs| && s' == Take(s, i))
    || (exists i :: 0 <= i < |s.regs| && s.regs[i].users > 0 && s' == Drop(s, i))
    || (exists cookie, v, keep :: s' == Reply(s, cookie, v, keep))
  }

  ghost predicate Reaches(states: seq<State>) {
    && states != [] && states[0] == START
    && forall i :: 0 <= i < |states| - 1 ==> Step(states[i], states[i + 1])
  }

  // ---------------------------------------------------------------- what every run keeps

  /** The count is what the program holds plus one for every pending notifier. */
  predicate Counted(r: Res) { r.ref == r.users + |r.notifiers| }

  /** Every result ever made is either registered, once, or freed. */
  ghost predicate Population(s: State) {
    && (forall i, j :: 0 <= i < j < |s.regs| ==> s.regs[i].id != s.regs[j].id)
    && (forall i :: 0 <= i < |s.regs| ==> s.regs[i].id < s.born && s.regs[i].id !in s.freed)
    && (forall id: nat :: id < s.born ==> id in s.freed || Registered(s.regs, id))
    && (forall id :: id in s.freed ==> id < s.born)
  }

  ghost predicate Registered(regs: seq<Res>, id: nat) { exists i :: 0 <= i < |regs| && regs[i].id == id }

  lemma RegisteredAt(regs: seq<Res>, i: nat)
    requires i < |regs|
    ensures Registered(regs, regs[i].id)
  {
  }

  /** Taking the i-th result out unregisters its id alone. */
  lemma RegisteredWithout(regs: seq<Res>, i: nat, id: nat)
    requires i < |regs| && Registered(regs, id) && regs[i].id != id
    ensures Registered(regs[..i] + regs[i + 1..], id)
  {
    var rest := regs[..i] + regs[i + 1..];
    var j :| 0 <= j < |regs| && regs[j].id == id;
    assert rest[if j < i then j else j - 1] == regs[j];
  }

  ghost predicate Counts(s: State) {
    && (forall i :: 0 <= i < |s.regs| ==> Counted(s.regs[i]) && s.regs[i].ref > 0)
    && s.conn == 1 + |s.regs|
  }

  /** The cookie of a registered result is its latest request. */
  predicate Latest(log: seq<nat>, cookie: nat, id: nat) {
    cookie < |log| && log[cookie] == id && forall k :: cookie < k < |log| ==> log[k] != id
  }

  ghost predicate Cookies(s: State) {
    && (forall k :: 0 <= k < |s.log| ==> s.log[k] < s.born)
    && (|s.log| <= TWO_32 ==> forall i :: 0 <= i < |s.regs| ==> Latest(s.log, s.regs[i].cookie, s.regs[i].id))
  }

  /** A notifier belongs to one result, and on a default result it is gone once it has run. */
  ghost predicate Notifiers(s: State) {
    && (forall i, n :: 0 <= i < |s.regs| && n in s.regs[i].notifiers ==> n < s.hooked)
    && (forall i, j, n :: 0 <= i < j < |s.regs| && n in s.regs[i].notifiers ==> n !in s.regs[j].notifiers)
    && (forall i :: 0 <= i < |s.regs| ==> Distinct(s.regs[i].notifiers))
    && (forall k :: 0 <= k < |s.calls| ==> s.calls[k].notifier < s.hooked)
    && (forall k, i :: 0 <= k < |s.calls| && 0 <= i < |s.regs| && s.calls[k].kind == Default
          ==> s.calls[k].notifier !in s.regs[i].notifiers)
    && OnceEach(s.calls)
  }

  predicate Distinct(ns: seq<nat>) { forall i, j :: 0 <= i < j < |ns| ==> ns[i] != ns[j] }

  /** No notifier of a default result is called twice. */
  predicate OnceEach(calls: seq<Call>) {
    forall j, k :: 0 <= j < k < |calls| && calls[j].kind == Default ==> calls[j].notifier != calls[k].notifier
  }

  ghost predicate Inv(s: State) { Population(s) && Counts(s) && Cookies(s) && Notifiers(s) }

  // ---------------------------------------------------------------- population and counts

  /** One result changed, the others and the history did not. */
  function With(s: State, i: nat, r: Res): State
    requires i < |s.regs|
  {
    s.(regs := s.regs[i := r])
  }

  lemma PopulationWith(s: State, i: nat, r: Res)
    requires Population(s) && i < |s.regs| && r.id == s.regs[i].id
    ensures Population(With(s, i, r))
  {
    hide Registered;
    var s' := With(s, i, r);
    assert forall j :: 0 <= j < |s.regs| ==> s'.regs[j].id == s.regs[j].id;
    forall id: nat | id < s.born && id !in s.freed ensures Registered(s'.regs, id) {
      RegisteredSame(s.regs, s'.regs, id);
    }
  }

  lemma RegisteredSame(regs: seq<Res>, regs': seq<Res>, id: nat)
    requires |regs'| == |regs| && forall j :: 0 <= j < |regs| ==> regs'[j].id == regs[j].id
    ensures Registered(regs, id) ==> Registered(regs', id)
  {
  }

  lemma PopulationSettle(s: State, i: nat)
    requires Population(s) && i < |s.regs|
    ensures Population(Settle(s, i))
  {
    hide Registered;
    var s' := Settle(s, i);
    if s.regs[i].ref == 0 {
      assert forall j :: 0 <= j < |s'.regs| ==> s'.regs[j] == s.regs[if j < i then j else j + 1];
      forall id: nat | id < s.born && id !in s'.freed ensures Registered(s'.regs, id) {
        RegisteredWithout(s.regs, i, id);
      }
    }
  }

  lemma PopulationSend(s: State, kind: Kind)
    requires Population(s)
    ensures Population(Send(s, kind))
  {
    hide Registered;
    var s' := Send(s, kind);
    RegisteredAt(s'.regs, 0);
    forall id: nat | id < s.born && id !in s.freed ensures Registered(s'.regs, id) {
      RegisteredTail(s'.regs, id);
    }
  }

  lemma RegisteredTail(regs: seq<Res>, id: nat)
    requires regs != [] && Registered(regs[1..], id)
    ensures Registered(regs, id)
  {
    var j :| 0 <= j < |regs[1..]| && regs[1..][j].id == id;
    assert regs[j + 1].id == id;
  }

  /** Giving a reference back ends a result exactly when it was the last one. */
  lemma CountsSettle(s: State, i: nat, r: Res)
    requires Counts(s) && i < |s.regs| && Counted(r)
    ensures Counts(Settle(With(s, i, r), i))
  {
    var t := With(s, i, r);
    var s' := Settle(t, i);
    if r.ref == 0 {
      assert forall j :: 0 <= j < |s'.regs| ==> s'.regs[j] == t.regs[if j < i then j else j + 1];
    }
  }

  // ---------------------------------------------------------------- cookies

  /** Fewer requests so far than cookies. */
  predicate NoWrap(s: State) { |s.log| <= TWO_32 }

  lemma CookiesWith(s: State, i: nat, r: Res)
    requires Cookies(s) && i < |s.regs| && r.id == s.regs[i].id && r.cookie == s.regs[i].cookie
    ensures Cookies(With(s, i, r))
  {
    hide Latest;
    var s' := With(s, i, r);
    assert forall j :: 0 <= j < |s.regs| ==> s'.regs[j].id == s.regs[j].id && s'.regs[j].cookie == s.regs[j].cookie;
  }

  lemma CookiesSettle(s: State, i: nat)
    requires Cookies(s) && i < |s.regs|
    ensures Cookies(Settle(s, i))
  {
    hide Latest;
    var s' := Settle(s, i);
    if s.regs[i].ref == 0 {
      assert forall j :: 0 <= j < |s'.regs| ==> s'.regs[j] == s.regs[if j < i then j else j + 1];
    }
  }

  lemma LatestGrows(log: seq<nat>, cookie: nat, id: nat, other: nat)
    requires Latest(log, cookie, id) && other != id
    ensures Latest(log + [other], cookie, id)
  {
  }

  lemma LatestNew(log: seq<nat>, id: nat)
    ensures Latest(log + [id], |log|, id)
  {
  }

  /** A new request for the i-th result (a restart): its cookie becomes the new one, in place. */
  lemma CookiesRestart(s: State, i: nat, r: Res)
    requires Cookies(s) && Population(s) && i < |s.regs|
    requires r.id == s.regs[i].id && r.cookie == NextCookie(s)
    ensures Cookies(With(s, i, r).(log := s.log + [r.id]))
  {
    hide Latest;
    var s' := With(s, i, r).(log := s.log + [r.id]);
    if |s'.log| <= TWO_32 {
      forall j | 0 <= j < |s'.regs| ensures Latest(s'.log, s'.regs[j].cookie, s'.regs[j].id) {
        if j == i {
          LatestNew(s.log, r.id);
        } else {
          LatestGrows(s.log, s.regs[j].cookie, s.regs[j].id, r.id);
        }
      }
    }
  }

  lemma CookiesSend(s: State, kind: Kind)
    requires Cookies(s) && Population(s)
    ensures Cookies(Send(s, kind))
  {
    hide Latest;
    var s' := Send(s, kind);
    if |s'.log| <= TWO_32 {
      forall j | 0 <= j < |s'.regs| ensures Latest(s'.log, s'.regs[j].cookie, s'.regs[j].id) {
        if j == 0 {
          LatestNew(s.log, s.born);
        } else {
          assert s'.regs[j] == s.regs[j - 1];
          LatestGrows(s.log, s.regs[j - 1].cookie, s.regs[j - 1].id, s.born);
        }
      }
    }
  }

  // ---------------------------------------------------------------- notifiers

  lemma {:induction false} KeptDistinct(ns: seq<nat>, kind: Kind, keep: nat -> bool)
    requires Distinct(ns)
    ensures Distinct(Kept(ns, kind, keep))
  {
    if ns != [] {
      var rest := Kept(ns[1..], kind, keep);
      KeptDistinct(ns[1..], kind, keep);
      forall k | 0 <= k < |rest| ensures ns[0] != rest[k] {
        assert rest[k] in rest && rest[k] in ns[1..];
      }
    }
  }

  lemma {:induction false} KeptAppend(ns: seq<nat>, n: nat, kind: Kind, keep: nat -> bool)
    ensures Kept(ns + [n], kind, keep) == Kept(ns, kind, keep) + if keep(n) && kind != Default then [n] else []
  {
    if ns == [] {
      assert [] + [n] == [n] && [n][1..] == [];
    } else {
      assert (ns + [n])[1..] == ns[1..] + [n];
      KeptAppend(ns[1..], n, kind, keep);
    }
  }

  /** A result whose notifiers are among those it had. */
  lemma NotifiersWith(s: State, i: nat, r: Res)
    requires Notifiers(s) && i < |s.regs|
    requires Distinct(r.notifiers) && forall n :: n in r.notifiers ==> n in s.regs[i].notifiers
    ensures Notifiers(With(s, i, r))
  {
    hide OnceEach, Distinct;
    var s' := With(s, i, r);
    forall j, n | 0 <= j < |s'.regs| && n in s'.regs[j].notifiers ensures n in s.regs[j].notifiers {
    }
  }

  lemma NotifiersSettle(s: State, i: nat)
    requires Notifiers(s) && i < |s.regs|
    ensures Notifiers(Settle(s, i))
  {
    hide OnceEach, Distinct;
    var s' := Settle(s, i);
    if s.regs[i].ref == 0 {
      assert forall j :: 0 <= j < |s'.regs| ==> s'.regs[j] == s.regs[if j < i then j else j + 1];
    }
  }

  lemma NotifiersHook(s: State, i: nat)
    requires Notifiers(s) && i < |s.regs|
    ensures Notifiers(Hook(s, i))
  {
    hide OnceEach;
    var s' := Hook(s, i);
    var ns := s.regs[i].notifiers;
    assert s'.regs[i].notifiers == ns + [s.hooked];
    forall j, n | 0 <= j < |s'.regs| && n in s'.regs[j].notifiers
      ensures n in s.regs[j].notifiers || (j == i && n == s.hooked)
    {
    }
    assert Distinct(ns + [s.hooked]) by {
      assert Distinct(ns) && forall k :: 0 <= k < |ns| ==> ns[k] in ns;
    }
  }

  lemma NotifiersSend(s: State, kind: Kind)
    requires Notifiers(s)
    ensures Notifiers(Send(s, kind))
  {
    hide OnceEach;
    var s' := Send(s, kind);
    assert s'.regs[0].notifiers == [];
    assert forall j :: 1 <= j < |s'.regs| ==> s'.regs[j] == s.regs[j - 1];
  }

  /** The calls of one run join the history; the called notifiers of a default result are gone. */
  lemma NotifiersCalled(s: State, i: nat, r: Res, v: Option<Value>, keep: nat -> bool)
    requires Notifiers(s) && i < |s.regs| && r.id == s.regs[i].id && r.kind == s.regs[i].kind
    requires r.notifiers == Kept(s.regs[i].notifiers, r.kind, keep)
    ensures Notifiers(With(s, i, r).(calls := s.calls + CallsOf(s.regs[i], s.regs[i].notifiers, v)))
  {
    var old_ := s.regs[i];
    KeptDistinct(old_.notifiers, r.kind, keep);
    NotifiersWith(s, i, r);
    var cs := CallsOf(old_, old_.notifiers, v);
    var s' := With(s, i, r).(calls := s.calls + cs);
    forall k | 0 <= k < |cs| ensures cs[k].notifier in old_.notifiers && cs[k].kind == old_.kind {
      assert old_.notifiers[k] in old_.notifiers;
    }
    forall k, j | 0 <= k < |s'.calls| && 0 <= j < |s'.regs| && s'.calls[k].kind == Default
      ensures s'.calls[k].notifier !in s'.regs[j].notifiers
    {
      if k >= |s.calls| {
        var c := cs[k - |s.calls|];
        assert c.notifier in s.regs[i].notifiers;
      }
    }
    OnceMore(s, i, cs);
  }

  lemma OnceMore(s: State, i: nat, cs: seq<Call>)
    requires Notifiers(s) && i < |s.regs| && |cs| == |s.regs[i].notifiers|
    requires forall k :: 0 <= k < |cs| ==> cs[k].notifier == s.regs[i].notifiers[k]
    ensures OnceEach(s.calls + cs)
  {
    var all, ns := s.calls + cs, s.regs[i].notifiers;
    forall j, k | 0 <= j < k < |all| && all[j].kind == Default ensures all[j].notifier != all[k].notifier {
      if k >= |s.calls| {
        assert all[k] == cs[k - |s.calls|];
        assert ns[k - |s.calls|] in ns;
        if j >= |s.calls| {
          assert all[j] == cs[j - |s.calls|];
          assert Distinct(ns);
        }
      }
    }
  }

  // ---------------------------------------------------------------- every step

  lemma SendKeeps(s: State, kind: Kind)
    requires Inv(s)
    ensures Inv(Send(s, kind))
  {
    hide Population, Cookies, Notifiers;
    PopulationSend(s, kind);
    CookiesSend(s, kind);
    NotifiersSend(s, kind);
    var s' := Send(s, kind);
    assert forall j :: 1 <= j < |s'.regs| ==> s'.regs[j] == s.regs[j - 1];
  }

  lemma HookKeeps(s: State, i: nat)
    requires Inv(s) && i < |s.regs|
    ensures Inv(Hook(s, i))
  {
    hide Population, Cookies, Notifiers;
    var r := s.regs[i].(ref := s.regs[i].ref + 1, notifiers := s.regs[i].notifiers + [s.hooked]);
    PopulationWith(s, i, r);
    CookiesWith(s, i, r);
    NotifiersHook(s, i);
    HookedIsWith(s, i, r);
  }

  lemma HookedIsWith(s: State, i: nat, r: Res)
    requires i < |s.regs| && r == s.regs[i].(ref := s.regs[i].ref + 1, notifiers := s.regs[i].notifiers + [s.hooked])
    ensures Hook(s, i) == With(s, i, r).(hooked := s.hooked + 1)
    ensures Population(With(s, i, r)) ==> Population(Hook(s, i))
    ensures Cookies(With(s, i, r)) ==> Cookies(Hook(s, i))
  {
    hide Latest;
  }

  lemma TakeKeeps(s: State, i: nat)
    requires Inv(s) && i < |s.regs|
    ensures Inv(Take(s, i))
  {
    hide Population, Cookies, Notifiers;
    var r := s.regs[i].(users := s.regs[i].users + 1, ref := s.regs[i].ref + 1);
    assert Take(s, i) == With(s, i, r);
    PopulationWith(s, i, r);
    CookiesWith(s, i, r);
    SameNotifiers(s, i);
    NotifiersWith(s, i, r);
  }

  lemma SameNotifiers(s: State, i: nat)
    requires Notifiers(s) && i < |s.regs|
    ensures Distinct(s.regs[i].notifiers)
  {
  }

  lemma DropKeeps(s: State, i: nat)
    requires Inv(s) && i < |s.regs| && s.regs[i].users > 0
    ensures Inv(Drop(s, i))
  {
    hide Population, Cookies, Notifiers, Settle;
    var r := s.regs[i].(users := s.regs[i].users - 1, ref := s.regs[i].ref - 1);
    PopulationWith(s, i, r);
    CookiesWith(s, i, r);
    SameNotifiers(s, i);
    NotifiersWith(s, i, r);
    var t := With(s, i, r);
    assert Drop(s, i) == Settle(t, i);
    PopulationSettle(t, i);
    CookiesSettle(t, i);
    NotifiersSettle(t, i);
    CountsSettle(s, i, r);
  }

  /** The state right before the guarding reference of a run is given back. */
  function Ran(s: State, i: nat, v: Option<Value>, keep: nat -> bool): State
    requires i < |s.regs|
  {
    var r := s.regs[i];
    var r1 := AfterCalls(r, v, keep);
    var restart := r1.notifiers != [] && r1.kind == Signal;
    With(s, i, if restart then r1.(cookie := NextCookie(s)) else r1)
      .(log := if restart then s.log + [r.id] else s.log, calls := s.calls + CallsOf(r, r.notifiers, v))
  }

  /** Inside a run the count is never zero: the run holds a reference of its own. */
  lemma GuardHolds(s: State, i: nat, v: Option<Value>, keep: nat -> bool, n: nat)
    requires Inv(s) && i < |s.regs| && n <= |s.regs[i].notifiers|
    ensures var r := s.regs[i];
            var deleted := n - |Kept(r.notifiers[..n], r.kind, keep)|;
            r.ref + 1 - deleted > 0
    ensures Counted(AfterCalls(s.regs[i], v, keep))
  {
    hide Population, Cookies, Notifiers;
  }

  lemma RunKeeps(s: State, i: nat, v: Option<Value>, keep: nat -> bool)
    requires Inv(s) && i < |s.regs|
    ensures Inv(Run(s, i, v, keep))
  {
    hide Population, Cookies, Notifiers, Settle, Kept, CallsOf, NextCookie;
    var r := s.regs[i];
    var r1 := AfterCalls(r, v, keep);
    var restart := r1.notifiers != [] && r1.kind == Signal;
    var r2 := if restart then r1.(cookie := NextCookie(s)) else r1;
    var cs := CallsOf(r, r.notifiers, v);
    var t := Ran(s, i, v, keep);
    GuardHolds(s, i, v, keep, 0);
    PopulationWith(s, i, r2);
    NotifiersCalled(s, i, r2, v, keep);
    if restart {
      CookiesRestart(s, i, r2);
    } else {
      CookiesWith(s, i, r2);
    }
    HistoryAside(With(s, i, r2), t.log, cs);
    PopulationSettle(t, i);
    CookiesSettle(t, i);
    NotifiersSettle(t, i);
    CountsSettle(s, i, r2);
    SettleAside(With(s, i, r2), t, i);
    assert Run(s, i, v, keep) == Settle(t, i);
  }

  /** The request log and the call history are separate matters. */
  lemma HistoryAside(s: State, log: seq<nat>, cs: seq<Call>)
    ensures var t := s.(log := log, calls := s.calls + cs);
            && (Population(s) ==> Population(t))
            && (Cookies(s.(log := log)) ==> Cookies(t))
            && (Notifiers(s.(calls := s.calls + cs)) ==> Notifiers(t))
  {
    hide Latest, OnceEach, Distinct;
  }

  lemma SettleAside(s: State, t: State, i: nat)
    requires i < |s.regs| && t.regs == s.regs && t.conn == s.conn
    ensures Counts(Settle(s, i)) ==> Counts(Settle(t, i))
  {
    hide Counted;
  }

  lemma StepKeeps(s: State, s': State)
    requires Inv(s) && Step(s, s')
    ensures Inv(s')
  {
    hide Inv, Send, Hook, Take, Drop, Run;
    if kind :| s' == Send(s, kind) {
      SendKeeps(s, kind);
    } else if i :| 0 <= i < |s.regs| && s' == Hook(s, i) {
      HookKeeps(s, i);
    } else if i :| 0 <= i < |s.regs| && s' == Take(s, i) {
      TakeKeeps(s, i);
    } else if i :| 0 <= i < |s.regs| && s.regs[i].users > 0 && s' == Drop(s, i) {
      DropKeeps(s, i);
    } else {
      var cookie, v, keep :| s' == Reply(s, cookie, v, keep);
      var i := Lookup(s.regs, cookie);
      if i < |s.regs| && v.Some? {
        RunKeeps(s, i, v.value, keep);
      }
    }
  }

  lemma {:induction false} ReachesKeeps(states: seq<State>)
    requires Reaches(states)
    ensures Inv(states[|states| - 1])
  {
    hide Step;
    if |states| > 1 {
      hide Inv;
      var before := states[..|states| - 1];
      ReachesKeeps(before);
      assert before[|before| - 1] == states[|states| - 2];
      StepKeeps(states[|states| - 2], states[|states| - 1]);
    }
  }

  // ---------------------------------------------------------------- the theorems

  /** A result is found by a cookie exactly when its latest request carried that cookie. */
  lemma LookupIsLatest(s: State, i: nat, cookie: uint32)
    requires Cookies(s) && Population(s) && NoWrap(s) && i < |s.regs|
    ensures Lookup(s.regs, cookie) == i <==> Latest(s.log, cookie, s.regs[i].id)
  {
    var j := Lookup(s.regs, cookie);
    assert Latest(s.log, s.regs[i].cookie, s.regs[i].id);
    if j < |s.regs| {
      assert Latest(s.log, s.regs[j].cookie, s.regs[j].id);
    }
  }

  /**
   Cookie dispatch, in every reachable state with no more than 2^32 requests: cookies of registered
   results are pairwise distinct and already issued, and a reply reaches the one result whose latest
   request carried its cookie - also after restarts have replaced cookies in place.
   */
  lemma CookieDispatch(states: seq<State>)
    requires Reaches(states) && NoWrap(states[|states| - 1])
    ensures var s := states[|states| - 1];
            && (forall i, j :: 0 <= i < j < |s.regs| ==> s.regs[i].cookie != s.regs[j].cookie)
            && (forall i :: 0 <= i < |s.regs| ==> s.regs[i].cookie < |s.log|)
            && (forall i, cookie: uint32 {:trigger Latest(s.log, cookie, s.regs[i].id)} :: 0 <= i < |s.regs| ==>
                  (Lookup(s.regs, cookie) == i <==> Latest(s.log, cookie, s.regs[i].id)))
  {
    ReachesKeeps(states);
    var s := states[|states| - 1];
    forall i, cookie: uint32 | 0 <= i < |s.regs|
      ensures Lookup(s.regs, cookie) == i <==> Latest(s.log, cookie, s.regs[i].id)
    {
      LookupIsLatest(s, i, cookie);
    }
    hide Population, Counts, Notifiers;
    forall i, j | 0 <= i < j < |s.regs| ensures s.regs[i].cookie != s.regs[j].cookie {
      assert Latest(s.log, s.regs[i].cookie, s.regs[i].id) && Latest(s.log, s.regs[j].cookie, s.regs[j].id);
      assert s.regs[i].id != s.regs[j].id by { DistinctIds(s, i, j); }
    }
  }

  lemma DistinctIds(s: State, i: nat, j: nat)
    requires Population(s) && i < j < |s.regs|
    ensures s.regs[i].id != s.regs[j].id
  {
  }

  /**
   Result lifetime, in every reachable state: the count of a registered result is the program's
   references plus its pending notifiers, and positive; a result is freed exactly when it is no
   longer registered; and no notifier of a default result has been called twice.
   */
  lemma ResultLifetime(states: seq<State>)
    requires Reaches(states)
    ensures var s := states[|states| - 1];
            && (forall i :: 0 <= i < |s.regs| ==>
                  s.regs[i].ref == s.regs[i].users + |s.regs[i].notifiers| && s.regs[i].ref > 0)
            && (forall id: nat :: id < s.born ==>
                  (id in s.freed <==> forall i :: 0 <= i < |s.regs| ==> s.regs[i].id != id))
            && s.conn == 1 + |s.regs|
            && OnceEach(s.calls)
  {
    ReachesKeeps(states);
    hide OnceEach, Cookies;
    var s := states[|states| - 1];
    forall i | 0 <= i < |s.regs| ensures Registered(s.regs, s.regs[i].id) { RegisteredAt(s.regs, i); }
  }

  /** Dropping a reference frees the result exactly when it was the last one and no notifier is pending. */
  lemma DropFrees(s: State, i: nat)
    requires Inv(s) && i < |s.regs| && s.regs[i].users > 0
    ensures var r := s.regs[i];
            r.id in Drop(s, i).freed <==> r.users == 1 && r.notifiers == []
  {
    hide Cookies, Notifiers;
  }

  /** A run frees its result exactly when the program holds no reference and no notifier stays. */
  lemma RunFrees(s: State, i: nat, v: Option<Value>, keep: nat -> bool)
    requires Inv(s) && i < |s.regs|
    ensures var r := s.regs[i];
            r.id in Run(s, i, v, keep).freed <==> r.users == 0 && Kept(r.notifiers, r.kind, keep) == []
  {
    hide Cookies, Notifiers, Kept, NextCookie;
  }

  /** A reply calls every notifier of its result, in order, and no other; other results stay as they are. */
  lemma ReplyReaches(s: State, i: nat, cookie: uint32, v: Option<Value>, keep: nat -> bool)
    requires Inv(s) && NoWrap(s) && i < |s.regs| && Latest(s.log, cookie, s.regs[i].id)
    ensures var s' := Reply(s, cookie, Some(v), keep);
            && s'.calls == s.calls + CallsOf(s.regs[i], s.regs[i].notifiers, v)
            && forall r :: r in s.regs && r.id != s.regs[i].id ==> r in s'.regs
  {
    LookupIsLatest(s, i, cookie);
    hide Inv, Run, CallsOf, Latest;
    forall r | r in s.regs && r.id != s.regs[i].id ensures r in Run(s, i, v, keep).regs {
      var j :| 0 <= j < |s.regs| && s.regs[j] == r;
      OthersStay(s, i, v, keep, j);
    }
    RunCalls(s, i, v, keep);
  }

  lemma OthersStay(s: State, i: nat, v: Option<Value>, keep: nat -> bool, j: nat)
    requires i < |s.regs| && j < |s.regs| && i != j
    ensures s.regs[j] in Run(s, i, v, keep).regs
  {
    hide AfterCalls, CallsOf, NextCookie;
    var s' := Run(s, i, v, keep);
    if |s'.regs| == |s.regs| {
      assert s'.regs[j] == s.regs[j];
    } else {
      assert s'.regs[if j < i then j else j - 1] == s.regs[j];
    }
  }

  lemma RunCalls(s: State, i: nat, v: Option<Value>, keep: nat -> bool)
    requires i < |s.regs|
    ensures Run(s, i, v, keep).calls == s.calls + CallsOf(s.regs[i], s.regs[i].notifiers, v)
  {
    hide AfterCalls, CallsOf, NextCookie;
  }

  /** A reply whose cookie is nobody's latest request changes nothing. */
  lemma StaleReplyIgnored(s: State, cookie: uint32, v: Option<Option<Value>>, keep: nat -> bool)
    requires Inv(s) && NoWrap(s)
    requires forall i :: 0 <= i < |s.regs| ==> !Latest(s.log, cookie, s.regs[i].id)
    ensures Reply(s, cookie, v, keep) == s
  {
    forall i | 0 <= i < |s.regs| ensures s.regs[i].cookie != cookie {
      assert Latest(s.log, s.regs[i].cookie, s.regs[i].id);
    }
  }

  /** Restarting a signal: the reply's cookie is retired and the result answers to a fresh one. */
  lemma RestartReplacesCookie(s: State, i: nat, v: Option<Value>, keep: nat -> bool)
    requires Inv(s) && |s.log| < TWO_32 && i < |s.regs|
    requires s.regs[i].kind == Signal && Kept(s.regs[i].notifiers, Signal, keep) != []
    ensures var s' := Run(s, i, v, keep);
            && i < |s'.regs| && s'.regs[i].id == s.regs[i].id && s'.regs[i].cookie == |s.log|
            && Lookup(s'.regs, s'.regs[i].cookie) == i
            && Lookup(s'.regs, s.regs[i].cookie) == |s'.regs|
  {
    var s' := Run(s, i, v, keep);
    RunKeeps(s, i, v, keep);
    hide Kept;
    LookupIsLatest(s', i, s'.regs[i].cookie);
    var j := Lookup(s'.regs, s.regs[i].cookie);
    assert Latest(s.log, s.regs[i].cookie, s.regs[i].id);
    if j < |s'.regs| {
      LookupIsLatest(s', j, s.regs[i].cookie);
      assert false;
    }
  }
}
