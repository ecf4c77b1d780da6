/**
 What the list operations mean: edits of a sequence, and where each edit takes a position.
 ValueList.dfy is the array with live iterators that carries these out in place.
 */
module Lists {
  import opened Bytes

  datatype Edit =
    | Insertion(at: nat)
    | Removal(at: nat)
    | Move(from: nat, to: nat)
    | Clearing

  /** Negative positions count from the end; `append` also admits the slot after the last. */
  function Absolute(pos: int, size: nat, append: bool): Option<nat> {
    if pos < 0 && -pos > size then None
    else
      var p := if pos < 0 then size + pos else pos;
      if p > size || (!append && p == size) then None else Some(p)
  }

  /** Every slot has exactly two names, its index and its distance from the end. */
  lemma AbsoluteNames(pos: int, size: nat, append: bool, p: nat)
    ensures Absolute(pos, size, append) == Some(p)
      <==> (pos == p || pos == p - size) && p < size + (if append && pos == p then 1 else 0)
  {
  }

  function Inserted<T>(s: seq<T>, p: nat, v: T): seq<T>
    requires p <= |s|
  {
    s[..p] + [v] + s[p..]
  }

  function Removed<T>(s: seq<T>, p: nat): seq<T>
    requires p < |s|
  {
    s[..p] + s[p + 1..]
  }

  function Moved<T>(s: seq<T>, from: nat, to: nat): seq<T>
    requires from < |s| && to < |s|
  {
    Inserted(Removed(s, from), to, s[from])
  }

  predicate Allowed(e: Edit, size: nat) {
    match e
    case Insertion(p) => p <= size
    case Removal(p) => p < size
    case Move(i, j) => i < size && j < size
    case Clearing => true
  }

  /** The edited sequence; `v` is what an insertion inserts. */
  function Apply<T>(e: Edit, s: seq<T>, v: T): seq<T>
    requires Allowed(e, |s|)
  {
    match e
    case Insertion(p) => Inserted(s, p, v)
    case Removal(p) => Removed(s, p)
    case Move(i, j) => Moved(s, i, j)
    case Clearing => []
  }

  /** Where an iterator at `q` stands after the edit. */
  function Follow(e: Edit, q: int): int {
    match e
    case Insertion(p) => if q > p then q + 1 else q
    case Removal(p) => if q > p then q - 1 else q
    case Move(i, j) =>
      if q == i then j
      else if i < j && i <= q <= j then q - 1
      else if i >= j && j <= q <= i then q + 1
      else q
    case Clearing => 0
  }

  ghost predicate InRange(q: int, size: nat) { -1 <= q <= size }

  lemma FollowStaysInRange<T>(e: Edit, s: seq<T>, v: T, q: int)
    requires Allowed(e, |s|) && InRange(q, |s|)
    ensures InRange(Follow(e, q), |Apply(e, s, v)|)
  {
  }

  /** The edits that keep the iterator at `q` on the element it stands on. */
  predicate Spares(e: Edit, q: int) {
    match e
    case Insertion(p) => q != p
    case Removal(p) => q != p
    case Move(_, _) => true
    case Clearing => false
  }

  lemma InsertedAt<T>(s: seq<T>, p: nat, v: T, k: nat)
    requires p <= |s| && k <= |s|
    ensures |Inserted(s, p, v)| == |s| + 1
    ensures Inserted(s, p, v)[k] == if k < p then s[k] else if k == p then v else s[k - 1]
  {
  }

  /** The edited list at the place the iterator was taken to. */
  lemma MovedAt<T>(s: seq<T>, i: nat, j: nat, q: nat)
    requires i < |s| && j < |s| && q < |s|
    ensures |Moved(s, i, j)| == |s|
    ensures 0 <= Follow(Move(i, j), q) < |s|
    ensures Moved(s, i, j)[Follow(Move(i, j), q)] == s[q]
  {
    InsertedAt(Removed(s, i), j, s[i], Follow(Move(i, j), q));
  }

  lemma InsertedSlots<T>(s: seq<T>, p: nat, v: T, r: seq<T>)
    requires p <= |s| && |r| == |s| + 1
    requires forall k {:trigger r[k]} :: 0 <= k < |r| ==> r[k] == if k < p then s[k] else if k == p then v else s[k - 1]
    ensures r == Inserted(s, p, v)
  {
    forall k | 0 <= k < |r| ensures r[k] == Inserted(s, p, v)[k] { }
  }

  lemma RemovedSlots<T>(s: seq<T>, p: nat, r: seq<T>)
    requires p < |s| && |r| == |s| - 1
    requires forall k {:trigger r[k]} :: 0 <= k < |r| ==> r[k] == if k < p then s[k] else s[k + 1]
    ensures r == Removed(s, p)
  {
    forall k | 0 <= k < |r| ensures r[k] == Removed(s, p)[k] { }
  }

  /** The moved list slot by slot: the elements between the two places shift by one. */
  function MovedSlot<T>(s: seq<T>, i: nat, j: nat, k: nat): T
    requires i < |s| && j < |s| && k < |s|
  {
    if k == j then s[i]
    else if i <= k < j then s[k + 1]
    else if j < k <= i then s[k - 1]
    else s[k]
  }

  lemma MovedSlots<T>(s: seq<T>, i: nat, j: nat, r: seq<T>)
    requires i < |s| && j < |s| && |r| == |s|
    requires forall k {:trigger r[k]} :: 0 <= k < |s| ==> r[k] == MovedSlot(s, i, j, k)
    ensures r == Moved(s, i, j)
  {
    forall k | 0 <= k < |s| ensures |Moved(s, i, j)| == |s| && r[k] == Moved(s, i, j)[k] {
      InsertedAt(Removed(s, i), j, s[i], k);
    }
    assert |Moved(s, i, j)| == |s| by { InsertedAt(Removed(s, i), j, s[i], 0); }
  }

  /**
   An edit that spares the position keeps the iterator on its element; one inserted at the
   position is what the iterator then sees; removal hands the iterator to the successor.
   */
  lemma FollowElement<T>(e: Edit, s: seq<T>, v: T, q: nat)
    requires Allowed(e, |s|) && q < |s|
    ensures
      var r, t := Apply(e, s, v), Follow(e, q);
      && (Spares(e, q) ==> 0 <= t < |r| && r[t] == s[q])
      && (e == Insertion(q) ==> t < |r| && r[t] == v)
      && (e == Removal(q) ==> r[t..] == s[q + 1..])
      && (e == Clearing ==> t == |r|)
  {
    match e {
      case Insertion(p) => InsertedAt(s, p, v, Follow(e, q));
      case Removal(p) =>
      case Move(i, j) => MovedAt(s, i, j, q);
      case Clearing =>
    }
  }

  /** On a list without repetition the edits that lose the element are exactly the others. */
  lemma SparesExactly<T>(e: Edit, s: seq<T>, v: T, q: nat)
    requires Allowed(e, |s|) && q < |s| && v !in s
    requires forall a, b :: 0 <= a < b < |s| ==> s[a] != s[b]
    ensures
      var r, t := Apply(e, s, v), Follow(e, q);
      Spares(e, q) <==> 0 <= t < |r| && r[t] == s[q]
  {
    FollowElement(e, s, v, q);
    if e == Removal(q) && q < |Apply(e, s, v)| {
      assert Apply(e, s, v)[q] == s[q + 1..][0];
    }
  }

  /** Moving back restores the list and every iterator. */
  lemma MoveBack<T>(s: seq<T>, i: nat, j: nat)
    requires i < |s| && j < |s|
    ensures |Moved(s, i, j)| == |s| && Moved(Moved(s, i, j), j, i) == s
    ensures forall q :: Follow(Move(j, i), Follow(Move(i, j), q)) == q
  {
    var m := Moved(s, i, j);
    MovedAt(s, i, j, i);
    var back := Moved(m, j, i);
    assert |back| == |s|;
    forall q | 0 <= q < |s| ensures back[q] == s[q] {
      MovedAt(s, i, j, q);
      MovedAt(m, j, i, Follow(Move(i, j), q));
    }
  }

  /** Removing what was inserted restores the list and every iterator. */
  lemma RemoveUndoesInsert<T>(s: seq<T>, p: nat, v: T)
    requires p <= |s|
    ensures p < |Inserted(s, p, v)| && Removed(Inserted(s, p, v), p) == s
    ensures forall q :: Follow(Removal(p), Follow(Insertion(p), q)) == q
  {
  }

  /** The other way round one iterator is lost: the one that stood on the successor. */
  lemma InsertUndoesRemove<T>(s: seq<T>, p: nat, q: int)
    requires p < |s|
    ensures Inserted(Removed(s, p), p, s[p]) == s
    ensures Follow(Insertion(p), Follow(Removal(p), q)) == q <==> q != p + 1
  {
  }

  lemma InsertedConserves<T>(s: seq<T>, p: nat, v: T)
    requires p <= |s|
    ensures multiset(Inserted(s, p, v)) == multiset(s) + multiset{v}
  {
    assert s == s[..p] + s[p..];
  }

  lemma RemovedConserves<T>(s: seq<T>, p: nat)
    requires p < |s|
    ensures |Removed(s, p)| == |s| - 1 && s[p] in multiset(s)
    ensures multiset(Removed(s, p)) == multiset(s) - multiset{s[p]}
  {
    assert s == s[..p] + [s[p]] + s[p + 1..];
  }

  /** No edit makes up or loses elements beyond the one it names. */
  lemma EditsConserve<T>(e: Edit, s: seq<T>, v: T)
    requires Allowed(e, |s|) && e != Clearing
    ensures multiset(Apply(e, s, v)) == match e
      case Insertion(_) => multiset(s) + multiset{v}
      case Removal(p) => multiset(s) - multiset{s[p]}
      case Move(_, _) => multiset(s)
  {
    hide Inserted, Removed;
    match e {
      case Insertion(p) => InsertedConserves(s, p, v);
      case Removal(p) => RemovedConserves(s, p);
      case Move(i, j) =>
        RemovedConserves(s, i);
        InsertedConserves(Removed(s, i), j, s[i]);
    }
  }

  /** A run of edits, each with the value it would insert. */
  ghost predicate AllowedRun<T>(es: seq<(Edit, T)>, s: seq<T>) {
    es == [] || (Allowed(es[0].0, |s|) && AllowedRun(es[1..], Apply(es[0].0, s, es[0].1)))
  }

  ghost function ApplyRun<T>(es: seq<(Edit, T)>, s: seq<T>): seq<T>
    requires AllowedRun(es, s)
  {
    if es == [] then s else ApplyRun(es[1..], Apply(es[0].0, s, es[0].1))
  }

  ghost function FollowRun<T>(es: seq<(Edit, T)>, q: int): int {
    if es == [] then q else FollowRun(es[1..], Follow(es[0].0, q))
  }

  ghost predicate SparesRun<T>(es: seq<(Edit, T)>, q: int) {
    es == [] || (Spares(es[0].0, q) && SparesRun(es[1..], Follow(es[0].0, q)))
  }

  /** Over a whole run an iterator never leaves [-1, size], and stays on an element it is not evicted from. */
  lemma {:induction false} IteratorsFollow<T>(es: seq<(Edit, T)>, s: seq<T>, q: int)
    requires AllowedRun(es, s) && InRange(q, |s|)
    ensures InRange(FollowRun(es, q), |ApplyRun(es, s)|)
    ensures 0 <= q < |s| && SparesRun(es, q) ==>
      var t := FollowRun(es, q);
      0 <= t < |ApplyRun(es, s)| && ApplyRun(es, s)[t] == s[q]
  {
    hide Apply, Follow, Spares;
    if es != [] {
      var (e, v) := es[0];
      FollowStaysInRange(e, s, v, q);
      if 0 <= q < |s| {
        FollowElement(e, s, v, q);
      }
      IteratorsFollow(es[1..], Apply(e, s, v), Follow(e, q));
    }
  }

  predicate PowerOfTwo(c: nat) {
    c == 1 || (c > 1 && c % 2 == 0 && PowerOfTwo(c / 2))
  }

  /** The slots a list of `n` elements has allocated: none, or the least power of two that fits. */
  predicate IsCapacity(c: nat, n: nat) {
    if n == 0 then c == 0 else PowerOfTwo(c) && n <= c < 2 * n
  }

  lemma CapacityIsLeast(c: nat, n: nat, p: nat)
    requires IsCapacity(c, n) && PowerOfTwo(p) && n <= p && n > 0
    ensures c <= p
  {
    if p < c { PowersGap(p, c); }
  }

  /** Two different powers of two are a factor two apart. */
  lemma {:induction false} PowersGap(p: nat, c: nat)
    requires PowerOfTwo(p) && PowerOfTwo(c) && p < c
    ensures 2 * p <= c
  {
    if p > 1 {
      PowersGap(p / 2, c / 2);
    }
  }

  /** Capacity after doubling a full array, and after halving one at most half full. */
  function Grown(c: nat, n: nat): nat { if n == c then (if c > 0 then 2 * c else 1) else c }

  function Shrunk(c: nat, n: nat): nat { if n <= c / 2 then c / 2 else c }

  lemma GrownIsCapacity(c: nat, n: nat)
    requires IsCapacity(c, n)
    ensures IsCapacity(Grown(c, n), n + 1)
  {
    assert 2 * c / 2 == c;
  }

  lemma ShrunkIsCapacity(c: nat, n: nat)
    requires IsCapacity(c, n + 1)
    ensures IsCapacity(Shrunk(c, n), n)
  {
  }

  lemma CapacityHolds(c: nat, n: nat)
    requires IsCapacity(c, n)
    ensures n <= c && (n == 0 <==> c == 0)
  {
  }
}
