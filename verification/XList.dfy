/**
 x_list_t: doubly linked nodes on the heap.  A chain is the sequence of the nodes in link order;
 every operation rewrites pointers in place and is described by what it does to the chain and
 to the data along it.
 */
module XLists {
  import opened Bytes
  import opened Lists

  class Node<T> {
    var data: T
    var next: Node?<T>
    var prev: Node?<T>

    /** x_list_alloc, and the assignment of the data that always follows it. */
    constructor (d: T)
      ensures data == d && next == null && prev == null
    {
      data, next, prev := d, null, null;
    }
  }

  /** The nodes are distinct, and the links run along the sequence both ways and end in null. */
  ghost predicate Chain<T>(ns: seq<Node<T>>)
    reads ns`next, ns`prev
  {
    && (forall i, j :: 0 <= i < j < |ns| ==> ns[i] != ns[j])
    && (forall i {:trigger ns[i].next} :: 0 <= i < |ns| ==> ns[i].next == NodeAt(ns, i + 1))
    && (forall i {:trigger ns[i].prev} :: 0 <= i < |ns| ==> ns[i].prev == NodeAt(ns, i - 1))
  }

  ghost function NodeAt<T>(ns: seq<Node<T>>, i: int): Node?<T> {
    if 0 <= i < |ns| then ns[i] else null
  }

  ghost predicate Holds<T>(ns: seq<Node<T>>, xs: seq<T>)
    reads ns`data
  {
    |ns| == |xs| && forall i :: 0 <= i < |ns| ==> ns[i].data == xs[i]
  }

  /** `list` points to the first node of the chain `ns`, whose data are `xs`. */
  ghost predicate IsList<T>(list: Node?<T>, ns: seq<Node<T>>, xs: seq<T>)
    reads ns
  {
    Chain(ns) && Holds(ns, xs) && list == NodeAt(ns, 0)
  }

  method Last<T>(list: Node?<T>, ghost ns: seq<Node<T>>, ghost k: nat) returns (last: Node?<T>)
    requires Chain(ns) && list == NodeAt(ns, k)
    ensures last == if k < |ns| then NodeAt(ns, |ns| - 1) else null
  {
    last := list;
    if last != null {
      ghost var i := k;
      while last.next != null
        invariant k <= i < |ns| && last == ns[i]
        decreases |ns| - i
      {
        last := last.next;
        i := i + 1;
      }
    }
  }

  method Nth<T>(list: Node?<T>, n: nat, ghost ns: seq<Node<T>>) returns (r: Node?<T>)
    requires Chain(ns) && list == NodeAt(ns, 0)
    ensures r == NodeAt(ns, n)
  {
    r := list;
    var left := n;
    while left > 0 && r != null
      invariant 0 <= left <= n
      invariant r == NodeAt(ns, n - left)
    {
      r := r.next;
      left := left - 1;
    }
  }

  /** Appends after the last node, from wherever in the chain the caller points. */
  method Append<T>(list: Node?<T>, data: T, ghost ns: seq<Node<T>>, ghost k: nat)
    returns (r: Node<T>, ghost n: Node<T>)
    requires Chain(ns) && list == NodeAt(ns, k) && (ns == [] || k < |ns|)
    modifies ns`next
    ensures fresh(n) && n.data == data
    ensures Chain(ns + [n])
    ensures r == if list != null then list else n
  {
    var newList := new Node(data);
    n := newList;
    if list != null {
      var last := Last(list, ns, k);
      last.next := newList;
      newList.prev := last;
      r := list;
    } else {
      r := newList;
    }
    Extended(ns, n);
  }

  /** Links a new node in front of the one pointed to. */
  method Prepend<T>(list: Node?<T>, data: T, ghost ns: seq<Node<T>>, ghost k: nat)
    returns (r: Node<T>)
    requires Chain(ns) && list == NodeAt(ns, k) && (ns == [] || k < |ns|) && k <= |ns|
    modifies ns`next, ns`prev
    ensures fresh(r) && r.data == data
    ensures Chain(Inserted(ns, k, r))
  {
    r := new Node(data);
    if list != null {
      if list.prev != null {
        list.prev.next := r;
        r.prev := list.prev;
      }
      list.prev := r;
      r.next := list;
    }
    Spliced(ns, k, r);
  }

  /** The links of a chain with one more node. */
  lemma Spliced<T>(ns: seq<Node<T>>, k: nat, n: Node<T>)
    requires k <= |ns| && n !in ns
    requires forall i, j :: 0 <= i < j < |ns| ==> ns[i] != ns[j]
    requires n.prev == NodeAt(ns, k - 1) && n.next == NodeAt(ns, k)
    requires forall i {:trigger ns[i].next} :: 0 <= i < |ns| ==>
      ns[i].next == if i == k - 1 then n else NodeAt(ns, i + 1)
    requires forall i {:trigger ns[i].prev} :: 0 <= i < |ns| ==>
      ns[i].prev == if i == k then n else NodeAt(ns, i - 1)
    ensures Chain(Inserted(ns, k, n))
  {
    var r := Inserted(ns, k, n);
    forall i | 0 <= i < |r|
      ensures r[i].next == NodeAt(r, i + 1) && r[i].prev == NodeAt(r, i - 1)
    {
    }
  }

  lemma AppendIsInserted<T>(s: seq<T>, v: T)
    ensures Inserted(s, |s|, v) == s + [v]
    ensures Inserted(s, 0, v) == [v] + s
  {
    assert s[..|s|] == s;
  }

  /** The same at the end of the chain. */
  lemma Extended<T>(ns: seq<Node<T>>, n: Node<T>)
    requires n !in ns && forall i, j :: 0 <= i < j < |ns| ==> ns[i] != ns[j]
    requires n.prev == NodeAt(ns, |ns| - 1) && n.next == null
    requires forall i {:trigger ns[i].next} :: 0 <= i < |ns| ==>
      ns[i].next == if i == |ns| - 1 then n else NodeAt(ns, i + 1)
    requires forall i {:trigger ns[i].prev} :: 0 <= i < |ns| ==> ns[i].prev == NodeAt(ns, i - 1)
    ensures Chain(ns + [n])
  {
    Spliced(ns, |ns|, n);
    AppendIsInserted(ns, n);
  }

  /** The links of a chain with one node taken out. */
  lemma Unspliced<T>(ns: seq<Node<T>>, k: nat)
    requires k < |ns|
    requires forall i, j :: 0 <= i < j < |ns| ==> ns[i] != ns[j]
    requires forall i {:trigger ns[i].next} :: 0 <= i < |ns| && i != k ==>
      ns[i].next == if i == k - 1 then NodeAt(ns, k + 1) else NodeAt(ns, i + 1)
    requires forall i {:trigger ns[i].prev} :: 0 <= i < |ns| && i != k ==>
      ns[i].prev == if i == k + 1 then NodeAt(ns, k - 1) else NodeAt(ns, i - 1)
    ensures Chain(Removed(ns, k))
  {
    var r := Removed(ns, k);
    forall i | 0 <= i < |r|
      ensures r[i].next == NodeAt(r, i + 1) && r[i].prev == NodeAt(r, i - 1)
    {
    }
  }

  /** The same with the data: what an insertion leaves. */
  lemma SplicedList<T>(ns: seq<Node<T>>, xs: seq<T>, k: nat, n: Node<T>)
    requires k <= |ns| && Holds(ns, xs) && Chain(Inserted(ns, k, n))
    ensures IsList(if k == 0 then n else NodeAt(ns, 0), Inserted(ns, k, n), Inserted(xs, k, n.data))
  {
  }

  lemma UnsplicedList<T>(ns: seq<Node<T>>, xs: seq<T>, k: nat)
    requires k < |ns| && Holds(ns, xs) && Chain(Removed(ns, k))
    ensures IsList(NodeAt(ns, if k == 0 then 1 else 0), Removed(ns, k), Removed(xs, k))
  {
  }

  lemma InsertedNodes<T>(ns: seq<T>, p: nat, n: T)
    requires p <= |ns|
    ensures forall m :: m in Inserted(ns, p, n) ==> m in ns || m == n
  {
  }

  /** Position 0 is the front; a negative position or one past the end appends. */
  method Insert<T>(list: Node?<T>, data: T, position: int, ghost ns: seq<Node<T>>, ghost xs: seq<T>)
    returns (r: Node<T>, ghost rs: seq<Node<T>>)
    requires IsList(list, ns, xs)
    modifies ns`next, ns`prev
    ensures forall n :: n in rs ==> n in ns || fresh(n)
    ensures var p := if 0 <= position < |xs| then position else |xs|;
      IsList(r, rs, Inserted(xs, p, data))
  {
    hide Inserted;
    ghost var n: Node<T>;
    ghost var p := if 0 <= position < |xs| then position else |xs|;
    if position < 0 {
      r, n := Append(list, data, ns, 0);
      AppendIsInserted(ns, n);
      SplicedList(ns, xs, p, n);
      rs := Inserted(ns, p, n);
      return;
    } else if position == 0 {
      r := Prepend(list, data, ns, 0);
      SplicedList(ns, xs, p, r);
      rs := Inserted(ns, p, r);
      AppendIsInserted(ns, r);
      return;
    }
    var tmp := Nth(list, position, ns);
    if tmp == null {
      r, n := Append(list, data, ns, 0);
      AppendIsInserted(ns, n);
      SplicedList(ns, xs, p, n);
      rs := Inserted(ns, p, n);
      return;
    }
    var newList := new Node(data);
    if tmp.prev != null {
      tmp.prev.next := newList;
      newList.prev := tmp.prev;
    }
    newList.next := tmp;
    tmp.prev := newList;
    Spliced(ns, position, newList);
    SplicedList(ns, xs, position, newList);
    rs := Inserted(ns, position, newList);
    InsertedNodes(ns, position, newList);
    if tmp == list {
      return newList, rs;
    } else {
      return list, rs;
    }
  }

  /** Takes one node of the chain out. */
  method DeleteLink<T>(list: Node<T>, link: Node<T>, ghost ns: seq<Node<T>>, ghost k: nat)
    returns (r: Node?<T>)
    requires Chain(ns) && list == NodeAt(ns, 0) && k < |ns| && link == ns[k]
    modifies ns`next, ns`prev
    ensures Chain(Removed(ns, k)) && r == NodeAt(Removed(ns, k), 0)
  {
    r := list;
    if link.prev != null {
      link.prev.next := link.next;
    }
    if link.next != null {
      link.next.prev := link.prev;
    }
    if link == r {
      r := r.next;
    }
    Unspliced(ns, k);
    link.next := null;
    link.prev := null;
    assert link !in Removed(ns, k);
  }

  lemma RemovedNodes<T>(ns: seq<T>, k: nat)
    requires k < |ns|
    ensures |Removed(ns, k)| == |ns| - 1
    ensures forall j :: 0 <= j < k ==> Removed(ns, k)[j] == ns[j]
    ensures forall j :: k <= j < |ns| - 1 ==> Removed(ns, k)[j] == ns[j + 1]
    ensures forall m :: m in Removed(ns, k) ==> m in ns
  {
  }

  function RemoveFirst<T(==)>(xs: seq<T>, d: T): seq<T> {
    if xs == [] then [] else if xs[0] == d then xs[1..] else [xs[0]] + RemoveFirst(xs[1..], d)
  }

  function RemoveEvery<T(==)>(xs: seq<T>, d: T): seq<T> {
    if xs == [] then [] else (if xs[0] == d then [] else [xs[0]]) + RemoveEvery(xs[1..], d)
  }

  lemma {:induction false} RemoveFirstAt<T>(xs: seq<T>, d: T, i: nat)
    requires i <= |xs| && forall j :: 0 <= j < i ==> xs[j] != d
    requires i < |xs| ==> xs[i] == d
    ensures RemoveFirst(xs, d) == if i < |xs| then Removed(xs, i) else xs
  {
    if i > 0 {
      RemoveFirstAt(xs[1..], d, i - 1);
      assert xs == [xs[0]] + xs[1..];
    }
  }

  /** Dropping one of the equal elements first makes no difference. */
  lemma {:induction false} RemoveEveryLess<T>(xs: seq<T>, d: T, i: nat)
    requires i < |xs| && xs[i] == d
    ensures RemoveEvery(Removed(xs, i), d) == RemoveEvery(xs, d)
  {
    var r := Removed(xs, i);
    if i == 0 {
      assert r == xs[1..];
    } else {
      assert r[0] == xs[0] && r[1..] == Removed(xs[1..], i - 1);
      RemoveEveryLess(xs[1..], d, i - 1);
    }
  }

  lemma {:induction false} RemoveEveryNone<T>(xs: seq<T>, d: T)
    requires d !in xs
    ensures RemoveEvery(xs, d) == xs
  {
    if xs != [] {
      RemoveEveryNone(xs[1..], d);
      assert xs == [xs[0]] + xs[1..];
    }
  }

  /** Exactly the equal data goes. */
  lemma {:induction false} RemoveEveryExactly<T>(xs: seq<T>, d: T)
    ensures multiset(RemoveEvery(xs, d)) == multiset(xs)[d := 0]
  {
    if xs != [] {
      RemoveEveryExactly(xs[1..], d);
      assert xs == [xs[0]] + xs[1..];
    }
  }

  method Remove<T(==)>(list: Node?<T>, data: T, ghost ns: seq<Node<T>>, ghost xs: seq<T>)
    returns (r: Node?<T>, ghost rs: seq<Node<T>>)
    requires IsList(list, ns, xs)
    modifies ns`next, ns`prev
    ensures rs == ns || exists k :: 0 <= k < |ns| && rs == Removed(ns, k)
    ensures IsList(r, rs, RemoveFirst(xs, data))
  {
    hide Removed;
    r := list;
    var tmp := list;
    ghost var i := 0;
    while tmp != null
      invariant 0 <= i <= |ns| && tmp == NodeAt(ns, i)
      invariant forall j :: 0 <= j < i ==> xs[j] != data
      invariant Chain(ns) && r == list
      decreases |ns| - i
    {
      if tmp.data != data {
        tmp := tmp.next;
        i := i + 1;
      } else {
        if tmp.prev != null {
          tmp.prev.next := tmp.next;
        }
        if tmp.next != null {
          tmp.next.prev := tmp.prev;
        }
        if r == tmp {
          r := r.next;
        }
        Unspliced(ns, i);
        UnsplicedList(ns, xs, i);
        RemoveFirstAt(xs, data, i);
        rs := Removed(ns, i);
        return;
      }
    }
    RemoveFirstAt(xs, data, i);
    rs := ns;
  }

  method RemoveAll<T(==)>(list: Node?<T>, data: T, ghost ns: seq<Node<T>>, ghost xs: seq<T>)
    returns (r: Node?<T>, ghost rs: seq<Node<T>>)
    requires IsList(list, ns, xs)
    modifies ns`next, ns`prev
    ensures forall n :: n in rs ==> n in ns
    ensures IsList(r, rs, RemoveEvery(xs, data))
  {
    hide Removed;
    r := list;
    rs := ns;
    var tmp := list;
    ghost var ys, i := xs, 0;
    while tmp != null
      invariant forall n :: n in rs ==> n in ns
      invariant 0 <= i <= |rs| && tmp == NodeAt(rs, i)
      invariant IsList(r, rs, ys) && forall j :: 0 <= j < i ==> ys[j] != data
      invariant RemoveEvery(ys, data) == RemoveEvery(xs, data)
      decreases |rs| - i
    {
      if tmp.data != data {
        tmp := tmp.next;
        i := i + 1;
      } else {
        var next := tmp.next;
        assert i > 0 ==> rs[i - 1] in rs;
        assert i + 1 < |rs| ==> rs[i + 1] in rs;
        if tmp.prev != null {
          tmp.prev.next := next;
        } else {
          r := next;
        }
        if next != null {
          next.prev := tmp.prev;
        }
        Unspliced(rs, i);
        UnsplicedList(rs, ys, i);
        RemoveEveryLess(ys, data, i);
        RemovedNodes(rs, i);
        RemovedNodes(ys, i);
        rs, ys := Removed(rs, i), Removed(ys, i);
        tmp := next;
      }
    }
    RemoveEveryNone(ys, data);
  }

  function Reversed<T>(s: seq<T>): seq<T> {
    seq(|s|, i requires 0 <= i < |s| => s[|s| - 1 - i])
  }

  lemma ReversedList<T>(ns: seq<Node<T>>, xs: seq<T>)
    requires Holds(ns, xs)
    requires forall i, j :: 0 <= i < j < |ns| ==> ns[i] != ns[j]
    requires forall j {:trigger ns[j].next} :: 0 <= j < |ns| ==> ns[j].next == NodeAt(ns, j - 1)
    requires forall j {:trigger ns[j].prev} :: 0 <= j < |ns| ==> ns[j].prev == NodeAt(ns, j + 1)
    ensures IsList(NodeAt(ns, |ns| - 1), Reversed(ns), Reversed(xs))
  {
    var r := Reversed(ns);
    forall i | 0 <= i < |r|
      ensures r[i].next == NodeAt(r, i + 1) && r[i].prev == NodeAt(r, i - 1)
    {
    }
  }

  /** Swaps the two links of every node. */
  method Reverse<T>(list: Node?<T>, ghost ns: seq<Node<T>>, ghost xs: seq<T>) returns (r: Node?<T>)
    requires IsList(list, ns, xs)
    modifies ns`next, ns`prev
    ensures IsList(r, Reversed(ns), Reversed(xs))
  {
    hide Holds, Reversed;
    r := null;
    var rest := list;
    ghost var i := 0;
    while rest != null
      invariant 0 <= i <= |ns| && rest == NodeAt(ns, i) && r == NodeAt(ns, i - 1)
      invariant forall j {:trigger ns[j].next} :: 0 <= j < |ns| ==>
        ns[j].next == if j < i then NodeAt(ns, j - 1) else NodeAt(ns, j + 1)
      invariant forall j {:trigger ns[j].prev} :: 0 <= j < |ns| ==>
        ns[j].prev == if j < i then NodeAt(ns, j + 1) else NodeAt(ns, j - 1)
      decreases |ns| - i
    {
      r := rest;
      rest := r.next;
      r.next := r.prev;
      r.prev := rest;
      i := i + 1;
    }
    ReversedList(ns, xs);
  }

  lemma JoinedChain<T>(ns: seq<Node<T>>, ms: seq<Node<T>>)
    requires ms != []
    requires forall i, j :: 0 <= i < |ns| && 0 <= j < |ms| ==> ns[i] != ms[j]
    requires forall i, j :: 0 <= i < j < |ns| ==> ns[i] != ns[j]
    requires forall i, j :: 0 <= i < j < |ms| ==> ms[i] != ms[j]
    requires forall j {:trigger ns[j].next} :: 0 <= j < |ns| ==>
      ns[j].next == if j == |ns| - 1 then ms[0] else NodeAt(ns, j + 1)
    requires forall j {:trigger ns[j].prev} :: 0 <= j < |ns| ==> ns[j].prev == NodeAt(ns, j - 1)
    requires forall j {:trigger ms[j].next} :: 0 <= j < |ms| ==> ms[j].next == NodeAt(ms, j + 1)
    requires forall j {:trigger ms[j].prev} :: 0 <= j < |ms| ==>
      ms[j].prev == if j == 0 then NodeAt(ns, |ns| - 1) else NodeAt(ms, j - 1)
    ensures Chain(ns + ms)
  {
    var r := ns + ms;
    forall i | 0 <= i < |r|
      ensures r[i].next == NodeAt(r, i + 1) && r[i].prev == NodeAt(r, i - 1)
    {
      if i < |ns| {
        assert r[i] == ns[i];
      } else {
        assert r[i] == ms[i - |ns|];
      }
    }
  }

  method Concat<T>(list1: Node?<T>, list2: Node?<T>, ghost ns: seq<Node<T>>, ghost xs: seq<T>,
                   ghost ms: seq<Node<T>>, ghost ys: seq<T>)
    returns (r: Node?<T>)
    requires IsList(list1, ns, xs) && IsList(list2, ms, ys)
    requires forall i, j :: 0 <= i < |ns| && 0 <= j < |ms| ==> ns[i] != ms[j]
    modifies ns`next, ms`prev
    ensures IsList(r, ns + ms, xs + ys)
  {
    r := list1;
    if list2 != null {
      var tmp := Last(list1, ns, 0);
      if tmp != null {
        tmp.next := list2;
      } else {
        r := list2;
      }
      list2.prev := tmp;
      JoinedChain(ns, ms);
    } else {
      assert ns + ms == ns && xs + ys == xs;
    }
  }

  /** New nodes with the same data. */
  method Copy<T>(list: Node?<T>, ghost ns: seq<Node<T>>, ghost xs: seq<T>)
    returns (r: Node?<T>, ghost rs: seq<Node<T>>)
    requires IsList(list, ns, xs)
    ensures forall n :: n in rs ==> fresh(n)
    ensures IsList(r, rs, xs)
  {
    hide Inserted;
    r, rs := null, [];
    if list != null {
      var first := new Node(list.data);
      r, rs := first, [first];
      var last := first;
      var rest := list.next;
      while rest != null
        invariant 1 <= |rs| <= |ns| && rest == NodeAt(ns, |rs|)
        invariant forall n :: n in rs ==> fresh(n)
        invariant Chain(rs) && r == rs[0] && forall j :: 0 <= j < |rs| ==> rs[j].data == xs[j]
        invariant last == rs[|rs| - 1]
        decreases |ns| - |rs|
      {
        var n := new Node(rest.data);
        assert last in rs;
        last.next := n;
        n.prev := last;
        last := n;
        Extended(rs, n);
        rs := rs + [n];
        rest := rest.next;
      }
    }
  }

  /** The first element that does not come before `d`. */
  function SortedSlot<T>(xs: seq<T>, d: T, cmp: (T, T) -> int): (p: nat)
    ensures p <= |xs|
    ensures forall j :: 0 <= j < p ==> cmp(d, xs[j]) > 0
    ensures p < |xs| ==> cmp(d, xs[p]) <= 0
  {
    if xs == [] || cmp(d, xs[0]) <= 0 then 0
    else
      var q := SortedSlot(xs[1..], d, cmp);
      assert forall j :: 0 < j <= q ==> xs[j] == xs[1..][j - 1];
      q + 1
  }

  ghost predicate Ordered<T>(xs: seq<T>, cmp: (T, T) -> int) {
    forall i :: 0 <= i < |xs| - 1 ==> cmp(xs[i], xs[i + 1]) <= 0
  }

  /** Insertion at the slot keeps the order, for any comparison that never ranks two elements above each other. */
  lemma InsertSortedKeeps<T(!new)>(xs: seq<T>, d: T, cmp: (T, T) -> int)
    requires Ordered(xs, cmp)
    requires forall a, b :: cmp(a, b) > 0 ==> cmp(b, a) <= 0
    ensures Ordered(Inserted(xs, SortedSlot(xs, d, cmp), d), cmp)
  {
    var p := SortedSlot(xs, d, cmp);
    var r := Inserted(xs, p, d);
    forall i | 0 <= i < |r| - 1 ensures cmp(r[i], r[i + 1]) <= 0 {
      if i + 1 == p {
        assert cmp(d, xs[i]) > 0;
      } else if i < p {
        assert cmp(xs[i], xs[i + 1]) <= 0;
      } else if i > p {
        assert cmp(xs[i - 1], xs[i - 1 + 1]) <= 0;
      }
    }
  }

  lemma SlotAt<T>(xs: seq<T>, d: T, cmp: (T, T) -> int, p: nat)
    requires p <= |xs| && forall j :: 0 <= j < p ==> cmp(d, xs[j]) > 0
    requires p < |xs| ==> cmp(d, xs[p]) <= 0
    ensures SortedSlot(xs, d, cmp) == p
  {
    var q := SortedSlot(xs, d, cmp);
  }

  method InsertSorted<T>(list: Node?<T>, data: T, func: (T, T) -> int, ghost ns: seq<Node<T>>, ghost xs: seq<T>)
    returns (r: Node<T>, ghost rs: seq<Node<T>>)
    requires IsList(list, ns, xs)
    modifies ns`next, ns`prev
    ensures forall n :: n in rs ==> n in ns || fresh(n)
    ensures IsList(r, rs, Inserted(xs, SortedSlot(xs, data, func), data))
  {
    hide Inserted, SortedSlot;
    if list == null {
      r := new Node(data);
      rs := [r];
      AppendIsInserted(ns, r);
      AppendIsInserted(xs, data);
      return;
    }
    var tmp := list;
    var cmp := func(data, tmp.data);
    ghost var i := 0;
    while tmp.next != null && cmp > 0
      invariant 0 <= i < |ns| && tmp == ns[i] && cmp == func(data, xs[i])
      invariant forall j :: 0 <= j < i ==> func(data, xs[j]) > 0
      decreases |ns| - i
    {
      tmp := tmp.next;
      i := i + 1;
      cmp := func(data, tmp.data);
    }
    SlotAt(xs, data, func, if cmp > 0 then i + 1 else i);
    var newList := new Node(data);
    if tmp.next == null && cmp > 0 {
      tmp.next := newList;
      newList.prev := tmp;
      Spliced(ns, i + 1, newList);
      SplicedList(ns, xs, i + 1, newList);
      InsertedNodes(ns, i + 1, newList);
      return list, Inserted(ns, i + 1, newList);
    }
    if tmp.prev != null {
      tmp.prev.next := newList;
      newList.prev := tmp.prev;
    }
    newList.next := tmp;
    tmp.prev := newList;
    Spliced(ns, i, newList);
    SplicedList(ns, xs, i, newList);
    InsertedNodes(ns, i, newList);
    rs := Inserted(ns, i, newList);
    if tmp == list {
      return newList, rs;
    } else {
      return list, rs;
    }
  }
}
