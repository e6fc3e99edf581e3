/**
  pestat's sort of the node list (contrib/pestat-1.0/pestat.c:402-449): an insertion sort that relinks
  the nodes of a singly linked list.
 */
module PestatSort {
  /** `struct batch_status`; the key is the number in the node's name. */
  class Node {
    const size: int
    var next: Node?

    constructor (size: int)
      ensures this.size == size && next == null
    {
      this.size, next := size, null;
    }
  }

  // -- the sort on sequences --

  /** In front of the first larger key. */
  function Insert(t: seq<Node>, x: Node): (r: seq<Node>)
    ensures |r| == |t| + 1
  {
    if t == [] || x.size < t[0].size then [x] + t else [t[0]] + Insert(t[1..], x)
  }

  function Sorted(s: seq<Node>): (r: seq<Node>)
    ensures |r| == |s|
  {
    if s == [] then [] else Insert(Sorted(s[..|s| - 1]), s[|s| - 1])
  }

  ghost predicate Ordered(s: seq<Node>) {
    forall i, j :: 0 <= i < j < |s| ==> s[i].size <= s[j].size
  }

  /** The nodes of one key, in order. */
  function WithKey(s: seq<Node>, key: int): seq<Node> {
    if s == [] then [] else (if s[0].size == key then [s[0]] else []) + WithKey(s[1..], key)
  }

  lemma {:induction false} InsertAt(t: seq<Node>, x: Node, p: nat)
    requires p <= |t| && (forall q :: 0 <= q < p ==> t[q].size <= x.size)
    requires p < |t| ==> x.size < t[p].size
    ensures Insert(t, x) == t[..p] + [x] + t[p..]
  {
    if p > 0 {
      InsertAt(t[1..], x, p - 1);
      assert t[..p] == [t[0]] + t[1..][..p - 1] && t[p..] == t[1..][p - 1..];
    }
  }

  /** Where Insert puts a node into an ordered sequence. */
  lemma {:induction false} Place(t: seq<Node>, x: Node) returns (p: nat)
    requires Ordered(t)
    ensures p <= |t| && (forall q :: 0 <= q < p ==> t[q].size <= x.size)
    ensures forall q :: p <= q < |t| ==> x.size < t[q].size
    ensures Insert(t, x) == t[..p] + [x] + t[p..]
  {
    if t == [] || x.size < t[0].size {
      p := 0;
    } else {
      var r := Place(t[1..], x);
      p := r + 1;
      assert forall q :: 0 < q < |t| ==> t[q] == t[1..][q - 1];
      InsertAt(t, x, p);
    }
  }

  lemma InsertOrdered(t: seq<Node>, x: Node)
    requires Ordered(t)
    ensures Ordered(Insert(t, x))
  {
    hide Insert;
    var p := Place(t, x);
    OrderedWith(t, x, p);
  }

  lemma OrderedWith(t: seq<Node>, x: Node, p: nat)
    requires Ordered(t) && p <= |t| && (forall q :: 0 <= q < p ==> t[q].size <= x.size)
    requires forall q :: p <= q < |t| ==> x.size < t[q].size
    ensures Ordered(t[..p] + [x] + t[p..])
  {
    var r := t[..p] + [x] + t[p..];
    assert forall q :: 0 <= q < p ==> r[q] == t[q];
    assert r[p] == x;
    assert forall q :: p < q < |r| ==> r[q] == t[q - 1];
    forall i, j | 0 <= i < j < |r| ensures r[i].size <= r[j].size {
      var a, b := if i < p then i else i - 1, if j < p then j else j - 1;
      if i != p && j != p {
        assert r[i] == t[a] && r[j] == t[b];
      }
    }
  }

  lemma {:induction false} WithKeyCat(a: seq<Node>, b: seq<Node>, key: int)
    ensures WithKey(a + b, key) == WithKey(a, key) + WithKey(b, key)
  {
    if a == [] {
      assert a + b == b;
    } else {
      assert (a + b)[0] == a[0] && (a + b)[1..] == a[1..] + b;
      WithKeyCat(a[1..], b, key);
    }
  }

  lemma {:induction false} NoKey(s: seq<Node>, key: int)
    requires forall q :: 0 <= q < |s| ==> s[q].size != key
    ensures WithKey(s, key) == []
  {
    if s != [] {
      NoKey(s[1..], key);
    }
  }

  /** A node goes behind all nodes of its own key. */
  lemma InsertStable(t: seq<Node>, x: Node, key: int)
    requires Ordered(t)
    ensures WithKey(Insert(t, x), key) == WithKey(t + [x], key)
  {
    hide Insert, WithKey;
    var p := Place(t, x);
    var a, b := t[..p], t[p..];
    assert t == a + b;
    WithKeyCat(a + [x], b, key);
    WithKeyCat(a, [x], key);
    WithKeyCat(a, b, key);
    WithKeyCat(t, [x], key);
    if key == x.size {
      NoKey(b, key);
    } else {
      NoKey([x], key);
    }
    var ka, kb, kx := WithKey(a, key), WithKey(b, key), WithKey([x], key);
    assert kb == [] ==> ka + kx + kb == ka + kx && ka + kb == ka;
    assert kx == [] ==> ka + kx + kb == ka + kb && ka + kb + kx == ka + kb;
  }

  lemma {:induction false} InsertNodes(t: seq<Node>, x: Node)
    ensures multiset(Insert(t, x)) == multiset(t + [x])
  {
    if t == [] || x.size < t[0].size {
      assert multiset([x] + t) == multiset(t + [x]);
    } else {
      InsertNodes(t[1..], x);
      assert t == [t[0]] + t[1..] && t + [x] == [t[0]] + (t[1..] + [x]);
    }
  }

  /** The result is ordered, has the same nodes, and keeps the order of equal keys. */
  lemma {:induction false} SortedIsSorted(s: seq<Node>, key: int)
    ensures Ordered(Sorted(s))
    ensures multiset(Sorted(s)) == multiset(s)
    ensures WithKey(Sorted(s), key) == WithKey(s, key)
  {
    if s != [] {
      var n := |s| - 1;
      var t, x := Sorted(s[..n]), s[n];
      SortedIsSorted(s[..n], key);
      InsertOrdered(t, x);
      InsertStable(t, x, key);
      assert s == s[..n] + [x];
      hide Sorted, Insert, WithKey;
      WithKeyCat(t, [x], key);
      WithKeyCat(s[..n], [x], key);
      InsertNodes(t, x);
      SortedStep(s);
    }
  }

  lemma SortedStep(s: seq<Node>)
    requires s != []
    ensures Sorted(s) == Insert(Sorted(s[..|s| - 1]), s[|s| - 1])
  {
  }

  // -- the list in memory --

  ghost predicate NoDup(l: seq<Node>) {
    forall i, j :: 0 <= i < j < |l| ==> l[i] != l[j]
  }

  function After(l: seq<Node>, i: nat): Node? {
    if i + 1 < |l| then l[i + 1] else null
  }

  /** The nodes of `l` follow each other and the last one ends the list. */
  ghost predicate Linked(l: seq<Node>)
    reads l
  {
    forall i :: 0 <= i < |l| ==> l[i].next == After(l, i)
  }

  /** done->next = j->next */
  method Unlink(done: Node, j: Node, ghost t: seq<Node>, ghost r: seq<Node>)
    requires t != [] && done == t[|t| - 1] && Linked(t + [j] + r) && NoDup(t + [j] + r)
    modifies done
    ensures Linked(t + r) && j.next == old(j.next)
  {
    ghost var l, m, k := t + [j] + r, t + r, |t|;
    assert l[k - 1] == done && l[k] == j;
    assert j.next == After(l, k);
    done.next := j.next;
    forall i | 0 <= i < |m| ensures m[i].next == After(m, i) {
      var a := if i < k then i else i + 1;
      assert m[i] == l[a] && old(l[a].next) == After(l, a);
      assert i != k - 1 ==> After(m, i) == After(l, a);
      assert After(m, k - 1) == After(l, k);
    }
  }

  /** j->next = first */
  method LinkFirst(first: Node, j: Node, ghost l: seq<Node>)
    requires l != [] && first == l[0] && j !in l && Linked(l)
    modifies j
    ensures Linked([j] + l)
  {
    j.next := first;
    ghost var m := [j] + l;
    forall i | 0 <= i < |m| ensures m[i].next == After(m, i) {
      if i > 0 {
        assert m[i] == l[i - 1] && old(l[i - 1].next) == After(l, i - 1);
      }
    }
  }

  /** j->next = i->next; i->next = j */
  method LinkAfter(i: Node, j: Node, ghost l: seq<Node>, ghost p: nat)
    requires 0 < p <= |l| && i == l[p - 1] && j !in l && Linked(l) && NoDup(l)
    modifies i, j
    ensures Linked(l[..p] + [j] + l[p..])
  {
    assert i.next == After(l, p - 1);
    j.next := i.next;
    i.next := j;
    ghost var m := l[..p] + [j] + l[p..];
    assert m[p] == j;
    forall k | 0 <= k < |m| ensures m[k].next == After(m, k) {
      if k != p {
        var a := if k < p then k else k - 1;
        assert m[k] == l[a] && old(l[a].next) == After(l, a);
      }
    }
  }

  /** The search for the place of `j` among the sorted nodes `t`, of which `done` is the last. */
  method FindPlace(first: Node, done: Node, j: Node, ghost t: seq<Node>, ghost r: seq<Node>) returns (i: Node, ghost p: nat)
    requires t != [] && first == t[0] && done == t[|t| - 1] && NoDup(t) && Linked(t + r)
    requires first.size <= j.size
    ensures 0 < p <= |t| && i == t[p - 1]
    ensures forall q :: 0 <= q < p ==> t[q].size <= j.size
    ensures p < |t| ==> j.size < t[p].size
  {
    i, p := first, 1;
    ghost var l := t + r;
    assert forall k :: 0 <= k < |t| ==> l[k] == t[k];
    assert l[0].next == After(l, 0);
    while i != done && i.next.size <= j.size
      invariant 0 < p <= |t| && i == t[p - 1] && i.next == After(l, p - 1)
      invariant forall q :: 0 <= q < p ==> t[q].size <= j.size
      decreases |t| - p
    {
      assert l[p].next == After(l, p);
      i, p := i.next, p + 1;
    }
  }

  lemma Apart(t: seq<Node>, x: Node, r: seq<Node>)
    requires NoDup(t + [x] + r)
    ensures NoDup(t) && NoDup(t + r) && x !in t && x !in t + r
  {
    var l := t + [x] + r;
    assert l[|t|] == x;
    assert forall i :: 0 <= i < |t| ==> l[i] == t[i];
    assert forall i :: 0 <= i < |t + r| ==> (t + r)[i] == l[if i < |t| then i else i + 1];
  }

  /** One round: the first undone node `x` goes to its place among the sorted nodes `t`. */
  method Round(first: Node, done: Node, ghost t: seq<Node>, ghost x: Node, ghost r: seq<Node>) returns (head: Node, last: Node)
    requires t != [] && first == t[0] && done == t[|t| - 1]
    requires Linked(t + [x] + r) && NoDup(t + [x] + r)
    modifies t, x
    ensures Linked(Insert(t, x) + r) && head == Insert(t, x)[0] && last == Insert(t, x)[|t|]
  {
    hide Insert, NoDup;
    ghost var l := t + [x] + r;
    assert l[|t| - 1] == done && l[|t|] == x && done.next == After(l, |t| - 1);
    var j := done.next;
    Apart(t, x, r);
    Unlink(done, j, t, r);
    head, last := first, done;
    if j.size < first.size {
      InsertAt(t, j, 0);
      assert t[..0] + [j] + t[0..] == [j] + t;
      LinkFirst(first, j, t + r);
      head := j;
      assert [j] + (t + r) == ([j] + t) + r;
    } else {
      var i;
      ghost var p;
      i, p := FindPlace(first, done, j, t, r);
      InsertAt(t, j, p);
      last := Attach(i, j, done, t, r, p);
    }
  }

  method Attach(i: Node, j: Node, done: Node, ghost t: seq<Node>, ghost r: seq<Node>, ghost p: nat) returns (last: Node)
    requires 0 < p <= |t| && i == t[p - 1] && done == t[|t| - 1] && j !in t + r && Linked(t + r) && NoDup(t + r) && NoDup(t)
    modifies i, j
    ensures Linked(t[..p] + [j] + t[p..] + r) && last == (t[..p] + [j] + t[p..])[|t|]
  {
    assert (t + r)[p - 1] == i;
    assert (t + r)[..p] + [j] + (t + r)[p..] == t[..p] + [j] + t[p..] + r;
    LinkAfter(i, j, t + r, p);
    ghost var u := t[..p] + [j] + t[p..];
    last := done;
    if i == done {
      assert p == |t|;
      assert (u + r)[p - 1] == done && (u + r)[p - 1].next == After(u + r, p - 1);
      last := done.next;
    }
  }

  // -- the whole sort --

  lemma InsertKeeps(t: seq<Node>, x: Node, r: seq<Node>)
    requires NoDup(t + [x] + r)
    ensures multiset(Insert(t, x)) == multiset(t + [x])
    ensures NoDup(Insert(t, x) + r)
  {
    InsertNodes(t, x);
    assert multiset(Insert(t, x) + r) == multiset(t + [x] + r);
    SameNoDup(t + [x] + r, Insert(t, x) + r);
  }

  /** Having no duplicates depends on the multiset only. */
  lemma SameNoDup(a: seq<Node>, b: seq<Node>)
    requires NoDup(a) && multiset(a) == multiset(b)
    ensures NoDup(b)
  {
    forall i, j | 0 <= i < j < |b| ensures b[i] != b[j] {
      OnlyOne(a, b[i]);
      if b[i] == b[j] {
        TwoOf(b, i, j);
      }
    }
  }

  lemma {:induction false} OnlyOne(a: seq<Node>, x: Node)
    requires NoDup(a)
    ensures multiset(a)[x] <= 1
  {
    if a != [] {
      assert a == [a[0]] + a[1..];
      OnlyOne(a[1..], x);
      if a[0] == x {
        assert x !in a[1..];
      }
    }
  }

  lemma TwoOf(b: seq<Node>, i: nat, j: nat)
    requires i < j < |b| && b[i] == b[j]
    ensures multiset(b)[b[i]] >= 2
  {
    assert b == b[..i] + [b[i]] + b[i + 1..j] + [b[j]] + b[j + 1..];
  }

  /** The first `n` nodes of `s` have been sorted into `t`. */
  ghost predicate Progress(s: seq<Node>, n: nat, t: seq<Node>) {
    1 <= n <= |s| && t == Sorted(s[..n]) && NoDup(t + s[n..]) && forall x :: x in t ==> x in s
  }

  lemma Start(s: seq<Node>)
    requires s != [] && NoDup(s)
    ensures Progress(s, 1, [s[0]]) && [s[0]] + s[1..] == s
  {
    assert s[..1][..0] == [] && Sorted([]) == [];
    assert Insert([], s[0]) == [s[0]];
    assert [s[0]] + s[1..] == s;
  }

  lemma Advance(s: seq<Node>, n: nat, t: seq<Node>)
    requires n < |s| && Progress(s, n, t)
    ensures |t| == n && t + s[n..] == t + [s[n]] + s[n + 1..] && NoDup(t + [s[n]] + s[n + 1..])
    ensures Progress(s, n + 1, Insert(t, s[n]))
  {
    hide Insert, Sorted, NoDup;
    var x, r := s[n], s[n + 1..];
    assert s[n..] == [x] + r;
    assert t + s[n..] == t + [x] + r;
    InsertKeeps(t, x, r);
    forall y | y in Insert(t, x) ensures y in s {
      assert y in multiset(Insert(t, x));
      assert y in t + [x];
    }
    assert s[..n + 1][..n] == s[..n];
    SortedStep(s[..n + 1]);
  }

  lemma Finish(s: seq<Node>, n: nat, t: seq<Node>, done: Node)
    requires Progress(s, n, t) && Linked(t + s[n..]) && |t| == n && done == t[n - 1]
    ensures done.next == null <==> n == |s|
    ensures n == |s| ==> t == Sorted(s) && t + s[n..] == t
  {
    hide Sorted, NoDup;
    var l := t + s[n..];
    assert l[n - 1] == done && done.next == After(l, n - 1);
    assert n == |s| ==> s[..n] == s && s[n..] == [];
  }

  /** sort_stats: on every non-empty list without cycles. */
  method SortStats(first: Node, ghost s: seq<Node>) returns (head: Node)
    requires s != [] && first == s[0] && NoDup(s) && Linked(s)
    modifies s
    ensures Linked(Sorted(s)) && head == Sorted(s)[0]
  {
    hide Insert, Sorted, NoDup, Progress, Linked, After;
    head := first;
    var done := first;
    ghost var n, t := 1, [first];
    Start(s);
    Finish(s, n, t, done);
    if first.next != null {
      while done.next != null
        invariant 1 <= n <= |s| && |t| == n && Progress(s, n, t) && Linked(t + s[n..])
        invariant forall x :: x in t ==> x in s
        invariant head == t[0] && done == t[n - 1]
        decreases |s| - n
      {
        Finish(s, n, t, done);
        Advance(s, n, t);
        ghost var x := s[n];
        Members(s, n + 1, Insert(t, x));
        assert forall k :: 0 <= k < |t| ==> t[k] in t;
        head, done := Round(head, done, t, x, s[n + 1..]);
        t, n := Insert(t, x), n + 1;
      }
    }
    Finish(s, n, t, done);
  }

  lemma Members(s: seq<Node>, n: nat, t: seq<Node>)
    requires Progress(s, n, t)
    ensures forall x :: x in t ==> x in s
  {
  }
}
