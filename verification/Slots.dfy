/**
  The slot array behind `item_container` (src/include/container.hpp), as a value.

  One array plays three parts: a doubly linked list threaded through `next` and
  `prev` (slot 0 is the sentinel), a free-slot allocator (`nextSlot`), and, with
  `index`, a hash table from ids to slots.  `Inv(st, o)` says that the store `st`
  represents the list of slots `o`; the lemmas show what each update of the
  source does to it.
 */
module Slots {

  import opened Common

  datatype Item<+T> = Item(id: string, value: T)

  datatype Slot<+T> = Slot(item: Option<Item<T>>, next: nat, prev: nat)

  /** The fields of `item_container` at one moment; `max` is `|slots|`. */
  datatype Store<+T> = Store(slots: seq<Slot<T>>, num: nat, nextSlot: nat, last: nat, index: map<string, nat>)

  /** The slot before, and the slot at, position `i` of the ring 0, o[0], o[1], ..., 0. */
  function Pred(o: seq<nat>, i: nat): nat
    requires i <= |o|
  {
    if i == 0 then 0 else o[i - 1]
  }

  function Succ(o: seq<nat>, i: nat): nat
    requires i <= |o|
  {
    if i == |o| then 0 else o[i]
  }

  /** `o` lists distinct slots inside the array, none of them the sentinel. */
  ghost predicate Distinct(o: seq<nat>, max: nat) {
    && (forall i :: 0 <= i < |o| ==> 0 < o[i] < max)
    && (forall i, j :: 0 <= i < j < |o| ==> o[i] != o[j])
  }

  /** The links at position `i`: `next` leads to it from its predecessor, `prev` leads back. */
  ghost predicate NextAt<T>(s: seq<Slot<T>>, o: seq<nat>, i: nat) {
    i <= |o| && Pred(o, i) < |s| && s[Pred(o, i)].next == Succ(o, i)
  }

  ghost predicate PrevAt<T>(s: seq<Slot<T>>, o: seq<nat>, i: nat) {
    i < |o| && o[i] < |s| && s[o[i]].prev == Pred(o, i)
  }

  /** Following `next` from slot 0 visits `o` in order and returns to 0; `prev` leads back. */
  ghost predicate Chained<T>(s: seq<Slot<T>>, o: seq<nat>) {
    && 0 < |s|
    && Distinct(o, |s|)
    && (forall i: nat :: i <= |o| ==> NextAt(s, o, i))
    && (forall i: nat :: i < |o| ==> PrevAt(s, o, i))
  }

  predicate Live<T>(s: seq<Slot<T>>, j: nat) {
    j < |s| && s[j].item.Some?
  }

  /** The slots that hold an item are exactly those on the list. */
  ghost predicate Occupied<T>(s: seq<Slot<T>>, o: seq<nat>) {
    && (forall j: nat :: Live(s, j) ==> j in o)
    && (forall i :: 0 <= i < |o| ==> Live(s, o[i]))
  }

  /** What reading `map[id]` yields: a missing key reads as 0. */
  function Look(m: map<string, nat>, id: string): nat {
    if id in m then m[id] else 0
  }

  /** `m` is nonzero exactly on the ids of stored items, and names the slot holding each. */
  ghost predicate Indexed<T>(s: seq<Slot<T>>, m: map<string, nat>) {
    && (forall id :: Look(m, id) != 0 ==> Live(s, Look(m, id)) && s[Look(m, id)].item.value.id == id)
    && (forall j: nat :: Live(s, j) ==> Look(m, s[j].item.value.id) == j)
  }

  /** `k` is the least empty slot from 1 on, or the size of the array when there is none. */
  ghost predicate LeastFree<T>(s: seq<Slot<T>>, k: nat) {
    && 1 <= k <= |s|
    && (forall j: nat :: 1 <= j < k ==> Live(s, j))
    && !Live(s, k)
  }

  ghost predicate Inv<T>(st: Store<T>, o: seq<nat>) {
    && Chained(st.slots, o)
    && Occupied(st.slots, o)
    && Indexed(st.slots, st.index)
    && LeastFree(st.slots, st.nextSlot)
    && st.num == |o| < |st.slots|
    && st.last == Pred(o, |o|)
    && st.slots[0].prev < |st.slots|
  }

  /** The items of the list, in list order. */
  ghost function Contents<T>(s: seq<Slot<T>>, o: seq<nat>): (c: seq<Item<T>>)
    requires Occupied(s, o)
    ensures |c| == |o|
    ensures forall i :: 0 <= i < |o| ==> c[i] == s[o[i]].item.value
  {
    seq(|o|, i requires 0 <= i < |o| => s[o[i]].item.value)
  }

  /** No two items share an id. */
  ghost predicate UniqueIds<T>(c: seq<Item<T>>) {
    forall i, j :: 0 <= i < j < |c| ==> c[i].id != c[j].id
  }

  // ---------------------------------------------------------------------------
  // The updates of the source
  // ---------------------------------------------------------------------------

  /** check_and_resize: double the array when only the sentinel's worth of room is left. */
  function Grown<T>(st: Store<T>): (s: seq<Slot<T>>)
    ensures |s| >= |st.slots|
    ensures forall j :: 0 <= j < |st.slots| ==> s[j] == st.slots[j]
    ensures forall j :: |st.slots| <= j < |s| ==> s[j] == Slot(None, 0, 0)
  {
    if |st.slots| == st.num + 1
    then st.slots + seq(|st.slots|, _ => Slot(None, 0, 0))
    else st.slots
  }

  /** Give slot `rc` the item and thread it between slots `p` and `n`. */
  function LinkIn<T>(s: seq<Slot<T>>, rc: nat, it: Item<T>, p: nat, n: nat): (s': seq<Slot<T>>)
    requires rc < |s| && p < |s| && n < |s|
    ensures |s'| == |s|
    ensures forall j :: 0 <= j < |s| ==> s'[j].item == if j == rc then Some(it) else s[j].item
    ensures forall j :: 0 <= j < |s| ==> s'[j].next == if j == p then rc else if j == rc then n else s[j].next
    ensures forall j :: 0 <= j < |s| ==> s'[j].prev == if j == n then rc else if j == rc then p else s[j].prev
  {
    var s1 := s[rc := Slot(Some(it), n, p)];
    var s2 := s1[p := s1[p].(next := rc)];
    s2[n := s2[n].(prev := rc)]
  }

  /** unlink_slot: empty slot `i`; the link back is rewritten only when `i` is not the tail. */
  function LinkOut<T>(s: seq<Slot<T>>, i: nat, tail: bool): (s': seq<Slot<T>>)
    requires i < |s| && s[i].prev < |s| && s[i].next < |s|
    ensures |s'| == |s|
    ensures forall j :: 0 <= j < |s| ==> s'[j].item == if j == i then None else s[j].item
    ensures forall j :: 0 <= j < |s| ==> s'[j].next == if j == s[i].prev then s[i].next else if j == i then 0 else s[j].next
    ensures forall j :: 0 <= j < |s| ==>
      s'[j].prev == if !tail && j == s[i].next then s[i].prev else if j == i then 0 else s[j].prev
  {
    var p, n := s[i].prev, s[i].next;
    var s1 := s[i := Slot(None, 0, 0)];
    var s2 := s1[p := s1[p].(next := n)];
    if tail then s2 else s2[n := s2[n].(prev := p)]
  }

  /** update_next_slot: the first slot from `k` on that is empty or outside the array. */
  function FirstFree<T>(s: seq<Slot<T>>, k: nat): (f: nat)
    requires k <= |s|
    ensures k <= f <= |s|
    ensures forall j: nat :: k <= j < f ==> Live(s, j)
    ensures !Live(s, f)
    decreases |s| - k
  {
    if Live(s, k) then FirstFree(s, k + 1) else k
  }

  // ---------------------------------------------------------------------------
  // Consequences of the invariant
  // ---------------------------------------------------------------------------

  /** A list naming every slot from 1 to max-1 has at least max-1 entries. */
  lemma {:induction false} Pigeonhole(o: seq<nat>, max: nat)
    requires forall j: nat :: 1 <= j < max ==> j in o
    ensures max <= |o| + 1
    decreases max
  {
    if max > 1 {
      assert max - 1 in o;
      var i: nat :| i < |o| && o[i] == max - 1;
      var rest := o[..i] + o[i + 1..];
      forall j: nat | 1 <= j < max - 1 ensures j in rest {
        assert j in o;
        var k: nat :| k < |o| && o[k] == j;
        assert rest[if k < i then k else k - 1] == j;
      }
      Pigeonhole(rest, max - 1);
    }
  }

  /** Room left in the array means the allocator's slot lies inside it and is empty. */
  lemma RoomMeansFreeSlot<T>(s: seq<Slot<T>>, o: seq<nat>, k: nat)
    requires Occupied(s, o) && LeastFree(s, k) && |o| + 1 < |s|
    ensures k < |s| && k !in o
  {
    if k == |s| {
      assert forall j: nat :: 1 <= j < |s| ==> Live(s, j);
      Pigeonhole(o, |s|);
    }
  }

  /** Doubling changes no slot in use, leaves room for one more item, and keeps the invariant. */
  lemma GrowKeeps<T>(st: Store<T>, o: seq<nat>)
    requires Inv(st, o)
    ensures var st' := st.(slots := Grown(st));
            && Inv(st', o)
            && Contents(st'.slots, o) == Contents(st.slots, o)
            && |o| + 1 < |st'.slots|
            && 1 <= st.nextSlot < |st'.slots| && !Live(st'.slots, st.nextSlot) && st.nextSlot !in o
  {
    var s' := Grown(st);
    assert forall j: nat :: Live(s', j) ==> Live(st.slots, j);
    assert forall j: nat :: Live(st.slots, j) ==> Live(s', j);
    forall i: nat | i <= |o| ensures NextAt(s', o, i) {
      assert NextAt(st.slots, o, i);
    }
    forall i: nat | i < |o| ensures PrevAt(s', o, i) {
      assert PrevAt(st.slots, o, i);
    }
    assert Contents(s', o) == Contents(st.slots, o);
    RoomMeansFreeSlot(s', o, st.nextSlot);
  }

  /** The list a store represents is determined by its `next` links alone. */
  lemma {:induction false} OrderUnique<T>(s: seq<Slot<T>>, o: seq<nat>, o': seq<nat>, k: nat)
    requires Chained(s, o) && Chained(s, o')
    requires k <= |o| && k <= |o'|
    ensures o[..k] == o'[..k]
    ensures k == |o| ==> o == o'
  {
    if k > 0 {
      OrderUnique(s, o, o', k - 1);
      assert NextAt(s, o, k - 1) && NextAt(s, o', k - 1);
      assert k > 1 ==> o[k - 2] == o[..k - 1][k - 2] == o'[..k - 1][k - 2] == o'[k - 2];
    }
    if k == |o| {
      assert NextAt(s, o, k) && NextAt(s, o', k);
      assert k > 0 ==> o[k - 1] == o[..k][k - 1] == o'[..k][k - 1] == o'[k - 1];
    }
  }

  /** An item reached through the index is on the list. */
  lemma LookFinds<T>(st: Store<T>, o: seq<nat>, id: string) returns (k: nat)
    requires Inv(st, o) && Look(st.index, id) != 0
    ensures k < |o| && o[k] == Look(st.index, id) && Contents(st.slots, o)[k].id == id
  {
    k :| k < |o| && o[k] == Look(st.index, id);
  }

  lemma IdsAreUnique<T>(st: Store<T>, o: seq<nat>)
    requires Inv(st, o)
    ensures UniqueIds(Contents(st.slots, o))
    ensures forall i :: 0 <= i < |o| ==> Look(st.index, Contents(st.slots, o)[i].id) == o[i]
  {
    var c := Contents(st.slots, o);
    forall i, j | 0 <= i < j < |c| ensures c[i].id != c[j].id {
      assert Live(st.slots, o[i]) && Live(st.slots, o[j]);
    }
  }

  // ---------------------------------------------------------------------------
  // Insertion
  // ---------------------------------------------------------------------------

  function InsertedAt<T>(c: seq<T>, k: nat, x: T): (c': seq<T>)
    requires k <= |c|
    ensures |c'| == |c| + 1
    ensures forall i :: 0 <= i <= |c| ==> c'[i] == if i < k then c[i] else if i == k then x else c[i - 1]
  {
    c[..k] + [x] + c[k..]
  }

  lemma LinkInNext<T>(s: seq<Slot<T>>, o: seq<nat>, k: nat, rc: nat, it: Item<T>, i: nat)
    requires Chained(s, o) && k <= |o| && i <= |o| + 1
    requires 0 < rc < |s| && rc !in o
    ensures Pred(o, k) < |s| && Succ(o, k) < |s|
    ensures NextAt(LinkIn(s, rc, it, Pred(o, k), Succ(o, k)), InsertedAt(o, k, rc), i)
  {
    assert NextAt(s, o, if i <= k then i else i - 1);
  }

  lemma LinkInPrev<T>(s: seq<Slot<T>>, o: seq<nat>, k: nat, rc: nat, it: Item<T>, i: nat)
    requires Chained(s, o) && k <= |o| && i <= |o|
    requires 0 < rc < |s| && rc !in o
    ensures Pred(o, k) < |s| && Succ(o, k) < |s|
    ensures PrevAt(LinkIn(s, rc, it, Pred(o, k), Succ(o, k)), InsertedAt(o, k, rc), i)
  {
    if i < k {
      assert PrevAt(s, o, i);
    } else if i > k {
      assert PrevAt(s, o, i - 1);
    }
  }

  lemma LinkInChains<T>(s: seq<Slot<T>>, o: seq<nat>, k: nat, rc: nat, it: Item<T>)
    requires Chained(s, o) && k <= |o|
    requires 0 < rc < |s| && rc !in o
    ensures Pred(o, k) < |s| && Succ(o, k) < |s|
    ensures Chained(LinkIn(s, rc, it, Pred(o, k), Succ(o, k)), InsertedAt(o, k, rc))
  {
    var s' := LinkIn(s, rc, it, Pred(o, k), Succ(o, k));
    var o' := InsertedAt(o, k, rc);
    forall i: nat | i <= |o'| ensures NextAt(s', o', i) {
      LinkInNext(s, o, k, rc, it, i);
    }
    forall i: nat | i < |o'| ensures PrevAt(s', o', i) {
      LinkInPrev(s, o, k, rc, it, i);
    }
  }

  lemma InsertedMember(o: seq<nat>, k: nat, rc: nat, j: nat)
    requires k <= |o|
    ensures j in InsertedAt(o, k, rc) <==> j == rc || j in o
  {
    var o' := InsertedAt(o, k, rc);
    assert o'[k] == rc;
    if j in o {
      var i: nat :| i < |o| && o[i] == j;
      assert o'[if i < k then i else i + 1] == j;
    }
  }

  lemma LinkInOccupies<T>(s: seq<Slot<T>>, o: seq<nat>, k: nat, rc: nat, it: Item<T>, p: nat, n: nat)
    requires Occupied(s, o) && k <= |o|
    requires rc < |s| && p < |s| && n < |s| && rc !in o
    ensures var s', o' := LinkIn(s, rc, it, p, n), InsertedAt(o, k, rc);
            && Occupied(s', o')
            && Contents(s', o') == InsertedAt(Contents(s, o), k, it)
  {
    var s', o' := LinkIn(s, rc, it, p, n), InsertedAt(o, k, rc);
    forall j: nat ensures Live(s', j) <==> j in o' {
      InsertedMember(o, k, rc, j);
      assert Live(s, j) <==> j in o;
    }
    FilledContents(s, o, k, rc, it, s', o');
  }

  lemma FilledContents<T>(s: seq<Slot<T>>, o: seq<nat>, k: nat, rc: nat, it: Item<T>, s': seq<Slot<T>>, o': seq<nat>)
    requires Occupied(s, o) && Occupied(s', o') && k <= |o| && rc !in o && rc < |s|
    requires o' == InsertedAt(o, k, rc) && |s'| == |s|
    requires forall j :: 0 <= j < |s| ==> s'[j].item == if j == rc then Some(it) else s[j].item
    ensures Contents(s', o') == InsertedAt(Contents(s, o), k, it)
  {
    var c, c' := Contents(s, o), Contents(s', o');
    forall i | 0 <= i < |c'| ensures c'[i] == InsertedAt(c, k, it)[i] {
      if i != k {
        assert o'[i] == o[if i < k then i else i - 1];
      }
    }
  }

  /** The store after insert_thing, insert_thing_after or insert_thing_before. */
  function Inserted<T>(st: Store<T>, it: Item<T>, p: nat, n: nat, last: nat): (st': Store<T>)
    requires st.nextSlot < |Grown(st)| && p < |st.slots| && n < |st.slots|
  {
    var s' := LinkIn(Grown(st), st.nextSlot, it, p, n);
    Store(s', st.num + 1, FirstFree(s', st.nextSlot), last, st.index[it.id := st.nextSlot])
  }

  lemma LinkInIndexes<T>(st: Store<T>, o: seq<nat>, it: Item<T>, p: nat, n: nat, last: nat)
    requires Inv(st, o) && p < |st.slots| && n < |st.slots|
    requires Look(st.index, it.id) == 0
    ensures st.nextSlot < |Grown(st)|
    ensures var st' := Inserted(st, it, p, n, last);
            && Indexed(st'.slots, st'.index)
            && LeastFree(st'.slots, st'.nextSlot)
  {
    GrowKeeps(st, o);
    var g, rc := Grown(st), st.nextSlot;
    var st' := Inserted(st, it, p, n, last);
    forall id | Look(st'.index, id) != 0
      ensures Live(st'.slots, Look(st'.index, id)) && st'.slots[Look(st'.index, id)].item.value.id == id
    {
      if id != it.id {
        assert Look(st'.index, id) == Look(st.index, id);
        assert Live(g, Look(st.index, id));
      }
    }
    forall j: nat | Live(st'.slots, j) ensures Look(st'.index, st'.slots[j].item.value.id) == j {
      if j != rc {
        assert Live(g, j);
      }
    }
    forall j: nat | 1 <= j < st'.nextSlot ensures Live(st'.slots, j) {
      if j < rc {
        assert Live(g, j);
      }
    }
  }

  /** Inserting a new id at position `k` keeps the invariant and inserts into the abstract list. */
  lemma InsertKeeps<T>(st: Store<T>, o: seq<nat>, k: nat, it: Item<T>)
    requires Inv(st, o) && k <= |o|
    requires Look(st.index, it.id) == 0
    ensures st.nextSlot < |Grown(st)| && Pred(o, k) < |st.slots| && Succ(o, k) < |st.slots|
    ensures var o' := InsertedAt(o, k, st.nextSlot);
            var st' := Inserted(st, it, Pred(o, k), Succ(o, k), Pred(o', |o'|));
            && Inv(st', o')
            && Contents(st'.slots, o') == InsertedAt(Contents(st.slots, o), k, it)
            && st'.last == (if k == |o| then st.nextSlot else st.last)
            && st'.slots[0].prev == (if k == |o| then st.nextSlot else st.slots[0].prev)
  {
    GrowKeeps(st, o);
    var g, rc := Grown(st), st.nextSlot;
    LinkInChains(g, o, k, rc, it);
    LinkInOccupies(g, o, k, rc, it, Pred(o, k), Succ(o, k));
    LinkInIndexes(st, o, it, Pred(o, k), Succ(o, k), Pred(InsertedAt(o, k, rc), |o| + 1));
  }

  /** Inserting an id that is already stored leaves a store that represents no list at all. */
  lemma DuplicateBreaks<T>(st: Store<T>, o: seq<nat>, it: Item<T>, p: nat, n: nat, last: nat)
    requires Inv(st, o) && p < |st.slots| && n < |st.slots|
    requires Look(st.index, it.id) != 0
    ensures st.nextSlot < |Grown(st)|
    ensures forall o' :: !Inv(Inserted(st, it, p, n, last), o')
  {
    GrowKeeps(st, o);
    var st' := Inserted(st, it, p, n, last);
    var d := Look(st.index, it.id);
    assert Live(Grown(st), d) && d != st.nextSlot;
    assert Live(st'.slots, d) && st'.slots[d].item.value.id == it.id;
    assert Look(st'.index, it.id) == st.nextSlot;
  }

  /**
    insert_thing_before with index 0 (what insert_at does at the end position) threads the
    new slot before the sentinel but leaves `last` alone: the result represents no list,
    whatever the sentinel's back link `p` was.
   */
  lemma InsertBeforeSentinelBreaks<T>(st: Store<T>, o: seq<nat>, it: Item<T>, p: nat)
    requires Inv(st, o) && p < |st.slots|
    ensures 0 < st.nextSlot < |Grown(st)|
    ensures forall o' :: !Inv(Inserted(st, it, p, 0, st.last), o')
  {
    GrowKeeps(st, o);
    var rc := st.nextSlot;
    var st' := Inserted(st, it, p, 0, st.last);
    assert Live(st'.slots, rc) && (st'.slots[rc].next == 0 || st'.slots[rc].next == rc);
    assert st'.last != rc;
    forall o' ensures !Inv(st', o') {
      if rc in o' && Distinct(o', |st'.slots|) && st'.last == Pred(o', |o'|) {
        var i: nat :| i < |o'| && o'[i] == rc;
        assert !NextAt(st'.slots, o', i + 1);
      }
    }
  }

  // ---------------------------------------------------------------------------
  // Removal
  // ---------------------------------------------------------------------------

  function RemovedAt<T>(c: seq<T>, k: nat): (c': seq<T>)
    requires k < |c|
    ensures |c'| == |c| - 1
    ensures forall i :: 0 <= i < |c'| ==> c'[i] == if i < k then c[i] else c[i + 1]
  {
    c[..k] + c[k + 1..]
  }

  lemma LinkOutNext<T>(s: seq<Slot<T>>, o: seq<nat>, k: nat, tail: bool, i: nat)
    requires Distinct(o, |s|) && k < |o| && i < |o|
    requires NextAt(s, o, k + 1) && PrevAt(s, o, k) && NextAt(s, o, if i < k then i else i + 1)
    ensures s[o[k]].prev < |s| && s[o[k]].next < |s|
    ensures NextAt(LinkOut(s, o[k], tail), RemovedAt(o, k), i)
  {
    if i < k {
      assert k > 0 ==> Pred(o, i) != Pred(o, k);
    }
  }

  lemma LinkOutPrev<T>(s: seq<Slot<T>>, o: seq<nat>, k: nat, i: nat)
    requires Distinct(o, |s|) && k < |o| && i + 1 < |o|
    requires NextAt(s, o, k + 1) && PrevAt(s, o, k) && PrevAt(s, o, if i < k then i else i + 1)
    ensures s[o[k]].prev < |s| && s[o[k]].next < |s|
    ensures PrevAt(LinkOut(s, o[k], k + 1 == |o|), RemovedAt(o, k), i)
  {
    var j := if i < k then i else i + 1;
    assert RemovedAt(o, k)[i] == o[j];
    assert k + 1 < |o| && j != k + 1 ==> o[j] != o[k + 1];
  }

  lemma LinkOutUnchains<T>(s: seq<Slot<T>>, o: seq<nat>, k: nat)
    requires Chained(s, o) && k < |o|
    ensures s[o[k]].prev == Pred(o, k) < |s| && s[o[k]].next == Succ(o, k + 1) < |s|
    ensures Chained(LinkOut(s, o[k], k + 1 == |o|), RemovedAt(o, k))
  {
    assert NextAt(s, o, k + 1) && PrevAt(s, o, k);
    var s' := LinkOut(s, o[k], k + 1 == |o|);
    var o' := RemovedAt(o, k);
    assert Distinct(o', |s'|);
    forall i: nat | i <= |o'| ensures NextAt(s', o', i) {
      assert NextAt(s, o, if i < k then i else i + 1);
      LinkOutNext(s, o, k, k + 1 == |o|, i);
    }
    forall i: nat | i < |o'| ensures PrevAt(s', o', i) {
      assert PrevAt(s, o, if i < k then i else i + 1);
      LinkOutPrev(s, o, k, i);
    }
  }

  lemma LinkOutVacates<T>(s: seq<Slot<T>>, o: seq<nat>, k: nat, tail: bool)
    requires Occupied(s, o) && k < |o| && Distinct(o, |s|)
    requires s[o[k]].prev < |s| && s[o[k]].next < |s|
    ensures var s', o' := LinkOut(s, o[k], tail), RemovedAt(o, k);
            && Occupied(s', o')
            && Contents(s', o') == RemovedAt(Contents(s, o), k)
  {
    var s', o' := LinkOut(s, o[k], tail), RemovedAt(o, k);
    forall j: nat | Live(s', j) ensures j in o' {
      assert Live(s, j);
      var i: nat :| i < |o| && o[i] == j;
      assert o'[if i < k then i else i - 1] == j;
    }
    forall i | 0 <= i < |o'| ensures Live(s', o'[i]) {
      assert Live(s, o[if i < k then i else i + 1]);
    }
    assert Contents(s', o') == RemovedAt(Contents(s, o), k);
  }

  /** The store after unlinking slot `i`, decrementing the count and lowering `next_slot`. */
  function Removed<T>(st: Store<T>, i: nat): (st': Store<T>)
    requires Live(st.slots, i) && st.slots[i].prev < |st.slots| && st.slots[i].next < |st.slots|
    requires st.num > 0
  {
    Store(LinkOut(st.slots, i, st.last == i), st.num - 1,
          if i < st.nextSlot then i else st.nextSlot,
          if st.last == i then st.slots[i].prev else st.last,
          st.index - {st.slots[i].item.value.id})
  }

  lemma LinkOutIndexes<T>(st: Store<T>, i: nat)
    requires Indexed(st.slots, st.index) && LeastFree(st.slots, st.nextSlot)
    requires 0 < i && Live(st.slots, i) && st.slots[i].prev < |st.slots| && st.slots[i].next < |st.slots|
    requires st.num > 0
    ensures var st' := Removed(st, i);
            && Indexed(st'.slots, st'.index)
            && LeastFree(st'.slots, st'.nextSlot)
  {
    var st' := Removed(st, i);
    var gone := st.slots[i].item.value.id;
    forall id | Look(st'.index, id) != 0
      ensures Live(st'.slots, Look(st'.index, id)) && st'.slots[Look(st'.index, id)].item.value.id == id
    {
      assert id != gone && Look(st'.index, id) == Look(st.index, id);
      assert Live(st.slots, Look(st.index, id));
    }
    forall j: nat | Live(st'.slots, j) ensures Look(st'.index, st'.slots[j].item.value.id) == j {
      assert Live(st.slots, j);
    }
    forall j: nat | 1 <= j < st'.nextSlot ensures Live(st'.slots, j) {
      assert Live(st.slots, j);
    }
  }

  lemma RemoveKeeps<T>(st: Store<T>, o: seq<nat>, k: nat)
    requires Inv(st, o) && k < |o|
    ensures st.slots[o[k]].prev == Pred(o, k) < |st.slots| && st.slots[o[k]].next == Succ(o, k + 1) < |st.slots|
    ensures Live(st.slots, o[k]) && o[k] != Pred(o, k)
    ensures var st', o' := Removed(st, o[k]), RemovedAt(o, k);
            && Inv(st', o')
            && Contents(st'.slots, o') == RemovedAt(Contents(st.slots, o), k)
            && st'.slots[0].prev == st.slots[0].prev
            && st'.last == if k + 1 == |o| then Pred(o, k) else st.last
  {
    RemoveTail(o, k, |st.slots|);
    LinkOutUnchains(st.slots, o, k);
    LinkOutVacates(st.slots, o, k, k + 1 == |o|);
    LinkOutIndexes(st, o[k]);
  }

  lemma RemoveTail(o: seq<nat>, k: nat, max: nat)
    requires Distinct(o, max) && k < |o|
    ensures o[k] == Pred(o, |o|) <==> k + 1 == |o|
    ensures k + 1 < |o| <==> Succ(o, k + 1) != 0
    ensures var o' := RemovedAt(o, k); Pred(o', |o'|) == if k + 1 == |o| then Pred(o, k) else Pred(o, |o|)
  {
  }

  // ---------------------------------------------------------------------------
  // Exchange and clearing
  // ---------------------------------------------------------------------------

  /** swap: the two slots trade items and the index follows. */
  function Swapped<T>(st: Store<T>, i: nat, j: nat): (st': Store<T>)
    requires Live(st.slots, i) && Live(st.slots, j)
  {
    var s := st.slots;
    st.(slots := s[i := s[i].(item := s[j].item)][j := s[j].(item := s[i].item)],
        index := st.index[s[i].item.value.id := j][s[j].item.value.id := i])
  }

  lemma SwapKeeps<T>(st: Store<T>, o: seq<nat>, a: nat, b: nat)
    requires Inv(st, o) && a < |o| && b < |o| && a != b
    ensures var st' := Swapped(st, o[a], o[b]);
            var c := Contents(st.slots, o);
            && Inv(st', o)
            && Contents(st'.slots, o) == c[a := c[b]][b := c[a]]
            && st'.slots[0].prev == st.slots[0].prev
  {
    var i, j := o[a], o[b];
    var s, st' := st.slots, Swapped(st, i, j);
    var s' := st'.slots;
    forall k: nat | k <= |o| ensures NextAt(s', o, k) {
      assert NextAt(s, o, k);
    }
    forall k: nat | k < |o| ensures PrevAt(s', o, k) {
      assert PrevAt(s, o, k);
    }
    assert forall k: nat :: Live(s', k) <==> Live(s, k);
    SwapIndexes(st, i, j);
    assert Contents(s', o) == (var c := Contents(s, o); c[a := c[b]][b := c[a]]);
  }

  lemma SwapIndexes<T>(st: Store<T>, i: nat, j: nat)
    requires Indexed(st.slots, st.index) && Live(st.slots, i) && Live(st.slots, j) && i != j
    ensures Indexed(Swapped(st, i, j).slots, Swapped(st, i, j).index)
  {
    var s, st' := st.slots, Swapped(st, i, j);
    var x, y := s[i].item.value.id, s[j].item.value.id;
    forall id | Look(st'.index, id) != 0
      ensures Live(st'.slots, Look(st'.index, id)) && st'.slots[Look(st'.index, id)].item.value.id == id
    {
      if id != x && id != y {
        assert Look(st'.index, id) == Look(st.index, id);
        assert Live(s, Look(st.index, id));
      }
    }
    forall k: nat | Live(st'.slots, k) ensures Look(st'.index, st'.slots[k].item.value.id) == k {
      assert Live(s, k);
    }
  }

  /** clear: every slot blank, nothing indexed. */
  lemma BlankIsEmpty<T>(st: Store<T>)
    requires 0 < |st.slots|
    requires forall j :: 0 <= j < |st.slots| ==> st.slots[j] == Slot(None, 0, 0)
    requires forall id :: Look(st.index, id) == 0
    requires st.num == 0 && st.nextSlot == 1 && st.last == 0
    ensures Inv(st, []) && Contents(st.slots, []) == []
  {
    assert forall j: nat :: !Live(st.slots, j);
    assert NextAt(st.slots, [], 0);
  }
}
