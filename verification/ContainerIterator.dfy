/** `item_container::item_iterator` (src/include/container.hpp:104-197). */
module ContainerIterator {
  import opened Common
  import opened Slots
  import opened ItemList
  import opened Container

  ghost function IndexIn(o: seq<nat>, x: nat): (k: nat)
    requires x in o
    ensures k < |o| && o[k] == x
  {
    var k: nat :| k < |o| && o[k] == x;
    k
  }

  /** What an iterator standing on slot `iter` has still to return: forward, or backward. */
  ghost function Ahead<T>(c: seq<Item<T>>, o: seq<nat>, iter: nat, reversed: bool): seq<Item<T>>
    requires |c| == |o|
  {
    if iter !in o then [] else if reversed then Reversed(c[..IndexIn(o, iter) + 1]) else c[IndexIn(o, iter)..]
  }

  lemma ReversedTail<T>(c: seq<T>, k: nat)
    requires k < |c|
    ensures Reversed(c[..k + 1])[0] == c[k]
    ensures Reversed(c[..k + 1])[1..] == Reversed(c[..k])
  {
  }

  /** Reading slot `iter` and moving along `next` (or `prev`) takes the head off what is ahead. */
  lemma AheadStep<T>(st: Store<T>, o: seq<nat>, iter: nat, reversed: bool)
    requires Inv(st, o) && iter < |st.slots|
    ensures var ahead := Ahead(Contents(st.slots, o), o, iter, reversed);
            var iter' := if reversed then st.slots[iter].prev else st.slots[iter].next;
            && (ahead == [] <==> st.slots[iter].item.None?)
            && (ahead != [] ==> iter' < |st.slots| && ahead[0] == st.slots[iter].item.value &&
                                Ahead(Contents(st.slots, o), o, iter', reversed) == ahead[1..])
  {
    if iter in o {
      AheadAtStep(st, o, IndexIn(o, iter), reversed);
    } else {
      NotOnList(st, o, iter);
    }
  }

  lemma AheadAtStep<T>(st: Store<T>, o: seq<nat>, k: nat, reversed: bool)
    requires Inv(st, o) && k < |o|
    ensures var c := Contents(st.slots, o);
            var ahead := Ahead(c, o, o[k], reversed);
            var iter' := if reversed then st.slots[o[k]].prev else st.slots[o[k]].next;
            && Live(st.slots, o[k]) && iter' < |st.slots|
            && ahead != [] && ahead[0] == c[k]
            && Ahead(c, o, iter', reversed) == ahead[1..]
  {
    if reversed {
      BackStep(st, o, k);
    } else {
      ForwardStep(st, o, k);
    }
  }

  lemma ForwardStep<T>(st: Store<T>, o: seq<nat>, k: nat)
    requires Inv(st, o) && k < |o|
    ensures var c := Contents(st.slots, o);
            && Live(st.slots, o[k]) && st.slots[o[k]].next < |st.slots|
            && Ahead(c, o, o[k], false) == c[k..]
            && Ahead(c, o, st.slots[o[k]].next, false) == c[k + 1..]
  {
    hide Inv, Ahead, Occupied, Contents;
    InvOccupied(st, o);
    AroundSlot(st, o, k);
    AheadAt(st, o, k, false);
    SentinelAhead(st, o, false);
    if k + 1 < |o| {
      AheadAt(st, o, k + 1, false);
    }
  }

  lemma BackStep<T>(st: Store<T>, o: seq<nat>, k: nat)
    requires Inv(st, o) && k < |o|
    ensures var c := Contents(st.slots, o);
            && Live(st.slots, o[k]) && st.slots[o[k]].prev < |st.slots|
            && Ahead(c, o, o[k], true) == Reversed(c[..k + 1])
            && Ahead(c, o, o[k], true)[0] == c[k]
            && Ahead(c, o, st.slots[o[k]].prev, true) == Ahead(c, o, o[k], true)[1..]
  {
    hide Inv, Ahead, Reversed, Occupied, Contents;
    InvOccupied(st, o);
    ReversedTail(Contents(st.slots, o), k);
    AroundSlot(st, o, k);
    AheadAt(st, o, k, true);
    SentinelAhead(st, o, true);
    if k > 0 {
      AheadAt(st, o, k - 1, true);
    }
  }

  lemma InvOccupied<T>(st: Store<T>, o: seq<nat>)
    requires Inv(st, o)
    ensures Occupied(st.slots, o)
  {
  }

  lemma AheadAt<T>(st: Store<T>, o: seq<nat>, k: nat, reversed: bool)
    requires Inv(st, o) && k < |o|
    ensures var c := Contents(st.slots, o);
            && Live(st.slots, o[k])
            && Ahead(c, o, o[k], reversed) == (if reversed then Reversed(c[..k + 1]) else c[k..])
  {
    assert IndexIn(o, o[k]) == k;
  }

  lemma SentinelAhead<T>(st: Store<T>, o: seq<nat>, reversed: bool)
    requires Inv(st, o)
    ensures 0 !in o && Ahead(Contents(st.slots, o), o, 0, reversed) == []
  {
  }

  lemma NotOnList<T>(st: Store<T>, o: seq<nat>, iter: nat)
    requires Inv(st, o) && iter < |st.slots| && iter !in o
    ensures st.slots[iter].item.None?
  {
    assert Live(st.slots, iter) ==> iter in o;
  }

  /** Where a fresh iterator stands: everything ahead forward; backward only if the back link is good. */
  lemma StartAhead<T>(st: Store<T>, o: seq<nat>)
    requires Inv(st, o)
    ensures var c := Contents(st.slots, o);
            && 0 < |st.slots|
            && Ahead(c, o, st.slots[0].next, false) == c
            && (Ahead(c, o, st.slots[0].prev, true) == Reversed(c) <==> c == [] || st.slots[0].prev == st.last)
  {
    hide Inv, Ahead, Occupied;
    InvOccupied(st, o);
    var c := Contents(st.slots, o);
    FirstStep(st, o);
    SentinelAhead(st, o, false);
    if o != [] {
      AheadAt(st, o, 0, false);
      BackAhead(st, o, st.slots[0].prev);
    } else {
      assert Ahead(c, o, st.slots[0].prev, true) == [] by { BackAhead(st, o, st.slots[0].prev); }
    }
  }

  lemma BackAhead<T>(st: Store<T>, o: seq<nat>, b: nat)
    requires Inv(st, o)
    ensures var c := Contents(st.slots, o);
            Ahead(c, o, b, true) == Reversed(c) <==> c == [] || b == st.last
  {
    var c := Contents(st.slots, o);
    if b in o {
      var k := IndexIn(o, b);
      AheadAt(st, o, k, true);
      assert |Ahead(c, o, b, true)| == k + 1;
      assert c[..|o|] == c;
    }
  }

  /** Removing an item that is not ahead leaves what is ahead unchanged, in either direction. */
  lemma AheadAfterRemoval<T>(c: seq<Item<T>>, o: seq<nat>, max: nat, k: nat, iter: nat, reversed: bool)
    requires |c| == |o| && Distinct(o, max) && k < |o|
    requires iter in o ==> if reversed then IndexIn(o, iter) < k else k < IndexIn(o, iter)
    ensures Ahead(RemovedAt(c, k), RemovedAt(o, k), iter, reversed) == Ahead(c, o, iter, reversed)
  {
    var c', o' := RemovedAt(c, k), RemovedAt(o, k);
    if iter in o {
      var m := IndexIn(o, iter);
      if reversed {
        assert o'[m] == iter;
        assert IndexIn(o', iter) == m;
        assert c'[..m + 1] == c[..m + 1];
      } else {
        assert o'[m - 1] == iter;
        assert IndexIn(o', iter) == m - 1;
        assert c'[m - 1..] == c[m..];
      }
    } else {
      assert forall i :: 0 <= i < |o'| ==> o'[i] in o;
    }
  }

  class ItemIterator<T> {
    const container: ItemContainer<T>
    const reversed: bool
    var iter: nat
    var endHit: bool

    ghost predicate Valid()
      reads this, container
    {
      container.Valid() && iter < |container.slots|
    }

    /** The items this iterator has still to return. */
    ghost function Pending(): seq<Item<T>>
      requires Valid()
      reads this, container
    {
      if endHit then [] else Ahead(container.Items(), container.order, iter, reversed)
    }

    constructor (c: ItemContainer<T>, reverse: bool)
      requires c.Valid()
      ensures container == c && reversed == reverse && Valid() && !endHit
      ensures !reverse ==> Pending() == c.Items()
      ensures reverse ==> (Pending() == Reversed(c.Items()) <==> c.Items() == [] || c.Back() == c.last)
    {
      FirstStep(c.Now(), c.order);
      hide Inv, Contents, Ahead;
      container, reversed := c, reverse;
      iter := if reverse then c.slots[0].prev else c.slots[0].next;
      endHit := false;
      new;
      StartAhead(c.Now(), c.order);
    }

    /** get_next_item: the head of what is pending, and nothing for ever once that is exhausted. */
    method GetNextItem() returns (r: Option<T>)
      requires Valid()
      modifies this
      ensures Valid()
      ensures old(Pending()) == [] ==> r == None && Pending() == []
      ensures old(Pending()) != [] ==> r == Some(old(Pending())[0].value) && Pending() == old(Pending())[1..]
    {
      if endHit {
        return None;
      }
      AheadStep(container.Now(), container.order, iter, reversed);
      if iter == 0 {
        SentinelAhead(container.Now(), container.order, reversed);
        endHit := true;
        return None;
      }
      var thing := container.slots[iter].item;
      if thing.None? {
        endHit := true;
        return None;
      }
      iter := if reversed then container.slots[iter].prev else container.slots[iter].next;
      r := Some(thing.value.value);
    }
  }

  lemma ValuesStep<T>(c: seq<Item<T>>, k: nat)
    requires k < |c|
    ensures Values(c[..k + 1]) == Values(c[..k]) + [c[k].value]
  {
  }

  /** Running an iterator to its end returns the values pending, in order. */
  method Drain<T>(it: ItemIterator<T>) returns (out: seq<T>)
    requires it.Valid()
    modifies it
    ensures it.Valid() && it.Pending() == []
    ensures out == Values(old(it.Pending()))
  {
    hide Inv, Contents, Ahead;
    out := [];
    ghost var k := 0;
    var r := it.GetNextItem();
    while r.Some?
      invariant it.Valid()
      invariant 0 <= k <= |old(it.Pending())|
      invariant r.Some? ==> k < |old(it.Pending())| && r.value == old(it.Pending())[k].value
      invariant r.Some? ==> it.Pending() == old(it.Pending())[k + 1..]
      invariant r.None? ==> k == |old(it.Pending())| && it.Pending() == []
      invariant out == Values(old(it.Pending())[..k])
      decreases |it.Pending()|, r.Some?
    {
      out := out + [r.value];
      ValuesStep(old(it.Pending()), k);
      k := k + 1;
      r := it.GetNextItem();
    }
    assert old(it.Pending())[..k] == old(it.Pending());
  }

  function Names<T>(c: seq<Item<T>>): (v: seq<string>)
    ensures |v| == |c| && forall i :: 0 <= i < |c| ==> v[i] == c[i].id
  {
    seq(|c|, i requires 0 <= i < |c| => c[i].id)
  }

  /** The items of `c` whose id is not in `ids`. */
  function Keeping<T>(c: seq<Item<T>>, ids: set<string>): seq<Item<T>> {
    if c == [] then [] else
    var rest := Keeping(c[..|c| - 1], ids);
    if c[|c| - 1].id in ids then rest else rest + [c[|c| - 1]]
  }

  /** Removing an item an iterator has returned, in either direction, does not disturb what it returns next. */
  method RemoveBehind<T>(it: ItemIterator<T>, id: string) returns (ok: bool)
    requires it.Valid() && !Has(it.Pending(), id)
    modifies it.container
    ensures it.Valid() && it.Pending() == old(it.Pending())
    ensures it.container.Items() == Without(old(it.container.Items()), id)
    ensures ok == Has(old(it.container.Items()), id)
  {
    hide Inv, Contents, Ahead, Position;
    var c := it.container;
    if Has(c.Items(), id) && !it.endHit {
      BehindAhead(c.Now(), c.order, id, it.iter, it.reversed);
    }
    ok := c.Remove(id);
  }

  lemma BehindOrAhead<T>(c: seq<Item<T>>, m: nat, k: nat)
    requires m < |c| && k < |c|
    ensures k < m || Has(c[m..], c[k].id)
  {
    if m <= k {
      assert c[m..][k - m] == c[k];
    }
  }

  lemma BeforeOrAhead<T>(c: seq<Item<T>>, m: nat, k: nat)
    requires m < |c| && k < |c|
    ensures m < k || Has(Reversed(c[..m + 1]), c[k].id)
  {
    if k <= m {
      assert Reversed(c[..m + 1])[m - k] == c[k];
    }
  }

  lemma BehindAhead<T>(st: Store<T>, o: seq<nat>, id: string, iter: nat, reversed: bool)
    requires Inv(st, o) && Has(Contents(st.slots, o), id)
    requires !Has(Ahead(Contents(st.slots, o), o, iter, reversed), id)
    ensures var c := Contents(st.slots, o);
            var k := Position(c, id);
            Ahead(RemovedAt(c, k), RemovedAt(o, k), iter, reversed) == Ahead(c, o, iter, reversed)
  {
    var c := Contents(st.slots, o);
    var k := Position(c, id);
    if iter in o {
      if reversed {
        BeforeOrAhead(c, IndexIn(o, iter), k);
      } else {
        BehindOrAhead(c, IndexIn(o, iter), k);
      }
    }
    hide Reversed;
    AheadAfterRemoval(c, o, |st.slots|, k, iter, reversed);
  }

  /** Removing the item under the cursor leaves nothing ahead. */
  lemma AheadLosesCursor<T>(c: seq<Item<T>>, o: seq<nat>, max: nat, k: nat, reversed: bool)
    requires |c| == |o| && Distinct(o, max) && k < |o|
    ensures Ahead(RemovedAt(c, k), RemovedAt(o, k), o[k], reversed) == []
  {
    var o' := RemovedAt(o, k);
    assert forall i :: 0 <= i < |o'| ==> o'[i] == o[if i < k then i else i + 1];
  }

  /** Removing an item farther ahead drops just that item. */
  lemma AheadDrops<T>(c: seq<Item<T>>, o: seq<nat>, max: nat, m: nat, k: nat, reversed: bool)
    requires |c| == |o| && Distinct(o, max) && k < |o| && m < |o| && if reversed then k < m else m < k
    ensures var ahead := Ahead(c, o, o[m], reversed);
            var j := if reversed then m - k else k - m;
            && j < |ahead| && ahead[j] == c[k]
            && Ahead(RemovedAt(c, k), RemovedAt(o, k), o[m], reversed) == RemovedAt(ahead, j)
  {
    var c', o' := RemovedAt(c, k), RemovedAt(o, k);
    assert IndexIn(o, o[m]) == m;
    if reversed {
      assert o'[m - 1] == o[m];
      assert IndexIn(o', o[m]) == m - 1;
      var ahead := Reversed(c[..m + 1]);
      assert Reversed(c'[..m]) == RemovedAt(ahead, m - k);
    } else {
      assert o'[m] == o[m];
      assert IndexIn(o', o[m]) == m;
      assert c'[m..] == RemovedAt(c[m..], k - m);
    }
  }

  lemma AheadUnique<T>(c: seq<Item<T>>, o: seq<nat>, iter: nat, reversed: bool)
    requires |c| == |o| && UniqueIds(c)
    ensures UniqueIds(Ahead(c, o, iter, reversed))
  {
  }

  /** Where the item `j` places ahead stands in the list. */
  lemma AheadIndex<T>(c: seq<Item<T>>, o: seq<nat>, iter: nat, reversed: bool, j: nat)
    requires |c| == |o| && j < |Ahead(c, o, iter, reversed)|
    ensures iter in o
    ensures var m := IndexIn(o, iter);
            var k := if reversed then m - j else m + j;
            0 <= k < |c| && Ahead(c, o, iter, reversed)[j] == c[k]
  {
    hide IndexIn;
  }

  lemma PendingIn<T>(c: seq<Item<T>>, o: seq<nat>, max: nat, id: string, iter: nat, reversed: bool)
    requires |c| == |o| && Distinct(o, max) && UniqueIds(c) && Has(Ahead(c, o, iter, reversed), id)
    ensures var ahead := Ahead(c, o, iter, reversed);
            var k := Position(c, id);
            && k < |o|
            && Ahead(RemovedAt(c, k), RemovedAt(o, k), iter, reversed) ==
                 if ahead[0].id == id then [] else Without(ahead, id)
  {
    hide Ahead, IndexIn, Position, Distinct, UniqueIds, RemovedAt;
    var ahead := Ahead(c, o, iter, reversed);
    var j := Position(ahead, id);
    AheadUnique(c, o, iter, reversed);
    if ahead[0].id == id {
      PositionIs(ahead, id, 0);
    }
    AheadIndex(c, o, iter, reversed, j);
    AheadIndex(c, o, iter, reversed, 0);
    var m := IndexIn(o, iter);
    var k := if reversed then m - j else m + j;
    PositionIs(c, id, k);
    if j == 0 {
      AheadLosesCursor(c, o, max, k, reversed);
    } else {
      AheadDrops(c, o, max, m, k, reversed);
    }
  }

  lemma PendingAhead<T>(st: Store<T>, o: seq<nat>, id: string, iter: nat, reversed: bool)
    requires Inv(st, o) && Has(Ahead(Contents(st.slots, o), o, iter, reversed), id)
    ensures var c := Contents(st.slots, o);
            var ahead := Ahead(c, o, iter, reversed);
            var k := Position(c, id);
            && k < |o| && Has(c, id)
            && Ahead(RemovedAt(c, k), RemovedAt(o, k), iter, reversed) ==
                 if ahead[0].id == id then [] else Without(ahead, id)
  {
    hide Inv, Contents, Ahead, Position, Distinct, UniqueIds;
    InvOccupied(st, o);
    IdsAreUnique(st, o);
    InvDistinct(st, o);
    PendingIn(Contents(st.slots, o), o, |st.slots|, id, iter, reversed);
  }

  lemma InvDistinct<T>(st: Store<T>, o: seq<nat>)
    requires Inv(st, o)
    ensures Distinct(o, |st.slots|) && |Contents(st.slots, o)| == |o|
  {
  }

  /**
    Removing an item still pending: the one under the cursor ends the iteration at once, for its slot is
    blanked; a later one is merely skipped.
   */
  method RemovePending<T>(it: ItemIterator<T>, id: string) returns (ok: bool)
    requires it.Valid() && Has(it.Pending(), id)
    modifies it.container
    ensures it.Valid() && ok
    ensures it.container.Items() == Without(old(it.container.Items()), id)
    ensures it.Pending() == if old(it.Pending())[0].id == id then [] else Without(old(it.Pending()), id)
  {
    hide Inv, Contents, Ahead, Position;
    var c := it.container;
    PendingAhead(c.Now(), c.order, id, it.iter, it.reversed);
    ok := c.Remove(id);
  }

  /**
    A sweep that removes, as it goes, each returned item whose id is in `ids` (the caller reads the
    k-th id from `names`, as the source's callers read it from the value): it still returns
    every item once, in order, and exactly the chosen items are gone at the end.
   */
  method Sweep<T>(it: ItemIterator<T>, names: seq<string>, ids: set<string>) returns (out: seq<T>)
    requires it.Valid() && !it.reversed && it.Pending() == it.container.Items()
    requires names == Names(it.container.Items())
    modifies it, it.container
    ensures it.Valid() && it.Pending() == []
    ensures out == Values(old(it.container.Items()))
    ensures it.container.Items() == Keeping(old(it.container.Items()), ids)
  {
    hide Inv, Contents, Ahead, Position, Without, Keeping, Values, UniqueIds;
    IdsAreUnique(it.container.Now(), it.container.order);
    ghost var all := it.container.Items();
    SweepStart(all, ids);
    out := [];
    var k := 0;
    while k < |names|
      invariant it.Valid() && 0 <= k <= |all|
      invariant it.Pending() == all[k..]
      invariant it.container.Items() == Keeping(all[..k], ids) + all[k..]
      invariant out == Values(all[..k])
    {
      var v := Visit(it, names[k], ids, all, k);
      out := out + [v];
      ValuesStep(all, k);
      k := k + 1;
    }
    assert all[..k] == all;
  }

  /** One round of the sweep. */
  method Visit<T>(it: ItemIterator<T>, name: string, ids: set<string>, ghost all: seq<Item<T>>, ghost k: nat)
    returns (v: T)
    requires it.Valid() && !it.reversed && UniqueIds(all) && k < |all|
    requires it.Pending() == all[k..] && name == all[k].id
    requires it.container.Items() == Keeping(all[..k], ids) + all[k..]
    modifies it, it.container
    ensures it.Valid() && it.Pending() == all[k + 1..] && v == all[k].value
    ensures it.container.Items() == Keeping(all[..k + 1], ids) + all[k + 1..]
  {
    SweepStep(all, k, ids);
    hide Inv, Contents, Ahead, Position, Without, Keeping, UniqueIds;
    var r := it.GetNextItem();
    v := r.value;
    if name in ids {
      var _ := RemoveBehind(it, name);
    }
  }

  lemma {:induction false} KeepingIds<T>(c: seq<Item<T>>, ids: set<string>, id: string)
    requires forall x :: x in c ==> x.id != id
    ensures forall x :: x in Keeping(c, ids) ==> x.id != id
  {
    if c != [] {
      KeepingIds(c[..|c| - 1], ids, id);
    }
  }

  lemma SweepStart<T>(all: seq<Item<T>>, ids: set<string>)
    ensures Keeping(all[..0], ids) + all[0..] == all && Values(all[..0]) == []
  {
  }

  lemma SweepStep<T>(all: seq<Item<T>>, k: nat, ids: set<string>)
    requires UniqueIds(all) && k < |all|
    ensures !Has(all[k + 1..], all[k].id)
    ensures Keeping(all[..k + 1], ids) + all[k + 1..] ==
            if all[k].id in ids then Without(Keeping(all[..k], ids) + all[k..], all[k].id)
            else Keeping(all[..k], ids) + all[k..]
  {
    var kept := Keeping(all[..k], ids);
    var now := kept + all[k..];
    assert all[..k + 1][..k] == all[..k];
    KeepingIds(all[..k], ids, all[k].id);
    assert forall i :: 0 <= i < |kept| ==> kept[i] in kept;
    assert now[|kept|] == all[k];
    assert Position(now, all[k].id) == |kept|;
    hide Position, Has;
    assert RemovedAt(now, |kept|) == kept + all[k + 1..];
    assert kept + [all[k]] + all[k + 1..] == now;
  }
}
