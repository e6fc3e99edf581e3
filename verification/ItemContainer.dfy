/**
  The plain list of (id, value) pairs that an `item_container` stands for, and what each
  public operation means on it.
 */
module ItemList {
  import opened Common
  import opened Slots

  /** The first position holding `id`, or the length of the list. */
  function Position<T>(c: seq<Item<T>>, id: string, k: nat := 0): (p: nat)
    requires k <= |c|
    ensures k <= p <= |c|
    ensures p < |c| ==> c[p].id == id
    ensures forall i :: k <= i < p ==> c[i].id != id
    decreases |c| - k
  {
    if k == |c| || c[k].id == id then k else Position(c, id, k + 1)
  }

  predicate Has<T>(c: seq<Item<T>>, id: string) {
    Position(c, id) < |c|
  }

  function Without<T>(c: seq<Item<T>>, id: string): seq<Item<T>> {
    if Has(c, id) then RemovedAt(c, Position(c, id)) else c
  }

  function Lookup<T>(c: seq<Item<T>>, id: string): Option<T> {
    if Has(c, id) then Some(c[Position(c, id)].value) else None
  }

  function Values<T>(c: seq<Item<T>>): (v: seq<T>)
    ensures |v| == |c| && forall i :: 0 <= i < |c| ==> v[i] == c[i].value
  {
    seq(|c|, i requires 0 <= i < |c| => c[i].value)
  }

  function Reversed<T>(c: seq<T>): (r: seq<T>)
    ensures |r| == |c| && forall i :: 0 <= i < |c| ==> r[i] == c[|c| - 1 - i]
  {
    seq(|c|, i requires 0 <= i < |c| => c[|c| - 1 - i])
  }

  datatype Op<T> =
    | Insert(id: string, value: T, replace: bool)
    | InsertAfter(at: string, id: string, value: T)
    | InsertBefore(at: string, id: string, value: T)
    | InsertAt(pos: int, id: string, value: T)
    | Remove(id: string)
    | Swap(id1: string, id2: string)
    | Find(id: string)
    | Pop
    | PopBack
    | Clear

  datatype Reply<T> = Flag(ok: bool) | Got(value: Option<T>) | Done

  /** The abstract state: the list, and whether the sentinel's back link names the tail. */
  datatype Abs<T> = Abs(items: seq<Item<T>>, linked: bool)

  function Step<T>(a: Abs<T>, op: Op<T>): Abs<T> {
    var c := a.items;
    match op
    case Insert(id, v, replace) =>
      if Has(c, id) && !replace then a else Abs(Without(c, id) + [Item(id, v)], true)
    case InsertAfter(at, id, v) =>
      if !Has(c, at) then a
      else Abs(InsertedAt(c, Position(c, at) + 1, Item(id, v)), a.linked || Position(c, at) + 1 == |c|)
    case InsertBefore(at, id, v) =>
      if !Has(c, at) then a else Abs(InsertedAt(c, Position(c, at), Item(id, v)), a.linked)
    case InsertAt(pos, id, v) =>
      if 0 <= pos < |c| then Abs(InsertedAt(c, pos, Item(id, v)), a.linked) else a
    case Remove(id) => Dropped(a, Position(c, id))
    case Swap(id1, id2) =>
      if Has(c, id1) && Has(c, id2) && id1 != id2
      then var i, j := Position(c, id1), Position(c, id2); a.(items := c[i := c[j]][j := c[i]])
      else a
    case Find(id) => a
    case Pop => Dropped(a, 0)
    case PopBack => if c == [] then a else Dropped(a, |c| - 1)
    case Clear => Abs([], true)
  }

  /** Position `k` taken out, if there is one; taking out the tail leaves the back link behind. */
  function Dropped<T>(a: Abs<T>, k: nat): Abs<T> {
    if k < |a.items| then Abs(RemovedAt(a.items, k), a.linked && k + 1 != |a.items|) else a
  }

  function Answer<T>(a: Abs<T>, op: Op<T>): Reply<T> {
    var c := a.items;
    match op
    case Insert(id, v, replace) => Flag(!Has(c, id) || replace)
    case InsertAfter(at, id, v) => Flag(Has(c, at))
    case InsertBefore(at, id, v) => Flag(false)
    case InsertAt(pos, id, v) => Flag(0 <= pos < |c|)
    case Remove(id) => Flag(Has(c, id))
    case Swap(id1, id2) => Flag(Has(c, id1) && Has(c, id2) && id1 != id2)
    case Find(id) => Got(Lookup(c, id))
    case Pop => Got(if c == [] then None else Some(c[0].value))
    case PopBack => Got(if c == [] then None else Some(c[|c| - 1].value))
    case Clear => Done
  }

  /**
    The calls on which the code keeps its promise: the three positional inserts trust the
    caller for a new id, insert_at must not name the end position, and pop_back needs the
    back link.
   */
  predicate Allowed<T>(a: Abs<T>, op: Op<T>) {
    match op
    case InsertAfter(at, id, v) => Has(a.items, at) ==> !Has(a.items, id)
    case InsertBefore(at, id, v) => Has(a.items, at) ==> !Has(a.items, id)
    case InsertAt(pos, id, v) => pos != |a.items| && (0 <= pos < |a.items| ==> !Has(a.items, id))
    case PopBack => a.linked
    case _ => true
  }

  function RunFrom<T>(a: Abs<T>, ops: seq<Op<T>>): Abs<T>
    decreases |ops|
  {
    if ops == [] then a else RunFrom(Step(a, ops[0]), ops[1..])
  }

  function Answers<T>(a: Abs<T>, ops: seq<Op<T>>): seq<Reply<T>>
    decreases |ops|
  {
    if ops == [] then [] else [Answer(a, ops[0])] + Answers(Step(a, ops[0]), ops[1..])
  }

  predicate AllAllowed<T>(a: Abs<T>, ops: seq<Op<T>>)
    decreases |ops|
  {
    ops == [] || (Allowed(a, ops[0]) && AllAllowed(Step(a, ops[0]), ops[1..]))
  }

  lemma WithoutLacks<T>(c: seq<Item<T>>, id: string)
    requires UniqueIds(c)
    ensures !Has(Without(c, id), id)
  {
  }

  lemma PositionIs<T>(c: seq<Item<T>>, id: string, k: nat)
    requires UniqueIds(c) && k < |c| && c[k].id == id
    ensures Position(c, id) == k && Has(c, id)
  {
  }
}

/** `item_container` and its iterator (src/include/container.hpp:86-1113). */
module Container {
  import opened Common
  import opened Slots
  import opened ItemList

  /** What pop_back does: nothing to pop, a value, or a dereference of an empty slot's item. */
  datatype PopOutcome<T> = Nothing | Popped(value: T) | NullItem

  class ItemContainer<T> {
    var slots: seq<Slot<T>>
    var num: nat
    var nextSlot: nat
    var last: nat
    var index: map<string, nat>
    ghost var order: seq<nat>

    ghost function Now(): Store<T>
      reads this
    {
      Store(slots, num, nextSlot, last, index)
    }

    ghost predicate Valid()
      reads this
    {
      Inv(Now(), order)
    }

    ghost function Items(): (c: seq<Item<T>>)
      requires Valid()
      reads this
      ensures |c| == num
    {
      Contents(slots, order)
    }

    /** The sentinel's back link, where pop_back and reverse iteration start. */
    ghost function Back(): nat
      requires Valid()
      reads this
    {
      slots[0].prev
    }

    constructor ()
      ensures Valid()
      ensures Items() == [] && Back() == last
    {
      slots := seq(10, _ => Slot(None, 0, 0));
      num, nextSlot, last := 0, 1, 0;
      index := map[];
      order := [];
      new;
      BlankIsEmpty(Now());
    }

    /** The container stands for `a`: same list, and the back link names the tail whenever `a` says so. */
    ghost predicate Shows(a: Abs<T>)
      reads this
    {
      Valid() && Items() == a.items && (a.linked ==> Back() == last)
    }

    // -- private helpers of the source, each tied to the update it performs on the store --

    method CheckAndResize()
      modifies this`slots
      ensures slots == Grown(old(Now()))
    {
      if |slots| == num + 1 {
        slots := slots + seq(|slots|, _ => Slot(None, 0, 0));
      }
    }

    method UpdateNextSlot()
      requires nextSlot <= |slots|
      modifies this`nextSlot
      ensures nextSlot == FirstFree(slots, old(nextSlot))
    {
      while nextSlot < |slots| && slots[nextSlot].item.Some?
        invariant nextSlot <= |slots|
        invariant FirstFree(slots, nextSlot) == FirstFree(slots, old(nextSlot))
      {
        nextSlot := nextSlot + 1;
      }
    }

    /** The stores that the three insert_thing functions share: fill slot `rc`, link it between `p` and `n`. */
    method Thread(rc: nat, it: Item<T>, p: nat, n: nat)
      requires rc < |slots| && p < |slots| && n < |slots| && n != rc
      modifies this`slots
      ensures slots == LinkIn(old(slots), rc, it, p, n)
    {
      slots := slots[rc := slots[rc].(item := Some(it))];
      slots := slots[rc := slots[rc].(prev := p)];
      slots := slots[rc := slots[rc].(next := n)];
      slots := slots[p := slots[p].(next := rc)];
      slots := slots[n := slots[n].(prev := rc)];
    }

    method InsertThing(it: Item<T>) returns (rc: nat)
      requires 0 < nextSlot < |Grown(Now())| && last < |slots|
      modifies this
      ensures rc == old(nextSlot) && order == old(order)
      ensures Now() == Inserted(old(Now()), it, old(last), 0, rc)
    {
      CheckAndResize();
      index := index[it.id := nextSlot];
      rc := nextSlot;
      Thread(rc, it, last, 0);
      last := rc;
      num := num + 1;
      UpdateNextSlot();
    }

    method InsertThingAfter(it: Item<T>, at: nat) returns (rc: nat)
      requires nextSlot < |Grown(Now())| && at < |slots|
      requires slots[at].next < |slots| && slots[at].next != nextSlot
      modifies this
      ensures rc == old(nextSlot) && order == old(order)
      ensures Now() == Inserted(old(Now()), it, at, old(slots[at].next), if old(last) == at then rc else old(last))
    {
      CheckAndResize();
      index := index[it.id := nextSlot];
      rc := nextSlot;
      var next := slots[at].next;
      Thread(rc, it, at, next);
      if last == at {
        last := rc;
      }
      num := num + 1;
      UpdateNextSlot();
    }

    method InsertThingBefore(it: Item<T>, at: nat) returns (rc: nat)
      requires nextSlot < |Grown(Now())| && at < |slots| && at != nextSlot && slots[at].prev < |slots|
      modifies this
      ensures rc == old(nextSlot) && order == old(order)
      ensures Now() == Inserted(old(Now()), it, old(slots[at].prev), at, old(last))
    {
      CheckAndResize();
      index := index[it.id := nextSlot];
      rc := nextSlot;
      var prev := slots[at].prev;
      Thread(rc, it, prev, at);
      num := num + 1;
      UpdateNextSlot();
    }

    /** unlink_slot, with the count and next_slot updates that follow every use of it. */
    method RemoveThingFromIndex(i: nat)
      requires num > 0 && i < |slots| && slots[i].item.Some?
      requires slots[i].prev < |slots| && slots[i].next < |slots| && slots[i].prev != i
      modifies this
      ensures order == old(order)
      ensures Now() == Removed(old(Now()), i)
    {
      ghost var st := Now();
      var prev, next := slots[i].prev, slots[i].next;
      index := index - {slots[i].item.value.id};
      slots := slots[i := slots[i].(prev := 0)];
      slots := slots[i := slots[i].(next := 0)];
      slots := slots[i := slots[i].(item := None)];
      slots := slots[prev := slots[prev].(next := next)];
      if last == i {
        last := prev;
      } else {
        slots := slots[next := slots[next].(prev := prev)];
      }
      assert slots == LinkOut(st.slots, i, st.last == i);
      num := num - 1;
      if i < nextSlot {
        nextSlot := i;
      }
    }

    /** Reading `map[id]`, which enters a zero for an id that is not there. */
    method MapAt(id: string) returns (i: nat)
      requires Valid()
      modifies this`index
      ensures Valid() && Items() == old(Items()) && Back() == old(Back())
      ensures i == Look(old(index), id) == Look(index, id)
      ensures i != 0 <==> Has(Items(), id)
      ensures i != 0 ==> order[Position(Items(), id)] == i && Live(slots, i) && slots[i].item.value.id == id
    {
      ghost var st := Now();
      if id !in index {
        index := index[id := 0];
      }
      i := index[id];
      TouchKeeps(st, Now(), order);
      Located(Now(), order, id);
    }

    /** Take out the item at list position `k`, held by slot `i`. */
    method TakeOut(i: nat, ghost k: nat)
      requires Valid() && k < |order| && order[k] == i
      modifies this
      ensures Valid()
      ensures Items() == RemovedAt(old(Items()), k) && order == RemovedAt(old(order), k) && |slots| == |old(slots)|
      ensures Back() == old(Back())
      ensures last == if k + 1 == |old(order)| then Pred(old(order), k) else old(last)
    {
      hide Inv, Contents;
      RemoveKeeps(Now(), order, k);
      RemoveThingFromIndex(i);
      order := RemovedAt(order, k);
    }

    method Exchange(id1: string, ind1: nat, id2: string, ind2: nat)
      requires Live(slots, ind1) && slots[ind1].item.value.id == id1
      requires Live(slots, ind2) && slots[ind2].item.value.id == id2
      requires ind1 != ind2
      modifies this`slots, this`index
      ensures Now() == Swapped(old(Now()), ind1, ind2)
    {
      var tmp := slots[ind1].item;
      slots := slots[ind1 := slots[ind1].(item := slots[ind2].item)];
      slots := slots[ind2 := slots[ind2].(item := tmp)];
      index := index[id1 := ind2];
      index := index[id2 := ind1];
    }

    // -- public operations --

    method Insert(value: T, id: string, replace: bool := false) returns (ok: bool)
      requires Valid()
      modifies this
      ensures Valid()
      ensures ok == (!Has(old(Items()), id) || replace)
      ensures Items() == if ok then Without(old(Items()), id) + [Item(id, value)] else old(Items())
      ensures if ok then Back() == last else Back() == old(Back()) && last == old(last)
    {
      hide Inv, Contents, Inserted;
      var i := MapAt(id);
      if i != 0 {
        if !replace {
          return false;
        }
        IdsAreUnique(Now(), order);
        WithoutLacks(Items(), id);
        TakeOut(i, Position(Items(), id));
      }
      AppendStep(Now(), order, Item(id, value));
      var rc := InsertThing(Item(id, value));
      order := InsertedAt(order, |order|, rc);
      ok := true;
    }

    method InsertAfter(at: string, value: T, id: string) returns (ok: bool)
      requires Valid()
      modifies this
      ensures ok == Has(old(Items()), at)
      ensures !ok ==> Valid() && Items() == old(Items()) && Back() == old(Back()) && last == old(last)
      ensures ok && !Has(old(Items()), id) ==>
        && Valid()
        && var p := Position(old(Items()), at);
        && Items() == InsertedAt(old(Items()), p + 1, Item(id, value))
        && if p + 1 == |old(Items())| then Back() == last else Back() == old(Back()) && last == old(last)
      ensures ok && Has(old(Items()), id) ==> forall o :: !Inv(Now(), o)
    {
      hide Inv, Contents;
      var i := MapAt(at);
      if i == 0 {
        return false;
      }
      ghost var k := Position(Items(), at);
      AfterStep(Now(), order, k, Item(id, value));
      var rc := InsertThingAfter(Item(id, value), i);
      order := InsertedAt(order, k + 1, rc);
      ok := true;
    }

    /** Always answers false: the new slot's index is compared with PBSE_NONE, which is 0. */
    method InsertBefore(at: string, value: T, id: string) returns (ok: bool)
      requires Valid()
      modifies this
      ensures !ok
      ensures !Has(old(Items()), at) ==> Valid() && Items() == old(Items()) && Back() == old(Back()) && last == old(last)
      ensures Has(old(Items()), at) && !Has(old(Items()), id) ==>
        && Valid()
        && Items() == InsertedAt(old(Items()), Position(old(Items()), at), Item(id, value))
        && Back() == old(Back()) && last == old(last)
      ensures Has(old(Items()), at) && Has(old(Items()), id) ==> forall o :: !Inv(Now(), o)
    {
      hide Inv, Contents;
      var i := MapAt(at);
      if i == 0 {
        return false;
      }
      ghost var k := Position(Items(), at);
      BeforeStep(Now(), order, k, Item(id, value));
      var rc := InsertThingBefore(Item(id, value), i);
      order := InsertedAt(order, k, rc);
      if rc != 0 {
        return false;
      }
      return true;
    }

    /**
      Positions below the count insert there; the count itself corrupts the list; anything
      else (negative positions included) runs off the end of the list and changes nothing.
     */
    method InsertAt(pos: int, value: T, id: string) returns (ok: bool)
      requires Valid()
      modifies this
      ensures ok == (0 <= pos <= |old(Items())|)
      ensures !ok ==> Valid() && Items() == old(Items()) && Back() == old(Back()) && last == old(last)
      ensures 0 <= pos < |old(Items())| && !Has(old(Items()), id) ==>
        && Valid()
        && Items() == InsertedAt(old(Items()), pos, Item(id, value))
        && Back() == old(Back()) && last == old(last)
      ensures pos == |old(Items())| || (ok && Has(old(Items()), id)) ==> forall o :: !Inv(Now(), o)
    {
      hide Inv, Contents;
      ghost var st := Now();
      ghost var k: nat := 0;
      var n := pos;
      FirstStep(st, order);
      var iter := slots[0].next;
      while n != 0
        invariant order == old(order) && Inv(st, order)
        invariant 0 <= k <= |order| && k + n == pos
        invariant iter == Succ(order, k)
        invariant pos < 0 <==> n < 0
        invariant Now() == st
        decreases |order| - k
      {
        NextStep(st, order, k);
        n := n - 1;
        var thing := slots[iter].item;
        iter := slots[iter].next;
        if thing == None {
          return false;
        }
        k := k + 1;
      }
      if k < |order| {
        BeforeStep(st, order, k, Item(id, value));
      } else {
        InsertBeforeSentinelBreaks(st, order, Item(id, value), slots[0].prev);
      }
      var rc := InsertThingBefore(Item(id, value), iter);
      order := InsertedAt(order, k, rc);
      ok := true;
    }

    method Remove(id: string) returns (ok: bool)
      requires Valid()
      modifies this
      ensures Valid()
      ensures ok == Has(old(Items()), id)
      ensures Items() == Without(old(Items()), id)
      ensures Back() == old(Back())
      ensures !(ok && Position(old(Items()), id) + 1 == |old(Items())|) ==> last == old(last)
      ensures |slots| == |old(slots)|
      ensures order == if ok then RemovedAt(old(order), Position(old(Items()), id)) else old(order)
    {
      var i := MapAt(id);
      if i == 0 {
        return false;
      }
      TakeOut(i, Position(Items(), id));
      ok := true;
    }

    method Find(id: string) returns (r: Option<T>)
      requires Valid()
      modifies this`index
      ensures Valid() && Items() == old(Items()) && Back() == old(Back())
      ensures r == Lookup(Items(), id)
    {
      var i := MapAt(id);
      if i == 0 {
        return None;
      }
      r := Some(slots[i].item.value.value);
    }

    method Pop() returns (r: Option<T>)
      requires Valid()
      modifies this
      ensures Valid()
      ensures old(Items()) == [] ==> r == None && Items() == [] && last == old(last)
      ensures old(Items()) != [] ==> r == Some(old(Items())[0].value) && Items() == old(Items())[1..]
      ensures Back() == old(Back())
      ensures |old(Items())| > 1 ==> last == old(last)
    {
      FirstStep(Now(), order);
      var i := slots[0].next;
      if i == 0 {
        return None;
      }
      r := Some(slots[i].item.value.value);
      TakeOut(i, 0);
    }

    /**
      pop_back starts from the sentinel's back link, which removing the tail leaves stale.
      It pops the tail exactly when the link still names it.
     */
    method PopBack() returns (r: PopOutcome<T>, ghost k: nat)
      requires Valid()
      modifies this
      ensures Valid() && Back() == old(Back())
      ensures r.Nothing? <==> old(Back()) == 0
      ensures r.NullItem? <==> old(Back()) != 0 && !Live(old(slots), old(Back()))
      ensures !r.Popped? ==> Items() == old(Items()) && last == old(last)
      ensures r.Popped? ==> k < |old(Items())| && r.value == old(Items())[k].value && Items() == RemovedAt(old(Items()), k)
      ensures old(Back()) == old(last) <==>
        if old(Items()) == [] then r.Nothing? else r.Popped? && k + 1 == |old(Items())|
    {
      k := 0;
      var i := slots[0].prev;
      if i == 0 {
        r := Nothing;
        return;
      }
      if i >= |slots| || slots[i].item.None? {
        r := NullItem;
        return;
      }
      r := Popped(slots[i].item.value.value);
      assert Live(slots, i);
      k :| k < |order| && order[k] == i;
      TakeOut(i, k);
    }

    method Swap(id1: string, id2: string) returns (ok: bool)
      requires Valid()
      modifies this
      ensures Valid()
      ensures ok == (Has(old(Items()), id1) && Has(old(Items()), id2) && id1 != id2)
      ensures Items() == if ok then
                var c, i, j := old(Items()), Position(old(Items()), id1), Position(old(Items()), id2);
                c[i := c[j]][j := c[i]]
              else old(Items())
      ensures Back() == old(Back()) && last == old(last)
    {
      hide Inv, Contents, Position;
      var ind1 := MapAt(id1);
      var ind2 := MapAt(id2);
      if ind1 == 0 || ind2 == 0 || ind1 == ind2 {
        return false;
      }
      ghost var st, a, b := Now(), Position(Items(), id1), Position(Items(), id2);
      SwapKeeps(st, order, a, b);
      Exchange(id1, ind1, id2, ind2);
      ok := true;
    }

    method Clear()
      requires Valid()
      modifies this
      ensures Valid()
      ensures Items() == [] && Back() == last
    {
      ghost var st := Now();
      var i := 0;
      while i < |slots|
        invariant 0 <= i <= |slots| == |st.slots|
        invariant forall j :: 0 <= j < i ==> slots[j] == Slot(None, 0, 0)
        invariant forall j :: i <= j < |slots| ==> slots[j] == st.slots[j]
        invariant forall id :: Look(index, id) == if Look(st.index, id) < i then 0 else Look(st.index, id)
        modifies this`slots, this`index
      {
        if slots[i].item.Some? {
          assert Live(st.slots, i);
          index := index - {slots[i].item.value.id};
          slots := slots[i := slots[i].(item := None)];
        }
        slots := slots[i := slots[i].(next := 0)];
        slots := slots[i := slots[i].(prev := 0)];
        i := i + 1;
      }
      num, nextSlot, last := 0, 1, 0;
      order := [];
      BlankIsEmpty(Now());
    }
  }

  /**
    One call.  An allowed call acts on the container as `Step` acts on the plain list; any
    other positional insert leaves a store that represents no list.
   */
  method Perform<T>(c: ItemContainer<T>, op: Op<T>, ghost a: Abs<T>) returns (r: Reply<T>)
    requires c.Shows(a)
    modifies c
    ensures Allowed(a, op) ==> c.Shows(Step(a, op)) && r == Answer(a, op)
    ensures !Allowed(a, op) && op != PopBack ==> forall o :: !Inv(c.Now(), o)
  {
    hide Inv, Contents, Position, Step, Answer, Allowed;
    if op.Insert? || op.InsertAfter? || op.InsertBefore? || op.InsertAt? {
      r := PerformInsertion(c, op, a);
    } else {
      r := PerformOther(c, op, a);
    }
  }

  method PerformInsertion<T>(c: ItemContainer<T>, op: Op<T>, ghost a: Abs<T>) returns (r: Reply<T>)
    requires op.Insert? || op.InsertAfter? || op.InsertBefore? || op.InsertAt?
    requires c.Shows(a)
    modifies c
    ensures Allowed(a, op) ==> c.Shows(Step(a, op)) && r == Answer(a, op)
    ensures !Allowed(a, op) && op != PopBack ==> forall o :: !Inv(c.Now(), o)
  {
    hide Inv, Contents, Position;
    var ok;
    match op {
      case Insert(id, v, replace) => ok := c.Insert(v, id, replace);
      case InsertAfter(at, id, v) => ok := c.InsertAfter(at, v, id);
      case InsertBefore(at, id, v) => ok := c.InsertBefore(at, v, id);
      case InsertAt(pos, id, v) => ok := c.InsertAt(pos, v, id);
    }
    r := Flag(ok);
  }

  method PerformOther<T>(c: ItemContainer<T>, op: Op<T>, ghost a: Abs<T>) returns (r: Reply<T>)
    requires !op.Insert? && !op.InsertAfter? && !op.InsertBefore? && !op.InsertAt?
    requires c.Shows(a)
    modifies c
    ensures Allowed(a, op) ==> c.Shows(Step(a, op)) && r == Answer(a, op)
    ensures !Allowed(a, op) && op != PopBack ==> forall o :: !Inv(c.Now(), o)
  {
    hide Inv, Contents, Position;
    match op
    case Remove(id) =>
      var ok := c.Remove(id);
      r := Flag(ok);
    case Swap(id1, id2) =>
      var ok := c.Swap(id1, id2);
      r := Flag(ok);
    case Find(id) =>
      var v := c.Find(id);
      r := Got(v);
    case Pop =>
      var v := c.Pop();
      r := Got(v);
    case PopBack =>
      var v, _ := c.PopBack();
      r := Got(if v.Popped? then Some(v.value) else None);
    case Clear =>
      c.Clear();
      r := Done;
  }

  /** Every run of allowed calls answers and leaves the container as the plain list would. */
  method Run<T>(c: ItemContainer<T>, ops: seq<Op<T>>, ghost a: Abs<T>) returns (replies: seq<Reply<T>>)
    requires c.Shows(a) && AllAllowed(a, ops)
    modifies c
    ensures c.Shows(RunFrom(a, ops))
    ensures replies == Answers(a, ops)
  {
    hide Inv, Contents, Step, Answer, Allowed;
    replies := [];
    ghost var b := a;
    for i := 0 to |ops|
      invariant c.Shows(b) && AllAllowed(b, ops[i..])
      invariant RunFrom(b, ops[i..]) == RunFrom(a, ops)
      invariant replies + Answers(b, ops[i..]) == Answers(a, ops)
    {
      assert ops[i..][1..] == ops[i + 1..];
      var r := Perform(c, ops[i], b);
      b := Step(b, ops[i]);
      replies := replies + [r];
    }
  }

  /** The back link is not repaired: pop_back right after removing the tail always meets an empty slot. */
  method PopBackAfterRemovingTail<T>(c: ItemContainer<T>, id: string) returns (r: PopOutcome<T>)
    requires c.Valid() && c.Back() == c.last
    requires c.Items() != [] && id == c.Items()[|c.Items()| - 1].id
    modifies c
    ensures r.NullItem?
  {
    TailSlot(c.Now(), c.order);
    hide Inv, Contents;
    var _ := c.Remove(id);
    TailGone(c.Now(), c.order, c.Back());
    var out, _ := c.PopBack();
    r := out;
  }

  lemma TailSlot<T>(st: Store<T>, o: seq<nat>)
    requires Inv(st, o) && o != []
    ensures var c := Contents(st.slots, o);
            Has(c, c[|c| - 1].id) && Position(c, c[|c| - 1].id) == |c| - 1
    ensures st.last == o[|o| - 1] != 0 && st.last !in RemovedAt(o, |o| - 1)
  {
    IdsAreUnique(st, o);
    PositionIs(Contents(st.slots, o), Contents(st.slots, o)[|o| - 1].id, |o| - 1);
  }

  lemma TailGone<T>(st: Store<T>, o: seq<nat>, b: nat)
    requires Inv(st, o) && b !in o
    ensures !Live(st.slots, b)
  {
  }

  /** Entering zeros in the index changes nothing. */
  lemma TouchKeeps<T>(st: Store<T>, st': Store<T>, o: seq<nat>)
    requires Inv(st, o) && st' == st.(index := st'.index)
    requires forall id :: Look(st'.index, id) == Look(st.index, id)
    ensures Inv(st', o)
  {
  }

  lemma Located<T>(st: Store<T>, o: seq<nat>, id: string)
    requires Inv(st, o)
    ensures var c := Contents(st.slots, o);
            && (Look(st.index, id) != 0 <==> Has(c, id))
            && (Has(c, id) ==> o[Position(c, id)] == Look(st.index, id) && Live(st.slots, Look(st.index, id)))
  {
    var c := Contents(st.slots, o);
    IdsAreUnique(st, o);
    if Look(st.index, id) != 0 {
      var k := LookFinds(st, o, id);
      PositionIs(c, id, k);
    }
  }

  lemma AppendStep<T>(st: Store<T>, o: seq<nat>, it: Item<T>)
    requires Inv(st, o) && !Has(Contents(st.slots, o), it.id)
    ensures 0 < st.nextSlot < |Grown(st)| && st.last < |st.slots| && 0 < |st.slots|
    ensures var st', o' := Inserted(st, it, st.last, 0, st.nextSlot), InsertedAt(o, |o|, st.nextSlot);
            && Inv(st', o')
            && Contents(st'.slots, o') == Contents(st.slots, o) + [it]
            && 0 < |st'.slots| && st'.slots[0].prev == st'.last
  {
    Located(st, o, it.id);
    InsertKeeps(st, o, |o|, it);
  }

  /** Inserting after list position `k`. */
  lemma AfterStep<T>(st: Store<T>, o: seq<nat>, k: nat, it: Item<T>)
    requires Inv(st, o) && k < |o|
    ensures 0 < st.nextSlot < |Grown(st)| && o[k] < |st.slots|
    ensures st.slots[o[k]].next < |st.slots| && st.slots[o[k]].next != st.nextSlot
    ensures var c := Contents(st.slots, o);
            var o' := InsertedAt(o, k + 1, st.nextSlot);
            var st' := Inserted(st, it, o[k], st.slots[o[k]].next, if st.last == o[k] then st.nextSlot else st.last);
            if Has(c, it.id) then forall any :: !Inv(st', any) else
            && Inv(st', o')
            && Contents(st'.slots, o') == InsertedAt(c, k + 1, it)
            && if k + 1 == |o| then st'.slots[0].prev == st'.last
               else st'.slots[0].prev == st.slots[0].prev && st'.last == st.last
  {
    hide Inv, Contents, Inserted;
    Located(st, o, it.id);
    AroundSlot(st, o, k);
    if Look(st.index, it.id) == 0 {
      InsertKeeps(st, o, k + 1, it);
    } else {
      DuplicateBreaks(st, o, it, o[k], st.slots[o[k]].next, if st.last == o[k] then st.nextSlot else st.last);
    }
  }

  /** Inserting before list position `k`. */
  lemma BeforeStep<T>(st: Store<T>, o: seq<nat>, k: nat, it: Item<T>)
    requires Inv(st, o) && k < |o|
    ensures 0 < st.nextSlot < |Grown(st)| && o[k] < |st.slots| && o[k] != st.nextSlot
    ensures st.slots[o[k]].prev < |st.slots|
    ensures var c := Contents(st.slots, o);
            var o' := InsertedAt(o, k, st.nextSlot);
            var st' := Inserted(st, it, st.slots[o[k]].prev, o[k], st.last);
            if Has(c, it.id) then forall any :: !Inv(st', any) else
            && Inv(st', o')
            && Contents(st'.slots, o') == InsertedAt(c, k, it)
            && st'.slots[0].prev == st.slots[0].prev
  {
    hide Inv, Contents, Inserted;
    Located(st, o, it.id);
    AroundSlot(st, o, k);
    if Look(st.index, it.id) == 0 {
      InsertKeeps(st, o, k, it);
    } else {
      DuplicateBreaks(st, o, it, st.slots[o[k]].prev, o[k], st.last);
    }
  }

  /** The links around list position `k`, and that the next free slot is none of them. */
  lemma AroundSlot<T>(st: Store<T>, o: seq<nat>, k: nat)
    requires Inv(st, o) && k < |o|
    ensures o[k] < |st.slots| && st.slots[o[k]].prev == Pred(o, k) < |st.slots|
    ensures st.slots[o[k]].next == Succ(o, k + 1) < |st.slots|
    ensures 0 < st.nextSlot < |Grown(st)| && st.nextSlot != o[k] && st.nextSlot != Succ(o, k + 1)
    ensures 0 < |st.slots| && st.last == Pred(o, |o|) && (st.last == o[k] <==> k + 1 == |o|)
    ensures o[k] != 0 && (k + 1 < |o| ==> o[k + 1] != 0)
  {
    GrowKeeps(st, o);
    assert NextAt(st.slots, o, k + 1) && PrevAt(st.slots, o, k);
  }

  lemma FirstStep<T>(st: Store<T>, o: seq<nat>)
    requires Inv(st, o)
    ensures 0 < |st.slots| && st.slots[0].next == Succ(o, 0) && st.slots[0].prev < |st.slots|
    ensures o != [] ==> o[0] != 0 && Live(st.slots, o[0])
  {
    assert NextAt(st.slots, o, 0);
  }

  /** Stepping along the list: position `k` holds an item until the sentinel is reached. */
  lemma NextStep<T>(st: Store<T>, o: seq<nat>, k: nat)
    requires Inv(st, o) && k <= |o|
    ensures Succ(o, k) < |st.slots|
    ensures st.slots[Succ(o, k)].item.Some? <==> k < |o|
    ensures k < |o| ==> st.slots[Succ(o, k)].next == Succ(o, k + 1)
    ensures k < |o| ==> st.slots[Succ(o, k)].item.value == Contents(st.slots, o)[k]
  {
    if k < |o| {
      assert NextAt(st.slots, o, k + 1);
    } else {
      assert Live(st.slots, 0) ==> 0 in o;
    }
  }
}
