/**
  pbsdsh: spawning a task on each node and waiting for all of them (src/cmds/pbsdsh.c:113-154,
  226-385, 1352-1382), and the list of distinct hosts (493-514).
 */
module Pbsdsh {
  const TM_NULL_EVENT := 0
  const TM_ERROR_EVENT := -1
  const TM_NULL_TASK := 0
  const TM_ESYSTEM := 17000

  /**
    The task manager library, any behaviour of it: requests succeed or fail, an accepted request
    gets an event id never issued before, and a poll delivers a pending event, once, with any error
    code.
   */
  class TaskManager {
    var issued: set<int>
    /** Spawns not yet acknowledged and obits registered but not yet delivered. */
    var spawns: set<int>
    var obits: set<int>
    /**
      What has become of the tasks, each named by its spawn event: acknowledged without error; their
      obits pending, by obit event; and settled, which is to say the obit has come, or asking for it
      was refused or answered with the null or the error event.
     */
    ghost var acked: set<int>
    ghost var watch: map<int, int>
    ghost var settled: set<int>
    /** The nodes on which a spawn was asked for, and whether nothing was ever pending at that moment. */
    ghost var nodes: seq<nat>
    ghost var alone: bool

    /** The tasks whose obit has been asked for and, if it came back with a system error, again. */
    ghost function Asked(): set<int>
      reads this
    {
      settled + Tasks(watch)
    }

    ghost predicate Valid()
      reads this
    {
      && watch.Keys == obits
      && spawns !! obits && spawns <= issued && obits <= issued
      && TM_NULL_EVENT !in issued && TM_ERROR_EVENT !in issued
    }

    constructor ()
      ensures Valid() && issued == {} && spawns == {} && obits == {}
      ensures acked == settled == {} && nodes == [] && alone
    {
      issued, spawns, obits := {}, {}, {};
      acked, watch, settled, nodes, alone := {}, map[], {}, [], true;
    }

    /** tm_spawn; `cell` is the event cell before and `event` after. */
    method Spawn(node: nat, cell: int) returns (ok: bool, event: int)
      requires Valid()
      modifies this`issued, this`spawns, this`nodes, this`alone
      ensures nodes == old(nodes) + [node] && alone == old(alone && spawns == {} && obits == {})
      ensures Valid() && obits == old(obits)
      ensures ok ==> event !in old(issued) && issued == old(issued) + {event} && spawns == old(spawns) + {event}
      ensures !ok ==> issued == old(issued) && spawns == old(spawns) && event in {cell, TM_NULL_EVENT, TM_ERROR_EVENT}
    {
      nodes, alone := nodes + [node], alone && spawns == {} && obits == {};
      event := *;
      ok := event !in issued && event != TM_NULL_EVENT && event != TM_ERROR_EVENT;
      if ok {
        issued, spawns := issued + {event}, spawns + {event};
      } else if event != TM_NULL_EVENT && event != TM_ERROR_EVENT {
        event := cell;
      }
    }

    /** tm_obit: registered, accepted for a task already dead or in error, or refused. */
    method Obit(ghost task: int, cell: int) returns (ok: bool, event: int)
      requires Valid()
      modifies this`issued, this`obits, this`watch, this`settled
      ensures Valid() && spawns == old(spawns)
      ensures if ok && event != TM_NULL_EVENT && event != TM_ERROR_EVENT
              then event !in old(issued) && issued == old(issued) + {event} && obits == old(obits) + {event}
              else issued == old(issued) && obits == old(obits) && event in {cell, TM_NULL_EVENT, TM_ERROR_EVENT}
      ensures if ok && event != TM_NULL_EVENT && event != TM_ERROR_EVENT
              then watch == old(watch)[event := task] && settled == old(settled)
              else watch == old(watch) && settled == old(settled) + {task}
    {
      event := *;
      if event !in issued && event != TM_NULL_EVENT && event != TM_ERROR_EVENT {
        ok, issued, obits := true, issued + {event}, obits + {event};
        watch := watch[event := task];
      } else {
        settled := settled + {task};
        if event == TM_NULL_EVENT || event == TM_ERROR_EVENT {
          ok := *;
        } else {
          ok, event := false, cell;
        }
      }
    }

    /** A spawn event without error acknowledges its task; an obit event settles its task, a system error aside. */
    twostate predicate Delivered(event: int, errno: int)
      requires old(watch.Keys == obits)
      reads this
    {
      && acked == old(acked) + (if event in old(spawns) && errno == 0 then {event} else {})
      && settled == old(settled) + if event in old(obits) && errno != TM_ESYSTEM then {old(watch)[event]} else {}
    }

    /** tm_poll: the null event, or some pending event. */
    method Poll() returns (ok: bool, event: int, errno: int)
      requires Valid()
      modifies this`spawns, this`obits, this`acked, this`watch, this`settled
      ensures Valid()
      ensures event != TM_NULL_EVENT ==> event in old(spawns) + old(obits)
      ensures spawns == old(spawns) - {event} && obits == old(obits) - {event}
      ensures event != TM_NULL_EVENT ==> Delivered(event, errno) && watch == old(watch) - {event}
      ensures event == TM_NULL_EVENT ==>
                spawns == old(spawns) && obits == old(obits) && acked == old(acked) && Asked() == old(Asked()) && watch == old(watch)
      ensures event != TM_NULL_EVENT && old(acked == Asked()) ==>
                acked == Asked() + Due(event in old(spawns), event, errno, old(watch))
    {
      ok, event, errno := *, *, *;
      if event in watch {
        Unwatched(watch, event);
      }
      if event in spawns {
        spawns := spawns - {event};
        acked := acked + if errno == 0 then {event} else {};
      } else if event in obits {
        obits := obits - {event};
        settled := settled + if errno != TM_ESYSTEM then {watch[event]} else {};
        watch := watch - {event};
      } else {
        event := TM_NULL_EVENT;
      }
      hide Tasks;
      assert event !in old(watch) ==> watch == old(watch);
    }
  }

  ghost function Tasks(watch: map<int, int>): set<int> {
    set e | e in watch :: watch[e]
  }

  predicate Known(e: int, issued: set<int>) {
    e in issued || e == TM_NULL_EVENT || e == TM_ERROR_EVENT
  }

  /** The cells `s` of the spawn events and `o` of the obit events: no issued id stands in two of them. */
  ghost predicate Unique(s: seq<int>, o: seq<int>, issued: set<int>) {
    && (forall c, d :: 0 <= c < d < |s| && s[c] in issued ==> s[c] != s[d])
    && (forall c, d :: 0 <= c < d < |o| && o[c] in issued ==> o[c] != o[d])
    && (forall c, d :: 0 <= c < |s| && 0 <= d < |o| && s[c] in issued ==> s[c] != o[d])
  }

  /** Besides, every pending event stands in a cell, and a task whose spawn is pending has no obit yet. */
  ghost predicate Cells(s: seq<int>, o: seq<int>, issued: set<int>, spawns: set<int>, obits: set<int>) {
    && |s| == |o| && Unique(s, o, issued)
    && (forall c :: 0 <= c < |s| ==> Known(s[c], issued))
    && (forall c :: 0 <= c < |o| ==> Known(o[c], issued))
    && (forall e :: e in spawns ==> e in s)
    && (forall e :: e in obits ==> e in o)
    && (forall c :: 0 <= c < |s| && s[c] in spawns ==> o[c] !in issued)
  }

  /** A pending obit stands in the cell of the task it was asked for. */
  ghost predicate Watches(s: seq<int>, o: seq<int>, watch: map<int, int>) {
    |s| == |o| && forall c :: 0 <= c < |o| && o[c] in watch ==> watch[o[c]] == s[c]
  }

  /** What a delivered event leaves to be asked for: the obit of a task just acknowledged, or one that failed. */
  ghost function Due(spawned: bool, event: int, errno: int, watch: map<int, int>): set<int> {
    if spawned then (if errno == 0 then {event} else {})
    else if errno == TM_ESYSTEM && event in watch then {watch[event]} else {}
  }

  /** Taking an obit off the map leaves all the other tasks on it. */
  lemma Unwatched(watch: map<int, int>, event: int)
    requires event in watch
    ensures Tasks(watch) == Tasks(watch - {event}) + {watch[event]}
  {
    var rest := watch - {event};
    forall t | t in Tasks(watch) ensures t in Tasks(rest) + {watch[event]} {
      var e :| e in watch && watch[e] == t;
      assert e != event ==> e in rest && rest[e] == t;
    }
    forall t | t in Tasks(rest) ensures t in Tasks(watch) {
      var e :| e in rest && rest[e] == t;
      assert e in watch && watch[e] == t;
    }
  }

  lemma NewlyWatched(watch: map<int, int>, event: int, task: int)
    requires event !in watch
    ensures Tasks(watch[event := task]) == Tasks(watch) + {task}
  {
    var more := watch[event := task];
    assert more - {event} == watch && more[event] == task;
    Unwatched(more, event);
  }

  lemma NoneWatched(watch: map<int, int>)
    requires watch.Keys == {}
    ensures Tasks(watch) == {}
  {
  }

  /** The cell of an obit changes: to a new event, watched from now on, or to one that is not. */
  lemma WatchCell(s: seq<int>, o: seq<int>, watch: map<int, int>, c: nat, e: int)
    requires Watches(s, o, watch) && c < |o|
    ensures e !in o ==> Watches(s, o[c := e], watch[e := s[c]])
    ensures e !in watch ==> Watches(s, o[c := e], watch)
  {
    var p := o[c := e];
    assert p[c] == e && forall d :: 0 <= d < |o| && d != c ==> p[d] == o[d] && o[d] in o;
  }

  /** The task whose obit is taken off the map, and the map after it. */
  lemma WatchedTask(s: seq<int>, o: seq<int>, watch: map<int, int>, k: nat, e: int)
    requires Watches(s, o, watch)
    ensures k < |o| && o[k] in watch ==> watch[o[k]] == s[k]
    ensures Watches(s, o, watch - {e})
  {
  }

  /** The nodes from `start` up to `stop`. */
  function Nodes(start: nat, stop: nat): seq<nat> {
    if start >= stop then [] else Nodes(start, stop - 1) + [stop - 1]
  }

  /** A new id in one obit cell. */
  lemma ObitCell(s: seq<int>, o: seq<int>, issued: set<int>, spawns: set<int>, obits: set<int>, c: nat, e: int)
    requires Cells(s, o, issued, spawns, obits) && c < |o| && spawns <= issued && obits <= issued
    requires !Known(e, issued) && o[c] !in obits && s[c] !in spawns
    ensures Cells(s, o[c := e], issued + {e}, spawns, obits + {e})
  {
    var p := o[c := e];
    assert p[c] == e;
    forall x | x in obits ensures x in p {
      var i :| 0 <= i < |o| && o[i] == x;
      assert p[i] == x;
    }
  }

  /** No new id, but the obit cell may be reset. */
  lemma ObitCellReset(s: seq<int>, o: seq<int>, issued: set<int>, spawns: set<int>, obits: set<int>, c: nat, e: int)
    requires Cells(s, o, issued, spawns, obits) && c < |o|
    requires e == o[c] || e == TM_NULL_EVENT || e == TM_ERROR_EVENT
    requires TM_NULL_EVENT !in issued && TM_ERROR_EVENT !in issued && o[c] !in obits
    ensures Cells(s, o[c := e], issued, spawns, obits)
  {
    var p := o[c := e];
    forall x | x in obits ensures x in p {
      var i :| 0 <= i < |o| && o[i] == x;
      assert p[i] == x;
    }
  }

  /** A new id in one spawn cell. */
  lemma SpawnCell(s: seq<int>, o: seq<int>, issued: set<int>, spawns: set<int>, obits: set<int>, c: nat, e: int)
    requires Cells(s, o, issued, spawns, obits) && c < |s| && spawns <= issued && obits <= issued
    requires !Known(e, issued) && s[c] !in spawns && o[c] !in issued
    ensures Cells(s[c := e], o, issued + {e}, spawns + {e}, obits)
  {
    var p := s[c := e];
    assert p[c] == e && Known(o[c], issued);
    forall x | x in spawns ensures x in p {
      var i :| 0 <= i < |s| && s[i] == x;
      assert p[i] == x;
    }
  }

  lemma SpawnCellReset(s: seq<int>, o: seq<int>, issued: set<int>, spawns: set<int>, obits: set<int>, c: nat, e: int)
    requires Cells(s, o, issued, spawns, obits) && c < |s| && spawns <= issued
    requires e == s[c] || e == TM_NULL_EVENT || e == TM_ERROR_EVENT
    requires TM_NULL_EVENT !in issued && TM_ERROR_EVENT !in issued && s[c] !in spawns
    ensures Cells(s[c := e], o, issued, spawns, obits)
  {
    var p := s[c := e];
    forall x | x in spawns ensures x in p {
      var i :| 0 <= i < |s| && s[i] == x;
      assert p[i] == x;
    }
  }

  /** A delivered event stands in a cell; the others still do. */
  lemma Located(s: seq<int>, o: seq<int>, issued: set<int>, spawns: set<int>, obits: set<int>, e: int) returns (k: nat)
    requires Cells(s, o, issued, spawns, obits)
    ensures Cells(s, o, issued, spawns - {e}, obits - {e})
    ensures e in spawns ==> k < |s| && s[k] == e && o[k] !in issued
    ensures e !in spawns && e in obits ==> k < |o| && o[k] == e
  {
    k := 0;
    if e in spawns {
      k :| 0 <= k < |s| && s[k] == e;
    } else if e in obits {
      k :| 0 <= k < |o| && o[k] == e;
    }
  }

  /** How waiting ended: everything came back, the program exited, or it is still waiting. */
  datatype Outcome = Done | Exited | Waiting

  class Program {
    const tm: TaskManager
    const tid: array<int>
    const eventsSpawn: array<int>
    const eventsObit: array<int>
    var nspawned: int

    ghost predicate Sized()
      reads this
    {
      && tid.Length == eventsSpawn.Length == eventsObit.Length
      && tid != eventsSpawn && tid != eventsObit && eventsSpawn != eventsObit
    }

    ghost predicate Linked()
      reads this, tm, eventsSpawn, eventsObit
    {
      && Sized() && tm.Valid() && Cells(eventsSpawn[..], eventsObit[..], tm.issued, tm.spawns, tm.obits)
      && Watches(eventsSpawn[..], eventsObit[..], tm.watch)
    }

    ghost predicate Valid()
      reads this, tm, eventsSpawn, eventsObit
    {
      Linked() && nspawned == |tm.spawns| && tm.acked == tm.Asked()
    }

    /** The tables as main sets them up. */
    constructor (numnodes: nat)
      ensures Valid() && tm.spawns == {} && tm.obits == {} && tid.Length == numnodes
      ensures forall c :: 0 <= c < numnodes ==> eventsSpawn[c] == eventsObit[c] == TM_NULL_EVENT
      ensures fresh(tm) && fresh(tid) && fresh(eventsSpawn) && fresh(eventsObit)
    {
      tm := new TaskManager();
      tid := new int[numnodes](_ => TM_NULL_TASK);
      eventsSpawn := new int[numnodes](_ => TM_NULL_EVENT);
      eventsObit := new int[numnodes](_ => TM_NULL_EVENT);
      nspawned := 0;
    }

    /** obit_submit on a task that has no obit pending. */
    method ObitSubmit(c: nat) returns (ok: bool, ghost registered: bool)
      requires Linked() && c < tid.Length
      requires eventsObit[c] !in tm.obits && eventsSpawn[c] !in tm.spawns
      modifies tm`issued, tm`obits, tm`watch, tm`settled, eventsObit
      ensures Linked() && tm.spawns == old(tm.spawns)
      ensures forall d :: 0 <= d < tid.Length && d != c ==> eventsObit[d] == old(eventsObit[d])
      ensures registered <==> ok && eventsObit[c] != TM_NULL_EVENT && eventsObit[c] != TM_ERROR_EVENT
      ensures |tm.obits| == old(|tm.obits|) + if registered then 1 else 0
      ensures tm.acked == old(tm.acked) && tm.Asked() == old(tm.Asked()) + {eventsSpawn[c]}
    {
      ghost var s, o, issued, spawns, obits := eventsSpawn[..], eventsObit[..], tm.issued, tm.spawns, tm.obits;
      var event;
      ok, event := tm.Obit(eventsSpawn[c], eventsObit[c]);
      eventsObit[c] := event;
      assert eventsObit[..] == o[c := event] && eventsSpawn[..] == s;
      registered := ok && event != TM_NULL_EVENT && event != TM_ERROR_EVENT;
      assert registered ==> event !in o by {
        assert forall d :: 0 <= d < |o| ==> Known(o[d], issued);
      }
      hide Cells, Watches, Tasks;
      WatchCell(s, o, old(tm.watch), c, event);
      if registered {
        NewlyWatched(old(tm.watch), event, eventsSpawn[c]);
        ObitCell(s, o, issued, spawns, obits, c, event);
      } else {
        ObitCellReset(s, o, issued, spawns, obits, c, event);
      }
    }

    /** Task `k` holds the delivered event. */
    ghost predicate Holds(k: nat, event: int, spawned: bool)
      requires Sized()
      reads this, tm, eventsSpawn, eventsObit
    {
      && k < tid.Length && event in tm.issued && event !in tm.spawns && event !in tm.obits
      && (if spawned then eventsSpawn[k] == event && eventsObit[k] !in tm.issued else eventsObit[k] == event)
    }

    /** A task nobody has asked for yet is left alone. */
    twostate predicate Untouched()
      requires old(Sized()) && Sized()
      reads this, eventsSpawn, eventsObit
    {
      && eventsSpawn[..] == old(eventsSpawn[..])
      && forall d :: 0 <= d < tid.Length && eventsSpawn[d] == TM_NULL_EVENT && old(eventsObit[d]) == TM_NULL_EVENT ==>
           eventsObit[d] == TM_NULL_EVENT
    }

    /** A spawn is acknowledged: one unacknowledged spawn less, and perhaps one registered obit more. */
    method OnSpawn(c: nat, event: int, errno: int, nobits: int) returns (n: int)
      requires Linked() && Holds(c, event, true) && nspawned == |tm.spawns| + 1
      requires tm.acked == tm.Asked() + if errno == 0 then {event} else {}
      modifies this`nspawned, tm`issued, tm`obits, tm`watch, tm`settled, eventsObit
      ensures Valid() && nspawned == old(nspawned) - 1
      ensures tm.acked == old(tm.acked) && tm.Asked() == old(tm.Asked()) + if errno == 0 then {event} else {}
      ensures n - |tm.obits| == nobits - old(|tm.obits|) && nobits <= n <= nobits + 1
      ensures forall d :: 0 <= d < tid.Length && d != c ==> eventsObit[d] == old(eventsObit[d])
    {
      n := nobits;
      nspawned := nspawned - 1;
      if errno == 0 {
        var ok, _ := ObitSubmit(c);
        if ok && eventsObit[c] != TM_NULL_EVENT && eventsObit[c] != TM_ERROR_EVENT {
          n := n + 1;
        }
      }
    }

    /** An obit arrives: the task is over, or the system failed and the obit is asked for again. */
    method OnObit(c: nat, event: int, errno: int, nobits: int) returns (n: int, ghost lost: bool)
      requires Linked() && Holds(c, event, false) && eventsSpawn[c] !in tm.spawns
      requires tm.acked == tm.Asked() + if errno == TM_ESYSTEM then {eventsSpawn[c]} else {}
      modifies tm`issued, tm`obits, tm`watch, tm`settled, eventsObit, tid
      ensures Linked() && tm.spawns == old(tm.spawns) && tm.acked == old(tm.acked) == tm.Asked()
      ensures if errno == TM_ESYSTEM then unchanged(tid)
              else tid[..] == old(tid[..])[c := TM_NULL_TASK] && eventsObit[c] == TM_NULL_EVENT && unchanged(tm)
      ensures n == if errno == TM_ESYSTEM then nobits else nobits - 1
      ensures lost ==> errno == TM_ESYSTEM
      ensures n - |tm.obits| == nobits - (old(|tm.obits|) + 1) + if lost then 1 else 0
      ensures forall d :: 0 <= d < tid.Length && d != c ==> eventsObit[d] == old(eventsObit[d])
    {
      if errno == TM_ESYSTEM {
        var _, registered := ObitSubmit(c);
        n, lost := nobits, !registered;
      } else {
        ghost var s, o := eventsSpawn[..], eventsObit[..];
        n, lost := nobits - 1, false;
        tid[c] := TM_NULL_TASK;
        eventsObit[c] := TM_NULL_EVENT;
        assert eventsObit[..] == o[c := TM_NULL_EVENT] && eventsSpawn[..] == s;
        ObitCellReset(s, o, tm.issued, tm.spawns, tm.obits, c, TM_NULL_EVENT);
      }
    }

    /** A delivered event stands in one cell only. */
    lemma OneCell(k: nat, event: int, spawned: bool)
      requires Linked() && Holds(k, event, spawned)
      ensures forall d :: 0 <= d < tid.Length && d != k ==> eventsSpawn[d] != event && eventsObit[d] != event
      ensures !spawned ==> eventsSpawn[k] != event && eventsSpawn[k] !in tm.spawns
    {
      var s, o := eventsSpawn[..], eventsObit[..];
      forall d | 0 <= d < tid.Length && d != k ensures eventsSpawn[d] != event && eventsObit[d] != event {
        assert s[d] == eventsSpawn[d] && o[d] == eventsObit[d] && s[k] == eventsSpawn[k] && o[k] == eventsObit[k];
      }
      assert s[k] == eventsSpawn[k] && o[k] == eventsObit[k];
    }

    /** The scan over all tasks for one delivered event. */
    method Dispatch(event: int, errno: int, nobits: int, ghost k: nat, ghost spawned: bool)
      returns (n: int, ghost lost: bool)
      requires Linked() && Holds(k, event, spawned)
      requires nspawned == |tm.spawns| + if spawned then 1 else 0
      requires tm.acked == tm.Asked() + if spawned then (if errno == 0 then {event} else {})
                                          else if errno == TM_ESYSTEM then {eventsSpawn[k]} else {}
      modifies this`nspawned, tm`issued, tm`obits, tm`watch, tm`settled, eventsObit, tid
      ensures Valid() && Untouched()
      ensures tm.acked == old(tm.acked)
      ensures lost ==> !spawned && errno == TM_ESYSTEM
      ensures n - |tm.obits| == nobits - (old(|tm.obits|) + if spawned then 0 else 1) + if lost then 1 else 0
      ensures 2 * nspawned + n + (if !spawned && errno == TM_ESYSTEM then 0 else 1) <= 2 * old(nspawned) + nobits
    {
      OneCell(k, event, spawned);
      hide Cells;
      n, lost := nobits, false;
      for c := 0 to tid.Length
        invariant c <= k ==> n == nobits && !lost && nspawned == old(nspawned) && unchanged(tm) && unchanged(eventsObit)
        invariant c > k ==> Valid() && (lost ==> !spawned && errno == TM_ESYSTEM)
        invariant tm.acked == old(tm.acked)
        invariant c > k ==>
                    n - |tm.obits| == nobits - (old(|tm.obits|) + if spawned then 0 else 1) + if lost then 1 else 0
        invariant c > k ==>
                    2 * nspawned + n + (if !spawned && errno == TM_ESYSTEM then 0 else 1) <= 2 * old(nspawned) + nobits
        invariant forall d :: 0 <= d < tid.Length && d != k ==> eventsObit[d] == old(eventsObit[d])
      {
        if event == eventsSpawn[c] {
          n := OnSpawn(c, event, errno, n);
        } else if event == eventsObit[c] {
          n, lost := OnObit(c, event, errno, n);
        }
      }
    }

    /** A pending event, just taken off `spawns` or `obits`, is dealt with. */
    method Deliver(event: int, errno: int, nobits: int, ghost spawns: set<int>, ghost obits: set<int>,
                   ghost watch: map<int, int>)
      returns (n: int, ghost lost: bool)
      requires Sized() && tm.Valid() && Cells(eventsSpawn[..], eventsObit[..], tm.issued, spawns, obits)
      requires spawns !! obits && event in spawns + obits && event in tm.issued
      requires tm.spawns == spawns - {event} && tm.obits == obits - {event} && nspawned == |spawns|
      requires Watches(eventsSpawn[..], eventsObit[..], watch) && watch.Keys == obits && tm.watch == watch - {event}
      requires tm.acked == tm.Asked() + Due(event in spawns, event, errno, watch)
      modifies this`nspawned, tm`issued, tm`obits, tm`watch, tm`settled, eventsObit, tid
      ensures Valid() && Untouched()
      ensures tm.acked == old(tm.acked)
      ensures lost ==> event !in spawns && errno == TM_ESYSTEM
      ensures n - |tm.obits| == nobits - |obits| + if lost then 1 else 0
      ensures 2 * nspawned + n + 1 <= 2 * |spawns| + nobits + if event !in spawns && errno == TM_ESYSTEM then 1 else 0
    {
      hide Cells, Unique, Watches, Tasks;
      ghost var k := Located(eventsSpawn[..], eventsObit[..], tm.issued, spawns, obits, event);
      WatchedTask(eventsSpawn[..], eventsObit[..], watch, k, event);
      n, lost := Dispatch(event, errno, nobits, k, event in spawns);
    }

    /** One poll, and the delivered event dealt with; `ok` is false when the program exits. */
    method Round(nobits: int) returns (ok: bool, n: int, ghost delivered: bool, ghost again: bool, ghost lost: bool)
      requires Valid()
      modifies this`nspawned, tm`issued, tm`spawns, tm`obits, tm`acked, tm`watch, tm`settled, eventsObit, tid
      ensures ok ==> Valid() && Untouched()
      ensures ok ==> n - |tm.obits| == nobits - old(|tm.obits|) + if lost then 1 else 0
      ensures lost ==> again
      ensures ok ==>
                2 * nspawned + n + (if delivered then 1 else 0) <= 2 * old(nspawned) + nobits + if again then 1 else 0
    {
      hide Cells, Unique, Watches, Tasks, Due, TaskManager.Asked, TaskManager.Delivered;
      n, delivered, again, lost := nobits, false, false, false;
      var event, errno;
      ok, event, errno := tm.Poll();
      if ok && event != TM_NULL_EVENT {
        delivered, again := true, event !in old(tm.spawns) && errno == TM_ESYSTEM;
        n, lost := Deliver(event, errno, nobits, old(tm.spawns), old(tm.obits), old(tm.watch));
      }
    }

    /**
      wait_for_task, watched for at most `polls` rounds: it returns only when no spawn and no
      registered obit is pending; while it waits something is pending, unless a resubmission
      failed, after which it never returns; and the events delivered are bounded, resubmissions aside, by twice the spawns.
      Every task acknowledged without error has then been asked for its obit and settled.
     */
    method WaitForTask(polls: nat) returns (r: Outcome, ghost delivered: nat, ghost resubmits: nat, ghost lost: nat)
      requires Valid() && tm.obits == {}
      modifies this`nspawned, tm`issued, tm`spawns, tm`obits, tm`acked, tm`watch, tm`settled, eventsObit, tid
      ensures !r.Exited? ==> Valid() && Untouched()
      ensures r.Done? ==> tm.spawns == {} && tm.obits == {} && nspawned == 0 && lost == 0 && tm.acked == tm.settled
      ensures r.Waiting? && lost == 0 ==> tm.spawns + tm.obits != {}
      ensures lost <= resubmits
      ensures !r.Exited? ==> delivered + 2 * nspawned + |tm.obits| + lost <= 2 * old(nspawned) + resubmits
    {
      hide Cells, Unique, Watches, Tasks;
      var nobits := 0;
      delivered, resubmits, lost := 0, 0, 0;
      var i := 0;
      while i < polls && (nspawned != 0 || nobits != 0)
        invariant Valid() && Untouched()
        invariant nobits == |tm.obits| + lost && lost <= resubmits
        invariant delivered + 2 * nspawned + nobits <= 2 * old(nspawned) + resubmits
      {
        var interrupted, ok := *, true;
        if !interrupted {
          ghost var one, again, gone;
          ok, nobits, one, again, gone := Round(nobits);
          delivered := delivered + if one then 1 else 0;
          resubmits := resubmits + if again then 1 else 0;
          lost := lost + if gone then 1 else 0;
        }
        if interrupted || !ok {
          return Exited, delivered, resubmits, lost;
        }
        i := i + 1;
      }
      r := if nspawned == 0 && nobits == 0 then Done else Waiting;
      if r.Done? {
        NoneWatched(tm.watch);
      }
    }

    /** tm_spawn for one task; the counter counts it if it is accepted. */
    method SpawnOne(c: nat) returns (ok: bool)
      requires Valid() && c < tid.Length && eventsSpawn[c] == eventsObit[c] == TM_NULL_EVENT
      modifies this`nspawned, tm, eventsSpawn
      ensures tm.nodes == old(tm.nodes) + [c] && tm.alone == old(tm.alone && tm.spawns == {} && tm.obits == {})
      ensures Valid() && tm.obits == old(tm.obits) && nspawned == old(nspawned) + if ok then 1 else 0
      ensures !ok ==> tm.spawns == old(tm.spawns)
      ensures forall d :: 0 <= d < tid.Length && d != c ==> eventsSpawn[d] == old(eventsSpawn[d])
    {
      ghost var s, o, issued, spawns, obits := eventsSpawn[..], eventsObit[..], tm.issued, tm.spawns, tm.obits;
      var event;
      ok, event := tm.Spawn(c, eventsSpawn[c]);
      eventsSpawn[c] := event;
      assert eventsSpawn[..] == s[c := event] && eventsObit[..] == o;
      hide Cells;
      if ok {
        nspawned := nspawned + 1;
        SpawnCell(s, o, issued, spawns, obits, c, event);
      } else {
        SpawnCellReset(s, o, issued, spawns, obits, c, event);
      }
    }

    /** With nothing pending, every task acknowledged without error is settled. */
    lemma Settled()
      requires Valid() && tm.spawns == {} && tm.obits == {}
      ensures nspawned == 0 && tm.acked == tm.settled
    {
      NoneWatched(tm.watch);
    }

    /** One turn of the spawn loop, which waits for the task at once when `sync`. */
    method SpawnNext(c: nat, sync: bool, polls: nat) returns (r: Outcome, ghost waits: nat)
      requires Valid() && tm.obits == {} && (sync ==> tm.spawns == {})
      requires c < tid.Length && eventsSpawn[c] == eventsObit[c] == TM_NULL_EVENT
      modifies this`nspawned, tm, eventsSpawn, eventsObit, tid
      ensures r.Done? ==> Valid() && tm.obits == {} && (sync ==> tm.spawns == {})
      ensures r.Done? ==> forall d :: 0 <= d < tid.Length && d != c &&
                                      old(eventsSpawn[d]) == old(eventsObit[d]) == TM_NULL_EVENT ==>
                                      eventsSpawn[d] == eventsObit[d] == TM_NULL_EVENT
      ensures tm.nodes == old(tm.nodes) + [c] && (sync ==> tm.alone == old(tm.alone))
      ensures !sync ==> r.Done? && waits == 0
    {
      hide Cells, Unique, Watches, Tasks;
      r, waits := Done, 0;
      var ok := SpawnOne(c);
      if ok && sync {
        ghost var delivered, resubmits, lost;
        r, delivered, resubmits, lost := WaitForTask(polls);
        waits := 1;
      }
    }

    /**
      The spawn loop of main, one task at a time when `sync`: when it comes to an end a spawn has been
      asked for on each node in turn, no spawn is unacknowledged, no registered obit outstanding, and
      every task acknowledged without error is settled.
     */
    method SpawnAll(start: nat, stop: nat, sync: bool, polls: nat) returns (r: Outcome, ghost waits: nat)
      requires Valid() && tm.spawns == {} && tm.obits == {}
      requires start <= stop <= tid.Length
      requires forall c :: start <= c < stop ==> eventsSpawn[c] == eventsObit[c] == TM_NULL_EVENT
      modifies this`nspawned, tm, eventsSpawn, eventsObit, tid
      ensures r.Done? ==> Valid() && tm.spawns == {} && tm.obits == {} && nspawned == 0 && tm.acked == tm.settled
      ensures r.Done? ==> tm.nodes == old(tm.nodes) + Nodes(start, stop)
      ensures sync ==> tm.alone == old(tm.alone)
      ensures !sync ==> waits == 1
    {
      hide Cells, Unique, Watches, Tasks, TaskManager.Valid;
      r, waits := Done, 0;
      for c := start to stop
        invariant Valid() && tm.obits == {} && (sync ==> tm.spawns == {} && tm.alone == old(tm.alone))
        invariant forall d :: c <= d < stop ==> eventsSpawn[d] == eventsObit[d] == TM_NULL_EVENT
        invariant tm.nodes == old(tm.nodes) + Nodes(start, c)
        invariant r.Done? && (!sync ==> waits == 0)
      {
        ghost var more;
        r, more := SpawnNext(c, sync, polls);
        waits := waits + more;
        if r != Done {
          return;
        }
        assert Nodes(start, c + 1) == Nodes(start, c) + [c];
      }
      if !sync {
        ghost var delivered, resubmits, lost;
        r, delivered, resubmits, lost := WaitForTask(polls);
        waits := 1;
      }
      if r.Done? && sync {
        Settled();
      }
    }
  }
}

/** uniquehostlist (src/cmds/pbsdsh.c:493-514). */
module PbsdshHosts {
  /** The elements of `a` at which a new run of equal neighbours begins in `hosts`. */
  function Firsts<T>(a: seq<T>, hosts: seq<string>): (r: seq<T>)
    requires |a| == |hosts|
    ensures |r| <= |a|
    ensures a != [] ==> r != []
  {
    var n := |a|;
    if n == 0 then [] else
    Firsts(a[..n - 1], hosts[..n - 1]) + if n == 1 || hosts[n - 2] != hosts[n - 1] then [a[n - 1]] else []
  }

  lemma FirstsStep<T>(a: seq<T>, hosts: seq<string>, j: nat)
    requires |a| == |hosts| && j < |a|
    ensures Firsts(a[..j + 1], hosts[..j + 1]) ==
            Firsts(a[..j], hosts[..j]) + if j == 0 || hosts[j - 1] != hosts[j] then [a[j]] else []
  {
    assert a[..j + 1][..j] == a[..j] && hosts[..j + 1][..j] == hosts[..j];
  }

  method UniqueHostList(nodelist: array<int>, hosts: seq<string>) returns (hole: nat)
    requires nodelist.Length == |hosts|
    modifies nodelist
    ensures hole <= nodelist.Length && nodelist[..hole] == Firsts(old(nodelist[..]), hosts)
  {
    ghost var was := nodelist[..];
    var umove, j := false, 1;
    hole := |hosts|;
    if |hosts| > 0 {
      assert Firsts(was[..0], hosts[..0]) == was[..0] == [];
      FirstsStep(was, hosts, 0);
      assert was[..1] == was[..0] + [was[0]];
    }
    hide Firsts;
    while j < |hosts|
      invariant |hosts| > 0 ==> 1 <= j <= |hosts|
      invariant forall k :: j <= k < |hosts| ==> nodelist[k] == was[k]
      invariant !umove ==> hole == |hosts| && nodelist[..] == was
      invariant !umove && |hosts| > 0 ==> Firsts(was[..j], hosts[..j]) == was[..j]
      invariant umove ==> hole < j <= |hosts| && nodelist[..hole] == Firsts(was[..j], hosts[..j])
    {
      FirstsStep(was, hosts, j);
      if hosts[j - 1] == hosts[j] {
        if !umove {
          umove, hole := true, j;
        }
      } else if umove {
        nodelist[hole] := nodelist[j];
        assert nodelist[..hole + 1] == nodelist[..hole] + [was[j]];
        hole := hole + 1;
      } else {
        assert was[..j + 1] == was[..j] + [was[j]];
      }
      j := j + 1;
    }
    NoHosts(was, hosts);
    assert was[..|hosts|] == was && hosts[..|hosts|] == hosts;
  }

  lemma NoHosts<T>(a: seq<T>, hosts: seq<string>)
    requires |a| == |hosts|
    ensures a == [] ==> Firsts(a, hosts) == []
  {
  }

  /** No host is lost. */
  lemma {:induction false} SameHosts(h: seq<string>)
    ensures forall x :: x in Firsts(h, h) <==> x in h
  {
    if h != [] {
      var n := |h|;
      SameHosts(h[..n - 1]);
      assert h == h[..n - 1] + [h[n - 1]];
      if n > 1 && h[n - 2] == h[n - 1] {
        assert h[n - 1] in h[..n - 1];
      }
    }
  }

  ghost predicate NoRepeat(s: seq<string>) {
    forall i, j :: 0 <= i < j < |s| ==> s[i] != s[j]
  }

  /** Equal hosts stand next to each other. */
  ghost predicate Grouped(h: seq<string>) {
    forall i, j, k :: 0 <= i < j < k < |h| && h[i] == h[k] ==> h[j] == h[i]
  }

  lemma AppendRepeat(f: seq<string>, x: string)
    ensures NoRepeat(f + [x]) <==> NoRepeat(f) && x !in f
  {
    var g := f + [x];
    assert g[|f|] == x && forall i :: 0 <= i < |f| ==> g[i] == f[i];
    if NoRepeat(g) {
      forall i, j | 0 <= i < j < |f| ensures f[i] != f[j] {
        assert g[i] != g[j];
      }
      forall i | 0 <= i < |f| ensures f[i] != x {
        assert g[i] != g[|f|];
      }
    }
  }

  lemma AppendGroup(g: seq<string>, x: string)
    requires g != []
    ensures Grouped(g + [x]) <==> Grouped(g) && (x == g[|g| - 1] || x !in g)
  {
    var n, h := |g|, g + [x];
    assert h[n] == x && forall i :: 0 <= i < n ==> h[i] == g[i];
    if Grouped(h) {
      forall i, j, k | 0 <= i < j < k < n && g[i] == g[k] ensures g[j] == g[i] {
        assert h[i] == h[k] && h[j] == h[i];
      }
      forall i | 0 <= i < n - 1 && g[i] == x ensures g[n - 1] == x {
        assert h[i] == h[n] && h[n - 1] == h[i];
      }
    }
    if Grouped(g) && (x == g[n - 1] || x !in g) {
      forall i, j, k | 0 <= i < j < k < n + 1 && h[i] == h[k] ensures h[j] == h[i] {
        var m := if k == n then n - 1 else k;
        assert h[i] in g && g[i] == g[m];
        assert j == m || g[j] == g[i];
      }
    }
  }

  /** The remaining hosts are distinct exactly when the node file lists each host in one block. */
  lemma {:induction false} UniqueExactly(h: seq<string>)
    ensures NoRepeat(Firsts(h, h)) <==> Grouped(h)
  {
    if h != [] {
      var n := |h|;
      var g, x := h[..n - 1], h[n - 1];
      assert h == g + [x];
      UniqueExactly(g);
      SameHosts(g);
      AppendRepeat(Firsts(g, g), x);
      if n > 1 {
        AppendGroup(g, x);
      }
      OneHost(h);
      if n > 1 {
        if g[n - 2] == x {
          assert Firsts(h, h) == Firsts(g, g);
        } else {
          assert Firsts(h, h) == Firsts(g, g) + [x];
          assert x in Firsts(g, g) <==> x in g;
        }
      }
    }
  }

  lemma OneHost(h: seq<string>)
    requires h != []
    ensures |h| == 1 ==> Grouped(h) && NoRepeat(Firsts(h, h))
  {
    if |h| == 1 {
      assert Firsts(h, h) == Firsts(h[..0], h[..0]) + [h[0]];
    }
  }
}
