/**
  qmgr's connections and the object names that share them (src/cmds/qmgr.c:716-767, 920-925,
  1201-1342, 1447-1598, 2549-2710, 2903-2965).

  Every `struct objname` may point at a `struct server`; a server counts the pointers to it in
  `ref`, and connections nobody points to are closed before new ones are opened.  The singly
  linked lists of the source are sequences here.  Whether a connection attempt, a server request
  or the existence check of an object succeeds is left open.
 */
module QmgrServers {
  import opened Common
  import QmgrNames

  class Server {
    const name: string
    var ref: int

    constructor (name: string)
      ensures this.name == name && ref == 0
    {
      this.name := name;
      ref := 0;
    }
  }

  class ObjName {
    const objName: string
    var svrName: Option<string>
    var svr: Server?

    constructor (objName: string, svrName: Option<string>)
      ensures this.objName == objName && this.svrName == svrName && svr == null
    {
      this.objName, this.svrName, svr := objName, svrName, null;
    }
  }

  ghost function Pointing(live: set<ObjName>, s: Server): set<ObjName>
    reads live`svr
  {
    set o | o in live && o.svr == s
  }

  ghost predicate NoDup<T>(l: seq<T>) {
    forall i, j :: 0 <= i < j < |l| ==> l[i] != l[j]
  }

  ghost function Elems(l: seq<ObjName>): set<ObjName> {
    set o | o in l
  }

  ghost predicate Apart(a: seq<ObjName>, b: seq<ObjName>) {
    forall o :: o in a ==> o !in b
  }

  datatype Kind = Servers | Queues | Nodes

  /** An object name as it is written: the object, and perhaps a server. */
  type Spec = QmgrNames.Spec

  datatype Command = Command(setActive: bool, kind: Kind, specs: seq<Spec>)

  /** The active objects, as they were written. */
  datatype Active = Active(servers: seq<Spec>, queues: seq<Spec>, nodes: seq<Spec>)

  /** A command that sets the active objects of one kind, names some and succeeds, replaces these; nothing else does. */
  function Activated(a: Active, c: Command, error: bool): Active {
    if !c.setActive || error || c.specs == [] then a
    else
      match c.kind
      case Servers => a.(servers := c.specs)
      case Queues => a.(queues := c.specs)
      case Nodes => a.(nodes := c.specs)
  }

  /** After as many commands as `errors` tells the outcome of. */
  function ActiveAfter(a: Active, cmds: seq<Command>, errors: seq<bool>): Active
    requires |errors| <= |cmds|
    decreases |errors|
  {
    var n := |errors|;
    if n == 0 then a else Activated(ActiveAfter(a, cmds[..n - 1], errors[..n - 1]), cmds[n - 1], errors[n - 1])
  }

  /** One object asked for at each of several servers. */
  function Each(name: string, at: seq<string>): seq<(string, string)> {
    if at == [] then [] else Each(name, at[..|at| - 1]) + [(name, at[|at| - 1])]
  }

  /** The requests of a command: every object at its own server, or at each active one in turn. */
  function Requests(objs: seq<Spec>, active: seq<string>): seq<(string, string)> {
    var n := |objs|;
    if n == 0 then [] else
    Requests(objs[..n - 1], active) + RequestsFor(objs[n - 1], active)
  }

  function RequestsFor(o: Spec, active: seq<string>): seq<(string, string)> {
    if o.1.Some? then [(o.0, o.1.value)] else Each(o.0, active)
  }

  ghost function SpecsOf(l: seq<ObjName>): (specs: seq<Spec>)
    reads l`svrName
    ensures |specs| == |l|
  {
    if l == [] then [] else SpecsOf(l[..|l| - 1]) + [(l[|l| - 1].objName, l[|l| - 1].svrName)]
  }

  ghost function NameOf(s: Server?): string {
    if s == null then "" else s.name
  }

  /** The names of the servers a list points at. */
  ghost function ServersOf(l: seq<ObjName>): (names: seq<string>)
    reads l`svr
    ensures |names| == |l|
  {
    if l == [] then [] else ServersOf(l[..|l| - 1]) + [NameOf(l[|l| - 1].svr)]
  }

  /** The names of a list, each with the server it points at if it has a server part. */
  ghost function TargetsOf(l: seq<ObjName>): (ts: seq<Spec>)
    reads l`svrName, l`svr
    ensures |ts| == |l|
  {
    if l == [] then [] else TargetsOf(l[..|l| - 1]) + [TargetOf(l[|l| - 1])]
  }

  ghost function TargetOf(o: ObjName): Spec
    reads o`svrName, o`svr
  {
    (o.objName, if o.svrName.Some? then Some(NameOf(o.svr)) else None)
  }

  lemma {:induction false} SpecsAre(l: seq<ObjName>, specs: seq<Spec>)
    requires |l| == |specs|
    requires forall i :: 0 <= i < |l| ==> l[i].objName == specs[i].0 && l[i].svrName == specs[i].1
    ensures SpecsOf(l) == specs
  {
    if l != [] {
      SpecsAre(l[..|l| - 1], specs[..|l| - 1]);
      assert specs == specs[..|l| - 1] + [specs[|l| - 1]];
    }
  }

  lemma {:induction false} TargetsAre(l: seq<ObjName>, specs: seq<Spec>)
    requires |l| == |specs| && forall i :: 0 <= i < |l| ==> TargetOf(l[i]) == specs[i]
    ensures TargetsOf(l) == specs
  {
    if l != [] {
      TargetsAre(l[..|l| - 1], specs[..|l| - 1]);
      assert specs == specs[..|l| - 1] + [specs[|l| - 1]];
    }
  }

  lemma {:induction false} TargetAt(l: seq<ObjName>, i: nat)
    requires i < |l|
    ensures TargetsOf(l)[i] == TargetOf(l[i])
  {
    if i < |l| - 1 {
      TargetAt(l[..|l| - 1], i);
    }
  }

  lemma {:induction false} ServerAt(l: seq<ObjName>, i: nat)
    requires i < |l|
    ensures ServersOf(l)[i] == NameOf(l[i].svr)
  {
    if i < |l| - 1 {
      ServerAt(l[..|l| - 1], i);
    }
  }

  lemma TargetsAt(l: seq<ObjName>)
    ensures forall i :: 0 <= i < |l| ==> TargetsOf(l)[i] == TargetOf(l[i])
  {
    forall i | 0 <= i < |l| ensures TargetsOf(l)[i] == TargetOf(l[i]) {
      TargetAt(l, i);
    }
  }

  lemma ServersAt(l: seq<ObjName>)
    ensures forall i :: 0 <= i < |l| ==> ServersOf(l)[i] == NameOf(l[i].svr)
  {
    forall i | 0 <= i < |l| ensures ServersOf(l)[i] == NameOf(l[i].svr) {
      ServerAt(l, i);
    }
  }

  /** One object asked for at these servers. */
  ghost function RequestsAt(name: string, at: seq<Server?>): seq<(string, string)> {
    if at == [] then [] else RequestsAt(name, at[..|at| - 1]) + [(name, NameOf(at[|at| - 1]))]
  }

  lemma {:induction false} RequestsAre(name: string, at: seq<Server?>, names: seq<string>)
    requires |at| <= |names| && forall j :: 0 <= j < |at| ==> NameOf(at[j]) == names[j]
    ensures RequestsAt(name, at) == Each(name, names[..|at|]) <= Each(name, names)
    ensures |at| == |names| ==> RequestsAt(name, at) == Each(name, names)
    ensures |at| == |names| == 1 ==> RequestsAt(name, at) == [(name, names[0])]
  {
    var n := |at|;
    if n > 0 {
      RequestsAre(name, at[..n - 1], names);
      EachNext(name, names, n - 1);
    }
    EachBegins(name, names, n);
    assert n == |names| ==> names[..n] == names;
  }

  lemma EachNext(name: string, at: seq<string>, i: nat)
    requires i < |at|
    ensures Each(name, at[..i + 1]) == Each(name, at[..i]) + [(name, at[i])]
  {
    assert at[..i + 1][..i] == at[..i];
  }

  lemma RequestsNext(objs: seq<Spec>, active: seq<string>, i: nat)
    requires i < |objs|
    ensures Requests(objs[..i + 1], active) == Requests(objs[..i], active) + RequestsFor(objs[i], active)
  {
    assert objs[..i + 1][..i] == objs[..i];
  }

  /** What was asked up to some point begins the whole. */
  lemma {:induction false} EachBegins(name: string, at: seq<string>, i: nat)
    requires i <= |at|
    ensures Each(name, at[..i]) <= Each(name, at)
    decreases |at|
  {
    if i < |at| {
      assert at[..|at| - 1][..i] == at[..i];
      EachBegins(name, at[..|at| - 1], i);
    } else {
      assert at[..i] == at;
    }
  }

  lemma {:induction false} RequestsBegin(objs: seq<Spec>, active: seq<string>, i: nat)
    requires i <= |objs|
    ensures Requests(objs[..i], active) <= Requests(objs, active)
    decreases |objs|
  {
    if i < |objs| {
      assert objs[..|objs| - 1][..i] == objs[..i];
      RequestsBegin(objs[..|objs| - 1], active, i);
    } else {
      assert objs[..i] == objs;
    }
  }

  class Qmgr {
    var servers: seq<Server>
    var nservers: int
    var activeServers: seq<ObjName>
    var activeQueues: seq<ObjName>
    var activeNodes: seq<ObjName>
    const temp: ObjName
    /** All object names that have been allocated and not freed, the static temporary included. */
    ghost var live: set<ObjName>

    /**
      The list has no duplicates and `nservers` is its length; live names point only at listed
      servers; no server counts fewer pointers than it has.
     */
    ghost predicate Counted()
      reads this`servers, this`nservers, this`live, live`svr, servers`ref
    {
      && NoDup(servers) && nservers == |servers|
      && temp in live
      && (forall o :: o in live && o.svr != null ==> o.svr in servers)
      && (forall s :: s in servers ==> s.ref >= |Pointing(live, s)|)
    }

    /** Each listed server counts exactly the live names that point at it. */
    ghost predicate Exact()
      reads this`servers, this`live, live`svr, servers`ref
    {
      forall s :: s in servers ==> s.ref == |Pointing(live, s)|
    }

    constructor ()
      ensures Valid() && Exact() && fresh(live) && nservers == 0
      ensures servers == [] && activeServers == [] && activeQueues == [] && activeNodes == []
    {
      temp := new ObjName("", None);
      servers, nservers, activeServers, activeQueues, activeNodes := [], 0, [], [], [];
      new;
      live := {temp};
    }

    // -- the three updates of a pointer and its count --

    /** o->svr = s; s->ref++ */
    method Point(o: ObjName, s: Server)
      requires Counted() && o in live && s in servers
      modifies o`svr, s`ref
      ensures Counted()
      ensures o.svr == s
      ensures old(Exact()) && old(o.svr) == null ==> Exact()
    {
      ghost var was := o.svr;
      o.svr := s;
      s.ref := s.ref + 1;
      assert Pointing(live, s) == old(Pointing(live, s)) + {o};
      assert was == null ==> o !in old(Pointing(live, s));
      forall t | t in servers && t != s ensures Pointing(live, t) == old(Pointing(live, t)) - {o} {}
      assert was == null ==> forall t :: t in servers ==> o !in old(Pointing(live, t));
    }

    /** if (o->svr != NULL) o->svr->ref--; o->svr = NULL */
    method Unpoint(o: ObjName)
      requires Counted() && o in live
      modifies o`svr, servers`ref
      ensures Counted()
      ensures o.svr == null
      ensures old(Exact()) ==> Exact()
    {
      if o.svr != null {
        var s := o.svr;
        s.ref := s.ref - 1;
        o.svr := null;
        forall t | t in servers
          ensures t.ref >= |Pointing(live, t)|
          ensures old(Exact()) ==> t.ref == |Pointing(live, t)|
        {
          if t == s {
            assert o in old(Pointing(live, t));
            assert Pointing(live, t) == old(Pointing(live, t)) - {o};
          } else {
            assert Pointing(live, t) == old(Pointing(live, t));
          }
        }
      }
    }

    // -- connections --

    /** find_server: the first listed server of that name. */
    method FindServer(name: Option<string>) returns (s: Server?)
      ensures s != null ==> s in servers && name == Some(s.name)
      ensures s == null && name.Some? ==> forall t :: t in servers ==> t.name != name.value
    {
      s := null;
      if name.Some? {
        var i := 0;
        while i < |servers| && servers[i].name != name.value
          invariant 0 <= i <= |servers|
          invariant forall j :: 0 <= j < i ==> servers[j].name != name.value
        {
          i := i + 1;
        }
        if i < |servers| {
          s := servers[i];
        }
      }
    }

    /** disconnect_from_server, free_server: take the server out of the list. */
    method Disconnect(s: Server)
      requires Counted() && s in servers && s.ref == 0
      modifies this`servers, this`nservers
      ensures Counted() && (old(Exact()) ==> Exact())
      ensures forall t :: t in servers <==> t in old(servers) && t != s
      ensures nservers == old(nservers) - 1
    {
      var i := 0;
      while servers[i] != s
        invariant 0 <= i < |servers| && s in servers[i..]
        decreases |servers| - i
      {
        assert servers[i..] == [servers[i]] + servers[i + 1..];
        i := i + 1;
      }
      assert Pointing(live, s) == {};
      assert forall o :: o in live && o.svr == s ==> o in Pointing(live, s);
      servers := servers[..i] + servers[i + 1..];
      nservers := nservers - 1;
      forall t | t in old(servers) && t != s ensures t in servers {
        var k :| 0 <= k < |old(servers)| && old(servers)[k] == t;
        assert servers[if k < i then k else k - 1] == t;
      }
    }

    /** Closes exactly the servers with no references; nobody points at a closed one. */
    method CloseNonRefServers()
      requires Counted()
      modifies this`servers, this`nservers
      ensures Counted() && (old(Exact()) ==> Exact())
      ensures forall s :: s in servers <==> s in old(servers) && s.ref != 0
      ensures forall o :: o in live && o.svr != null ==> o.svr in servers
      ensures nservers <= old(nservers)
    {
      var all := servers;
      for i := 0 to |all|
        invariant Counted() && (old(Exact()) ==> Exact())
        invariant forall s :: s in servers <==> s in all && (s in all[..i] ==> s.ref != 0)
        invariant nservers <= old(nservers)
      {
        assert all[..i + 1] == all[..i] + [all[i]];
        if all[i].ref == 0 {
          Disconnect(all[i]);
        }
      }
      assert all[..|all|] == all;
    }

    /**
      Connect one name: a new server in front of the list, or nothing when the attempt fails.  For a
      name without a server part a call that survives has failed: a connection would copy NULL.
     */
    method ConnectOne(o: ObjName) returns (error: bool)
      requires Counted() && o in live
      modifies this`servers, this`nservers, o`svr
      ensures Counted() && (old(Exact()) && old(o.svr) == null ==> Exact())
      ensures error ==> servers == old(servers) && o.svr == old(o.svr)
      ensures nservers == if error then old(nservers) else old(nservers) + 1
      ensures !error ==> o.svr != null && fresh(o.svr) && o.svrName == Some(o.svr.name) && servers == [o.svr] + old(servers)
    {
      error := *;
      if o.svrName.None? {
        error := true;
      } else if !error {
        var s := new Server(o.svrName.value);
        assert Pointing(live, s) == {};
        assert forall t :: t in servers ==> Pointing(live, t) == old(Pointing(live, t));
        servers := [s] + servers;
        nservers := nservers + 1;
        Point(o, s);
      }
    }

    /** connect_servers on the first `num` names of `objs` (all of them when `num` is negative). */
    method ConnectServers(objs: seq<ObjName>, num: int, max: int) returns (error: bool)
      requires Counted() && NoDup(objs) && forall o :: o in objs ==> o in live
      modifies this`servers, this`nservers, objs`svr
      ensures Counted()
      ensures forall s :: s in servers ==> s in old(servers) || fresh(s)
      ensures (forall i :: 0 <= i < |objs| && i < Taken(objs, num) ==> old(objs[i].svr) == null) && old(Exact()) ==> Exact()
      ensures !error ==> forall i :: 0 <= i < Taken(objs, num) ==> Connected(objs[i])
      ensures forall i :: Taken(objs, num) <= i < |objs| ==> objs[i].svr == old(objs[i].svr)
      ensures num == 1 && old(nservers) <= max ==> nservers <= max
      ensures nservers <= old(nservers) + Taken(objs, num)
    {
      hide Counted, Exact;
      error := false;
      CloseNonRefServers();
      if nservers < max {
        var i := 0;
        while i != num && i < |objs|
          invariant 0 <= i <= Taken(objs, num)
          invariant Counted()
          invariant forall s :: s in servers ==> s in old(servers) || fresh(s)
          invariant forall j :: i <= j < |objs| ==> objs[j].svr == old(objs[j].svr)
          invariant (forall j :: 0 <= j < Taken(objs, num) ==> old(objs[j].svr) == null) && old(Exact()) ==> Exact()
          invariant !error ==> forall j :: 0 <= j < i ==> Connected(objs[j])
          invariant nservers < max + i && nservers <= old(nservers) + i
          decreases |objs| - i
        {
          var failed := ConnectOne(objs[i]);
          error := error || failed;
          i := i + 1;
        }
      } else {
        error := true;
      }
    }

    /** The name has a server of its server name. */
    ghost predicate Connected(o: ObjName)
      reads o
    {
      o.svr != null && o.svrName == Some(o.svr.name)
    }

    static function Taken(objs: seq<ObjName>, num: int): (n: nat)
      ensures n <= |objs|
    {
      if 0 <= num < |objs| then num else |objs|
    }

    // -- object names --

    /** The active lists hold live names, each once; the temporary is in none of them. */
    ghost predicate Listed(l: seq<ObjName>)
      reads this
    {
      NoDup(l) && temp !in l && forall o :: o in l ==> o in live
    }

    ghost predicate Valid()
      reads this, live, servers
    {
      && Counted()
      && Listed(activeServers) && Listed(activeQueues) && Listed(activeNodes)
      && Apart(activeServers, activeQueues) && Apart(activeServers, activeNodes) && Apart(activeQueues, activeNodes)
    }

    /** A list of names that is in use but not active. */
    ghost predicate Pending(l: seq<ObjName>)
      reads this
    {
      Listed(l) && Apart(l, activeServers) && Apart(l, activeQueues) && Apart(l, activeNodes)
    }

    /** free_objname */
    method FreeObjName(o: ObjName)
      requires Counted() && o in live && o != temp
      modifies this`live, o`svr, servers`ref
      ensures Counted() && (old(Exact()) ==> Exact())
      ensures live == old(live) - {o}
    {
      Unpoint(o);
      assert forall t :: t in servers ==> Pointing(live, t) == Pointing(live - {o}, t);
      live := live - {o};
    }

    /** free_objname_list */
    method FreeList(l: seq<ObjName>)
      requires Counted() && Listed(l)
      modifies this`live, l`svr, servers`ref
      ensures Counted() && (old(Exact()) ==> Exact())
      ensures live == old(live) - Elems(l)
    {
      for i := 0 to |l|
        invariant Counted() && (old(Exact()) ==> Exact())
        invariant live == old(live) - Elems(l[..i])
      {
        assert l[..i + 1] == l[..i] + [l[i]];
        FreeObjName(l[i]);
      }
      assert l[..|l|] == l;
    }

    /** temp_objname: drop what the temporary pointed at, then point it at `s`. */
    method SetTemp(svrName: Option<string>, s: Server?)
      requires Counted() && (s != null ==> s in servers)
      modifies temp`svrName, temp`svr, servers`ref
      ensures Counted() && (old(Exact()) ==> Exact())
      ensures temp.svr == s && temp.svrName == svrName
    {
      Unpoint(temp);
      label Dropped:
      temp.svrName := svrName;
      assert forall t :: t in servers ==> Pointing(live, t) == old@Dropped(Pointing(live, t));
      if s != null {
        Point(temp, s);
      }
    }

    /** A name points at a listed server of its own server name, or there is none. */
    ghost predicate Resolved(o: ObjName)
      reads this`servers, o
    {
      if o.svr != null then o.svr in servers && o.svrName == Some(o.svr.name)
      else o.svrName.Some? ==> forall s :: s in servers ==> s.name != o.svrName.value
    }

    /** A new name, pointing at its server if that is known. */
    method NewObjName(objName: string, svrName: Option<string>) returns (o: ObjName)
      requires Counted()
      modifies this`live, servers`ref
      ensures Counted() && (old(Exact()) ==> Exact())
      ensures fresh(o) && live == old(live) + {o} && o.objName == objName && o.svrName == svrName
      ensures o.svr != null ==> o.svr in servers && svrName == Some(o.svr.name)
      ensures o.svr == null && svrName.Some? ==> forall s :: s in servers ==> s.name != svrName.value
    {
      o := new ObjName(objName, svrName);
      assert forall t :: t in servers ==> Pointing(live, t) == Pointing(live + {o}, t);
      live := live + {o};
      var s := FindServer(svrName);
      if s != null {
        Point(o, s);
      }
    }

    /** commalist2objname, after the names have been split. */
    method NewObjNames(specs: seq<Spec>) returns (objs: seq<ObjName>)
      requires Counted()
      modifies this`live, servers`ref
      ensures Counted() && (old(Exact()) ==> Exact())
      ensures NoDup(objs) && fresh(objs) && live == old(live) + Elems(objs)
      ensures |objs| == |specs|
      ensures forall i :: 0 <= i < |specs| ==> objs[i].objName == specs[i].0 && objs[i].svrName == specs[i].1
      ensures forall i :: 0 <= i < |specs| ==> Resolved(objs[i])
    {
      hide Counted, Exact;
      objs := [];
      for i := 0 to |specs|
        invariant Counted() && (old(Exact()) ==> Exact())
        invariant NoDup(objs) && fresh(objs) && live == old(live) + Elems(objs)
        invariant |objs| == i
        invariant forall j :: 0 <= j < i ==> objs[j].objName == specs[j].0 && objs[j].svrName == specs[j].1
        invariant forall j :: 0 <= j < i ==> Resolved(objs[j])
      {
        var o := NewObjName(specs[i].0, specs[i].1);
        objs := objs + [o];
      }
    }

    // -- active objects --

    /** The server listed under the object's name, or one connected under its server name. */
    ghost predicate Found(o: ObjName)
      reads o
    {
      o.svr != null && (o.svr.name == o.objName || o.svrName == Some(o.svr.name))
    }

    /** The loop of set_active for servers: each name finds a server or gets a new one. */
    method FindOrConnect(objs: seq<ObjName>, max: int) returns (error: bool)
      requires Counted() && NoDup(objs) && forall o :: o in objs ==> o in live
      modifies this`servers, this`nservers, objs`svr, servers`ref
      ensures Counted() && (old(Exact()) ==> Exact()) && (old(nservers) <= max ==> nservers <= max)
      ensures forall s :: s in servers ==> s in old(servers) || fresh(s)
      ensures !error ==> forall o :: o in objs ==> if old(o.svr) != null then o.svr == old(o.svr) else Found(o)
    {
      hide Counted, Exact;
      error := false;
      var i := 0;
      while i < |objs| && !error
        invariant 0 <= i <= |objs|
        invariant Counted() && (old(Exact()) ==> Exact()) && (old(nservers) <= max ==> nservers <= max)
        invariant forall s :: s in servers ==> s in old(servers) || fresh(s)
        invariant forall j :: i <= j < |objs| ==> objs[j].svr == old(objs[j].svr)
        invariant !error ==> forall j :: 0 <= j < i ==> if old(objs[j].svr) != null then objs[j].svr == old(objs[j].svr) else Found(objs[j])
      {
        if objs[i].svr == null {
          var s := FindServer(Some(objs[i].objName));
          if s == null {
            assert objs[i..][0] == objs[i];
            error := ConnectServers(objs[i..], 1, max);
          } else {
            Point(objs[i], s);
          }
        }
        i := i + 1;
      }
    }

    /** set_active for servers: every name gets a server, else the whole list is freed. */
    method SetActiveServers(objs: seq<ObjName>, max: int) returns (error: bool)
      requires Valid() && Pending(objs)
      modifies this, live`svr, servers`ref
      ensures Valid() && (old(Exact()) ==> Exact()) && (old(nservers) <= max ==> nservers <= max)
      ensures activeServers == if error then old(activeServers) else objs
      ensures activeQueues == old(activeQueues) && activeNodes == old(activeNodes)
      ensures live == old(live) - Elems(if error then objs else old(activeServers))
      ensures forall s :: s in servers ==> s in old(servers) || fresh(s)
      ensures !error ==> forall o :: o in activeServers ==> o.svr != null
    {
      hide Counted, Exact;
      assert forall k :: 0 <= k < |objs| ==> objs[k] in objs;
      error := FindOrConnect(objs, max);
      assert forall k :: 0 <= k < |servers| ==> servers[k] in servers;
      if !error {
        assert forall k :: 0 <= k < |activeServers| ==> activeServers[k] in activeServers;
        FreeList(activeServers);
        activeServers := objs;
      } else {
        FreeList(objs);
      }
    }

    /** The loop of set_active for queues and nodes: connect where a server is named, then ask for the object. */
    method CheckObjects(objs: seq<ObjName>, max: int) returns (error: bool)
      requires Counted() && NoDup(objs) && forall o :: o in objs ==> o in live
      modifies this`servers, this`nservers, objs`svr, servers`ref
      ensures Counted() && (old(Exact()) ==> Exact()) && (old(nservers) <= max ==> nservers <= max)
      ensures forall s :: s in servers ==> s in old(servers) || fresh(s)
      ensures !error ==> forall o :: o in objs && o.svrName.Some? ==> o.svr != null
    {
      hide Counted, Exact;
      error := false;
      var i := 0;
      while i < |objs| && !error
        invariant 0 <= i <= |objs|
        invariant Counted() && (old(Exact()) ==> Exact()) && (old(nservers) <= max ==> nservers <= max)
        invariant forall s :: s in servers ==> s in old(servers) || fresh(s)
        invariant !error ==> forall j :: 0 <= j < i && objs[j].svrName.Some? ==> objs[j].svr != null
      {
        if objs[i].svrName.Some? && objs[i].svr == null {
          assert objs[i..][0] == objs[i];
          error := ConnectServers(objs[i..], 1, max);
        }
        var known := *;
        if !known {
          error := true;
        }
        i := i + 1;
      }
    }

    /** set_active for queues or nodes: on an error the new names stay allocated. */
    method SetActiveObjects(nodes: bool, objs: seq<ObjName>, max: int) returns (error: bool)
      requires Valid() && Pending(objs)
      modifies this, live`svr, servers`ref
      ensures Valid() && (old(Exact()) ==> Exact()) && (old(nservers) <= max ==> nservers <= max)
      ensures activeServers == old(activeServers)
      ensures activeQueues == if nodes || error then old(activeQueues) else objs
      ensures activeNodes == if !nodes || error then old(activeNodes) else objs
      ensures live == old(live) - Elems(if error then [] else if nodes then old(activeNodes) else old(activeQueues))
      ensures !error ==> forall o :: o in objs && o.svrName.Some? ==> o.svr != null
      ensures forall s :: s in servers ==> s in old(servers) || fresh(s)
    {
      hide Counted, Exact;
      assert forall k :: 0 <= k < |objs| ==> objs[k] in objs;
      error := CheckObjects(objs, max);
      assert forall k :: 0 <= k < |servers| ==> servers[k] in servers;
      assert forall k :: 0 <= k < |activeNodes| ==> activeNodes[k] in activeNodes;
      assert forall k :: 0 <= k < |activeQueues| ==> activeQueues[k] in activeQueues;
      if !error {
        if nodes {
          ReplaceNodes(objs);
        } else {
          ReplaceQueues(objs);
        }
      }
    }

    method ReplaceQueues(objs: seq<ObjName>)
      requires Valid() && Pending(objs)
      modifies this`activeQueues, this`live, activeQueues`svr, servers`ref
      ensures Valid() && (old(Exact()) ==> Exact())
      ensures activeQueues == objs && live == old(live) - Elems(old(activeQueues))
    {
      hide Counted, Exact;
      FreeList(activeQueues);
      activeQueues := objs;
    }

    method ReplaceNodes(objs: seq<ObjName>)
      requires Valid() && Pending(objs)
      modifies this`activeNodes, this`live, activeNodes`svr, servers`ref
      ensures Valid() && (old(Exact()) ==> Exact())
      ensures activeNodes == objs && live == old(live) - Elems(old(activeNodes))
    {
      hide Counted, Exact;
      FreeList(activeNodes);
      activeNodes := objs;
    }

    // -- commands --

    /**
      One request at one server, connected first if need be; `before` is the error so far.
      Connecting overwrites the error, and `failed` tells whether the connection or the request failed.
     */
    method AskServer(o: ObjName, aopt: bool, max: int, before: bool)
      returns (error: bool, abort: bool, ghost failed: bool, ghost at: Server?)
      requires Counted() && o in live
      modifies this`servers, this`nservers, o`svr, temp`svr, temp`svrName, servers`ref
      ensures Counted() && (old(Exact()) ==> Exact()) && (old(nservers) <= max ==> nservers <= max)
      ensures forall s :: s in servers ==> s in old(servers) || fresh(s)
      ensures (failed || (before && old(o.svr) != null)) ==> error
      ensures error ==> before || failed
      ensures abort ==> aopt && failed
      ensures old(o.svr) != null ==> at == old(o.svr) && (o != temp ==> o.svr == old(o.svr))
    {
      hide Counted, Exact;
      error, abort, failed := before, false, false;
      var skip := false;
      if o.svr == null {
        skip := ConnectServers([o], 1, max);
        error, failed := skip, skip;
      }
      at := o.svr;
      if !skip {
        var perr: bool := *;
        if perr {
          error, failed := true, true;
          if aopt {
            abort := true;
            return;
          }
        }
        assert forall k :: 0 <= k < |servers| ==> servers[k] in servers;
        TempIsLive();
        SetTemp(None, null);
      }
    }

    /** The inner loop of execute: a request to each server of the list, in turn `at`. */
    method AskServers(svrs: seq<ObjName>, aopt: bool, max: int, before: bool)
      returns (error: bool, abort: bool, ghost failed: bool, ghost at: seq<Server?>)
      requires Counted() && NoDup(svrs) && forall o :: o in svrs ==> o in live
      requires temp in svrs ==> svrs == [temp]
      modifies this`servers, this`nservers, svrs`svr, temp`svr, temp`svrName, servers`ref
      ensures Counted() && (old(Exact()) ==> Exact()) && (old(nservers) <= max ==> nservers <= max)
      ensures forall s :: s in servers ==> s in old(servers) || fresh(s)
      ensures (before || failed) && old(AllPoint(svrs)) ==> error
      ensures error ==> before || failed
      ensures abort ==> aopt && error
      ensures |at| <= |svrs| && forall j :: 0 <= j < |at| && old(svrs[j].svr) != null ==> at[j] == old(svrs[j].svr)
      ensures !abort ==> |at| == |svrs|
      ensures forall o :: o in svrs && o != temp && old(o.svr) != null ==> o.svr == old(o.svr)
    {
      hide Counted, Exact;
      error, abort, failed, at := before, false, false, [];
      var i := 0;
      while i < |svrs|
        invariant 0 <= i <= |svrs|
        invariant Counted() && (old(Exact()) ==> Exact()) && (old(nservers) <= max ==> nservers <= max)
        invariant forall s :: s in servers ==> s in old(servers) || fresh(s)
        invariant forall j :: i <= j < |svrs| ==> svrs[j].svr == old(svrs[j].svr)
        invariant forall o :: o in svrs && o != temp && old(o.svr) != null ==> o.svr == old(o.svr)
        invariant (before || failed) && old(AllPoint(svrs)) ==> error
        invariant error ==> before || failed
        invariant |at| == i && forall j :: 0 <= j < i && old(svrs[j].svr) != null ==> at[j] == old(svrs[j].svr)
      {
        assert svrs[i] in svrs;
        assert forall k :: 0 <= k < |servers| ==> servers[k] in servers;
        ghost var one, s;
        error, abort, one, s := AskServer(svrs[i], aopt, max, error);
        failed, at := failed || one, at + [s];
        if abort {
          return;
        }
        i := i + 1;
      }
    }

    /** Every name of the list has a server. */
    ghost predicate AllPoint(l: seq<ObjName>)
      reads l`svr
    {
      forall o :: o in l ==> o.svr != null
    }

    lemma TempIsLive()
      requires Counted()
      ensures temp in live
    {
    }

    /** The requests about these names. */
    ghost function RequestsAbout(objs: seq<ObjName>): seq<(string, string)>
      reads this, objs, activeServers
    {
      Requests(TargetsOf(objs), ServersOf(activeServers))
    }

    /** The outer loop of execute: every name, on its own server or on the active ones. */
    method AskAll(objs: seq<ObjName>, aopt: bool, max: int)
      returns (error: bool, abort: bool, ghost failed: bool, ghost asked: seq<(string, string)>)
      requires Valid() && temp !in objs && forall o :: o in objs ==> o in live
      modifies this`servers, this`nservers, live`svr, temp`svrName, servers`ref
      ensures Valid() && (old(Exact()) ==> Exact()) && (old(nservers) <= max ==> nservers <= max)
      ensures forall s :: s in servers ==> s in old(servers) || fresh(s)
      ensures abort ==> aopt && error
      ensures error ==> failed
      ensures failed && old(AllConnected(objs)) ==> error
      ensures old(AllConnected(objs)) ==>
                var all := old(RequestsAbout(objs));
                asked <= all && (abort || asked == all)
    {
      hide Counted, Exact, Requests, RequestsFor, TargetsOf, ServersOf;
      error, abort, failed, asked := false, false, false, [];
      ghost var ts, at := TargetsOf(objs), ServersOf(activeServers);
      NothingAsked(ts, at);
      TargetsAt(objs);
      TempIsLive();
      for i := 0 to |objs|
        invariant Counted() && (old(Exact()) ==> Exact()) && (old(nservers) <= max ==> nservers <= max)
        invariant Valid()
        invariant forall s :: s in servers ==> s in old(servers) || fresh(s)
        invariant forall o :: o in objs ==> o.svrName == old(o.svrName)
        invariant error ==> failed
        invariant old(AllConnected(objs)) ==> SamePointers(objs, activeServers) && (failed ==> error)
        invariant old(AllConnected(objs)) ==> asked == Requests(ts[..i], at)
      {
        assert objs[i] in objs;
        assert forall k :: 0 <= k < |servers| ==> servers[k] in servers;
        assert forall k :: 0 <= k < |activeServers| ==> activeServers[k] in activeServers;
        ghost var one, more;
        error, abort, one, more := AskOne(objs[i], aopt, max, error);
        failed, asked := failed || one, asked + more;
        if old(AllConnected(objs)) {
          AskedObject(ts, at, i);
        }
        if abort {
          return;
        }
      }
      assert ts[..|objs|] == ts;
    }

    lemma NothingAsked(ts: seq<Spec>, at: seq<string>)
      ensures Requests(ts[..0], at) == []
    {
    }

    lemma AskedObject(ts: seq<Spec>, at: seq<string>, i: nat)
      requires i < |ts|
      ensures Requests(ts[..i + 1], at) == Requests(ts[..i], at) + RequestsFor(ts[i], at)
      ensures Requests(ts[..i + 1], at) <= Requests(ts, at)
    {
      RequestsNext(ts, at, i);
      RequestsBegin(ts, at, i + 1);
    }

    /** The names with a server part and the active servers point where they did. */
    twostate predicate SamePointers(objs: seq<ObjName>, active: seq<ObjName>)
      reads objs, active
    {
      && (forall o :: o in objs && o.svrName.Some? ==> o.svr == old(o.svr))
      && (forall o :: o in active ==> o.svr == old(o.svr))
    }

    /** One name of the outer loop. */
    method AskOne(o: ObjName, aopt: bool, max: int, before: bool)
      returns (error: bool, abort: bool, ghost failed: bool, ghost asked: seq<(string, string)>)
      requires Valid() && o != temp && o in live
      modifies this`servers, this`nservers, activeServers`svr, temp`svr, temp`svrName, servers`ref
      ensures Valid() && (old(Exact()) ==> Exact()) && (old(nservers) <= max ==> nservers <= max)
      ensures forall s :: s in servers ==> s in old(servers) || fresh(s)
      ensures abort ==> aopt && error
      ensures error ==> before || failed
      ensures (before || failed) && old(AllConnected([o])) ==> error
      ensures forall a :: a in activeServers && old(a.svr) != null ==> a.svr == old(a.svr)
      ensures old(AllConnected([o])) ==>
                var all := old(RequestsFor(TargetOf(o), ServersOf(activeServers)));
                asked <= all && (abort || asked == all)
    {
      hide Counted, Exact, ServersOf, Each;
      assert o in [o];
      TempIsLive();
      var svrs := activeServers;
      ghost var names := ServersOf(activeServers);
      ServersAt(activeServers);
      if o.svrName.Some? {
        PointsAtListed(o);
        SetTemp(o.svrName, o.svr);
        svrs, names := [temp], [NameOf(o.svr)];
      }
      assert forall k :: 0 <= k < |servers| ==> servers[k] in servers;
      assert forall k :: 0 <= k < |svrs| ==> svrs[k] in svrs;
      ghost var at;
      error, abort, failed, at := AskServers(svrs, aopt, max, before);
      asked := RequestsAt(o.objName, at);
      if old(AllConnected([o])) {
        RequestsAre(o.objName, at, names);
      }
    }

    /** Every server a request for `objs` goes to is connected. */
    ghost predicate AllConnected(objs: seq<ObjName>)
      reads this, objs, activeServers
    {
      && (forall o :: o in objs && o.svrName.Some? ==> o.svr != null)
      && (forall o :: o in activeServers ==> o.svr != null)
    }

    lemma PointsAtListed(o: ObjName)
      requires Counted() && o in live
      ensures o.svr != null ==> o.svr in servers
    {
    }

    // -- the active objects --

    ghost function ActiveSpecs(): Active
      reads this, activeServers`svrName, activeQueues`svrName, activeNodes`svrName
    {
      Active(SpecsOf(activeServers), SpecsOf(activeQueues), SpecsOf(activeNodes))
    }

    function ActiveOf(kind: Kind): seq<ObjName>
      reads this
    {
      match kind
      case Servers => activeServers
      case Queues => activeQueues
      case Nodes => activeNodes
    }

    /** Everything a command about these names needs, or about the `active` ones, is connected before it begins. */
    ghost predicate Reachable(active: seq<ObjName>, specs: seq<Spec>)
      reads this, servers, activeServers, active
    {
      && AllPoint(activeServers)
      && if specs == [] then AllConnected(active)
         else forall i :: 0 <= i < |specs| && specs[i].1.Some? ==> exists s :: s in servers && s.name == specs[i].1.value
    }

    /** The requests a command about these names makes, or about the `active` ones. */
    ghost function Planned(active: seq<ObjName>, specs: seq<Spec>): seq<(string, string)>
      reads this, activeServers, active
    {
      if specs == [] then RequestsAbout(active) else Requests(specs, ServersOf(activeServers))
    }

    /** New names, where every server named is listed, are connected and stand for what was written. */
    lemma NamesConnected(objs: seq<ObjName>, specs: seq<Spec>)
      requires |objs| == |specs| && AllPoint(activeServers)
      requires forall i :: 0 <= i < |specs| ==> objs[i].objName == specs[i].0 && objs[i].svrName == specs[i].1 && Resolved(objs[i])
      requires forall i :: 0 <= i < |specs| && specs[i].1.Some? ==> exists s :: s in servers && s.name == specs[i].1.value
      ensures AllConnected(objs) && TargetsOf(objs) == specs
    {
      forall i | 0 <= i < |objs| ensures TargetOf(objs[i]) == specs[i] && (objs[i].svrName.Some? ==> objs[i].svr != null) {
        assert Resolved(objs[i]);
      }
      TargetsAre(objs, specs);
    }

    /** The temporary aside, no name changes its server part. */
    twostate lemma SameSpecs()
      requires old(Valid()) && activeServers == old(activeServers) && activeQueues == old(activeQueues) && activeNodes == old(activeNodes)
      requires forall o :: o in old(live) && o != temp ==> o.svrName == old(o.svrName)
      ensures ActiveSpecs() == old(ActiveSpecs())
    {
      hide Counted, NoDup, Apart;
      SameList(old(activeServers));
      SameList(old(activeQueues));
      SameList(old(activeNodes));
    }

    twostate lemma {:induction false} SameList(l: seq<ObjName>)
      requires forall o :: o in l ==> o.svrName == old(o.svrName)
      ensures SpecsOf(l) == old(SpecsOf(l))
      decreases |l|
    {
      if l != [] {
        assert l[|l| - 1] in l;
        SameList(l[..|l| - 1]);
      }
    }

    /** The requests of a command, and its names freed. */
    method Ask(kind: Kind, objs: seq<ObjName>, aopt: bool, max: int)
      returns (error: bool, ghost abort: bool, ghost failed: bool, ghost asked: seq<(string, string)>)
      requires Valid() && Pending(objs)
      modifies this`servers, this`nservers, this`live, live`svr, temp`svrName, servers`ref
      ensures Valid() && (old(Exact()) ==> Exact()) && (old(nservers) <= max ==> nservers <= max)
      ensures forall s :: s in servers ==> s in old(servers) || fresh(s)
      ensures live == old(live) - Elems(objs) && ActiveSpecs() == old(ActiveSpecs())
      ensures abort ==> aopt && error
      ensures error ==> failed
      ensures var names := old(if objs != [] then objs else ActiveOf(kind));
              old(AllConnected(names)) ==>
                var all := old(RequestsAbout(names));
                (failed ==> error) && asked <= all && (abort || asked == all)
    {
      hide Counted, Exact, Requests, TargetsOf, ServersOf;
      var names := if objs != [] then objs else ActiveOf(kind);
      var stop;
      error, stop, failed, asked := AskAll(names, aopt, max);
      abort := stop;
      assert forall k :: 0 <= k < |servers| ==> servers[k] in servers;
      assert forall k :: 0 <= k < |objs| ==> objs[k] in objs;
      FreeList(objs);
      SameSpecs();
    }

    /** commalist2objname: the names are in use but not yet active. */
    method NewNames(specs: seq<Spec>) returns (objs: seq<ObjName>)
      requires Valid()
      modifies this`live, servers`ref
      ensures Valid() && (old(Exact()) ==> Exact()) && Pending(objs)
      ensures fresh(objs) && live == old(live) + Elems(objs) && SpecsOf(objs) == specs && |objs| == |specs|
      ensures old(Reachable([], specs)) ==> AllConnected(objs) && TargetsOf(objs) == specs
    {
      hide Counted, Exact, SpecsOf, TargetsOf;
      objs := NewObjNames(specs);
      SpecsAre(objs, specs);
      if old(Reachable([], specs)) {
        NamesConnected(objs, specs);
      }
    }

    /**
      execute: every command keeps the counts; one that sets the active objects and succeeds makes
      the objects it names, if any, the active ones of their kind and leaves the other kinds alone;
      any other makes its requests, and frees every name it made, whether it succeeds, fails or is
      abandoned half way.
     */
    method Execute(setActive: bool, kind: Kind, specs: seq<Spec>, aopt: bool, max: int)
      returns (error: bool, ghost abort: bool, ghost failed: bool, ghost asked: seq<(string, string)>)
      requires Valid()
      modifies this, live`svr, temp`svrName, servers`ref
      ensures Valid() && (old(Exact()) ==> Exact()) && (old(nservers) <= max ==> nservers <= max)
      ensures forall s :: s in servers ==> s in old(servers) || fresh(s)
      ensures fresh(live - old(live))
      ensures ActiveSpecs() == Activated(old(ActiveSpecs()), Command(setActive, kind, specs), error)
      ensures !setActive ==> live == old(live) && activeServers == old(activeServers)
                             && activeQueues == old(activeQueues) && activeNodes == old(activeNodes)
      ensures !setActive ==> (error ==> failed) && (abort ==> aopt && error)
      ensures !setActive && old(Reachable(ActiveOf(kind), specs)) ==>
                var all := old(Planned(ActiveOf(kind), specs));
                (failed ==> error) && asked <= all && (abort || asked == all)
    {
      hide Counted, Exact, Requests, TargetsOf, ServersOf, SpecsOf, Activated, NoDup, Apart;
      var objs := NewNames(specs);
      assert forall k :: 0 <= k < |servers| ==> servers[k] in servers;
      abort, failed, asked := false, false, [];
      if setActive {
        error := Activate(kind, objs, specs, max);
      } else {
        NothingActivated(old(ActiveSpecs()), kind, specs);
        error, abort, failed, asked := Ask(kind, objs, aopt, max);
      }
    }

    lemma NothingActivated(a: Active, kind: Kind, specs: seq<Spec>)
      ensures forall error :: Activated(a, Command(false, kind, specs), error) == a
    {
    }

    /** set_active, as what becomes of the active objects. */
    method Activate(kind: Kind, objs: seq<ObjName>, ghost specs: seq<Spec>, max: int) returns (error: bool)
      requires Valid() && Pending(objs) && SpecsOf(objs) == specs
      modifies this, live`svr, servers`ref
      ensures Valid() && (old(Exact()) ==> Exact()) && (old(nservers) <= max ==> nservers <= max)
      ensures forall s :: s in servers ==> s in old(servers) || fresh(s)
      ensures live <= old(live)
      ensures ActiveSpecs() == Activated(old(ActiveSpecs()), Command(true, kind, specs), error)
    {
      hide Counted, Exact, SpecsOf, NoDup, Apart, Valid;
      error := SetActive(kind, objs, max);
      assert ActiveOf(Servers) == activeServers && ActiveOf(Queues) == activeQueues && ActiveOf(Nodes) == activeNodes;
    }

    /** set_active; with no names the active objects are only shown. */
    method SetActive(kind: Kind, objs: seq<ObjName>, max: int) returns (error: bool)
      requires Valid() && Pending(objs)
      modifies this, live`svr, servers`ref
      ensures Valid() && (old(Exact()) ==> Exact()) && (old(nservers) <= max ==> nservers <= max)
      ensures forall s :: s in servers ==> s in old(servers) || fresh(s)
      ensures live <= old(live)
      ensures forall k :: ActiveOf(k) == if k == kind && objs != [] && !error then objs else old(ActiveOf(k))
    {
      hide Counted, Exact;
      error := false;
      if objs != [] {
        match kind {
          case Servers => error := SetActiveServers(objs, max);
          case Queues => error := SetActiveObjects(false, objs, max);
          case Nodes => error := SetActiveObjects(true, objs, max);
        }
      }
    }

    /** The start of main: connect every server of the command line, then make them active. */
    method Start(specs: seq<Spec>, max: int) returns (error: bool)
      requires Valid() && Exact() && servers == []
      modifies this, live`svr, servers`ref
      ensures Valid() && Exact()
      ensures |specs| <= max ==> nservers <= max
      ensures !error ==> forall o :: o in activeServers ==> o.svr != null
      ensures if error then activeServers == old(activeServers) else SpecsOf(activeServers) == specs
      ensures activeQueues == old(activeQueues) && activeNodes == old(activeNodes)
    {
      CountOf();
      hide Counted, Exact, SpecsOf;
      var objs := NewNames(specs);
      var failed := ConnectServers(objs, -1, max);
      assert forall k :: 0 <= k < |servers| ==> servers[k] in servers;
      error := SetActiveServers(objs, max);
    }

    lemma CountOf()
      requires Counted()
      ensures nservers == |servers|
    {
    }

    /**
      Any run of commands keeps every count exact, opens no connection beyond the limit, and leaves
      the active objects that its successful commands set; with `-a` it ends at the first error.
     */
    method Run(cmds: seq<Command>, aopt: bool, max: int) returns (ghost errors: seq<bool>)
      requires Valid() && Exact()
      modifies this, live`svr, temp`svrName, servers`ref
      ensures Valid() && Exact() && (old(nservers) <= max ==> nservers <= max)
      ensures |errors| <= |cmds| && ActiveSpecs() == ActiveAfter(old(ActiveSpecs()), cmds, errors)
      ensures |errors| < |cmds| ==> aopt && errors != [] && errors[|errors| - 1]
      ensures aopt ==> forall i :: 0 <= i < |errors| - 1 ==> !errors[i]
    {
      hide Counted, Exact, SpecsOf;
      errors := [];
      for i := 0 to |cmds|
        invariant Valid() && Exact() && (old(nservers) <= max ==> nservers <= max)
        invariant fresh(live - old(live))
        invariant forall s :: s in servers ==> s in old(servers) || fresh(s)
        invariant |errors| == i && ActiveSpecs() == ActiveAfter(old(ActiveSpecs()), cmds, errors)
        invariant aopt ==> forall j :: 0 <= j < |errors| ==> !errors[j]
      {
        assert forall k :: 0 <= k < |servers| ==> servers[k] in servers;
        ghost var abort, failed, asked;
        var error;
        error, abort, failed, asked := Execute(cmds[i].setActive, cmds[i].kind, cmds[i].specs, aopt, max);
        RunStep(old(ActiveSpecs()), cmds, errors, error);
        errors := errors + [error];
        if error && aopt {
          return;
        }
      }
    }
  }

  lemma RunStep(a: Active, cmds: seq<Command>, errors: seq<bool>, error: bool)
    requires |errors| < |cmds|
    ensures ActiveAfter(a, cmds, errors + [error]) == Activated(ActiveAfter(a, cmds, errors), cmds[|errors|], error)
  {
    var n := |errors|;
    assert (errors + [error])[..n] == errors;
    AfterPrefix(a, cmds, n, errors);
  }

  lemma {:induction false} AfterPrefix(a: Active, cmds: seq<Command>, m: nat, errors: seq<bool>)
    requires |errors| <= m <= |cmds|
    ensures ActiveAfter(a, cmds[..m], errors) == ActiveAfter(a, cmds, errors)
    decreases |errors|
  {
    var n := |errors|;
    if n > 0 {
      assert cmds[..m][..n - 1] == cmds[..n - 1];
    }
  }
}
