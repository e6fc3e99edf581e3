/** From a list of names to objects and servers: commalist2objname (src/cmds/qmgr.c:1682-1783). */
module QmgrNames {
  import opened Common
  import opened QmgrParse

  const DEFAULT_SERVER := "default"
  const ACTIVE_SERVER := "active"

  /** An object's name and its server: the empty name is the default server, None the active ones. */
  type Spec = (string, Option<string>)

  /** The comparison stops at the length of `svr`, so every beginning of the two words counts. */
  function ServerOf(svr: string): Option<string> {
    if svr <= DEFAULT_SERVER then Some("") else if svr <= ACTIVE_SERVER then None else Some(svr)
  }

  /** A name without '@', with `rest` the list from it on. */
  function Unplaced(kind: Object, name: string, rest: string): Spec {
    var obj := if kind == Server && rest == DEFAULT_SERVER then "" else name;
    (obj, if kind == Server then Some(obj) else None)
  }

  /** One name read from `b`: its spec and where the next begins. */
  function ReadSpec(kind: Object, list: string, b: nat): (r: (Spec, nat))
    requires b <= |list|
    ensures b <= r.1 <= |list| && (b < |list| ==> b < r.1)
  {
    var f := NextOf(list, b, true);
    if f < |list| && list[f] == '@' then
      var g := NextOf(list, f + 1, false);
      ((list[b..f], ServerOf(list[f + 1..g])), if g < |list| then g + 1 else g)
    else
      (Unplaced(kind, list[b..f], list[b..]), if f < |list| then f + 1 else f)
  }

  /** The first position from `p` on that is not white space. */
  function Skip(list: string, p: nat): (b: nat)
    requires p <= |list|
    ensures p <= b <= |list|
  {
    |list| - |Trim(list[p..])|
  }

  /** All names from `p` on; white space before a name is skipped. */
  function Specs(kind: Object, list: string, p: nat): seq<Spec>
    requires p <= |list|
    decreases |list| - p
  {
    if p == |list| then [] else
    var (spec, next) := ReadSpec(kind, list, Skip(list, p));
    [spec] + Specs(kind, list, next)
  }

  lemma SpecsStep(kind: Object, list: string, p: nat)
    requires p <= |list|
    ensures p == |list| ==> Specs(kind, list, p) == []
    ensures p < |list| ==>
              var (spec, next) := ReadSpec(kind, list, Skip(list, p));
              p < next <= |list| && Specs(kind, list, p) == [spec] + Specs(kind, list, next)
  {
    hide ReadSpec, Skip;
  }

  /** The loop, name by name. */
  method CommaList(kind: Object, list: string) returns (specs: seq<Spec>)
    ensures specs == Specs(kind, list, 0)
  {
    hide Specs, ReadSpec, Trim;
    specs := [];
    var p := 0;
    while p < |list|
      invariant p <= |list| && specs + Specs(kind, list, p) == Specs(kind, list, 0)
      decreases |list| - p
    {
      var b := SkipSpace(list, p);
      SpecsStep(kind, list, p);
      var spec, next := NextName(kind, list, b);
      assert specs + ([spec] + Specs(kind, list, next)) == (specs + [spec]) + Specs(kind, list, next);
      specs := specs + [spec];
      p := next;
    }
    SpecsStep(kind, list, p);
  }

  method NextName(kind: Object, list: string, b: nat) returns (spec: Spec, next: nat)
    requires b <= |list|
    ensures (spec, next) == ReadSpec(kind, list, b)
  {
    hide NextOf;
    var f := ScanTo(list, b, true);
    if f < |list| && list[f] == '@' {
      var from := f + 1;
      var g := ScanTo(list, from, false);
      spec := (list[b..f], ServerOf(list[from..g]));
      f := g;
    } else {
      spec := Unplaced(kind, list[b..f], list[b..]);
    }
    next := if f < |list| then f + 1 else f;
  }

  // -- what the list means --

  /** A name's spec: the object before its first '@' and the server behind it; `last` in the list or not. */
  function SpecOf(kind: Object, name: string, last: bool): Spec {
    var f := NextOf(name, 0, true);
    if f < |name| && name[f] == '@' then (name[..f], ServerOf(name[f + 1..]))
    else Unplaced(kind, name, if last then name else name + ",")
  }

  /** Scanning inside one name is scanning in the list. */
  lemma {:induction false} ScanInName(list: string, b: nat, g: nat, i: nat)
    requires b <= i <= g <= |list| && NextOf(list, i, false) == g
    ensures NextOf(list[b..g], i - b, true) == NextOf(list, i, true) - b
    ensures NextOf(list, i, true) <= g
    decreases g - i
  {
    if i < g {
      assert list[b..g][i - b] == list[i];
      if list[i] != '@' {
        ScanInName(list, b, g, i + 1);
      }
    }
  }

  /** Reading one name gives its spec and stops behind the comma. */
  lemma ReadSpecOf(kind: Object, list: string, b: nat)
    requires b < |list|
    ensures var g := NextOf(list, b, false);
            ReadSpec(kind, list, b) == (SpecOf(kind, list[b..g], g == |list|), if g < |list| then g + 1 else g)
  {
    hide NextOf, ServerOf;
    var f, g := NextOf(list, b, true), NextOf(list, b, false);
    var n := list[b..g];
    ScanInName(list, b, g, b);
    NameEnds(list, b);
    if At(list, f) == '@' {
      assert f < g;
      assert n[f - b] == '@' && n[..f - b] == list[b..f] && n[f - b + 1..] == list[f + 1..g];
    } else {
      NotDefault(list, b, g);
      assert f == g && n == list[b..f];
      assert g == |list| ==> list[b..] == n;
    }
  }

  /** A comma keeps a text from being the word `default`. */
  lemma NotDefault(list: string, b: nat, g: nat)
    requires b <= g <= |list| && (g < |list| ==> list[g] == ',')
    ensures g < |list| ==> list[b..] != DEFAULT_SERVER && list[b..g] + "," != DEFAULT_SERVER
  {
    if g < |list| {
      assert list[b..][g - b] == ',' && (list[b..g] + ",")[g - b] == ',';
      assert forall i :: 0 <= i < |DEFAULT_SERVER| ==> DEFAULT_SERVER[i] != ',';
    }
  }

  /** An accepted name starts with no white space. */
  lemma StartsBare(kind: Object, list: string, b: nat)
    requires b < |list| && CheckList(kind, list, b) == 0
    ensures !Space(list[b])
  {
    hide NextOf;
  }

  lemma NoSkip(list: string, b: nat)
    requires b < |list| && !Space(list[b])
    ensures Skip(list, b) == b
  {
    assert list[b..][0] == list[b];
  }

  /**
    On every list that check_list accepts, one objname is made per name between commas, with the
    object and the server that name gives.
   */
  lemma {:induction false} OneSpecPerName(kind: Object, list: string, b: nat)
    requires b < |list| && CheckList(kind, list, b) == 0
    ensures var ns, specs := Names(list, b), Specs(kind, list, b);
            |specs| == |ns| && forall k :: 0 <= k < |ns| ==> specs[k] == SpecOf(kind, ns[k], k == |ns| - 1)
    decreases |list| - b
  {
    hide CheckList, NextOf, Specs, ReadSpec, SpecOf, Skip;
    var g := NextOf(list, b, false);
    StartsBare(kind, list, b);
    NoSkip(list, b);
    ReadSpecOf(kind, list, b);
    SpecsStep(kind, list, b);
    CheckStep(kind, list, b);
    if g == |list| {
      SpecsStep(kind, list, g);
      assert list[b..g] == list[b..];
    } else {
      OneSpecPerName(kind, list, g + 1);
      var ns, specs := Names(list, b), Specs(kind, list, b);
      assert ns[1..] == Names(list, g + 1) && specs[1..] == Specs(kind, list, g + 1);
      assert |ns| > 1;
    }
  }

  // -- the words for servers --

  /** `obj@svr`: the beginnings of "default", the empty one too, mean the default server, those of "active" the active ones. */
  lemma PlacedName(kind: Object, obj: string, svr: string, last: bool)
    requires '@' !in obj && ',' !in obj
    ensures var spec := SpecOf(kind, obj + ("@" + svr), last);
            && spec.0 == obj
            && (spec.1 == Some("") <==> svr <= "default")
            && (spec.1 == None <==> svr != "" && svr <= "active")
            && (spec.1 == None || spec.1 == Some("") || spec.1 == Some(svr))
  {
    var name := obj + ("@" + svr);
    FirstAt(obj, "@" + svr, 0);
    assert name[..|obj|] == obj && name[|obj| + 1..] == svr && name[|obj|] == '@';
    hide NextOf;
    if svr != "" && svr <= "active" {
      assert svr[0] == 'a' && !(svr <= "default");
    }
  }

  lemma {:induction false} FirstAt(obj: string, x: string, i: nat)
    requires '@' !in obj && ',' !in obj && i <= |obj| && (x == "" || x[0] == '@')
    ensures NextOf(obj + x, i, true) == |obj|
    decreases |obj| - i
  {
    if i < |obj| {
      assert (obj + x)[i] == obj[i] && obj[i] in obj;
      FirstAt(obj, x, i + 1);
    }
  }

  /** A name alone: a server stands for itself, and the last "default" for the default one; other objects for the active servers. */
  lemma BareName(kind: Object, name: string, last: bool)
    requires '@' !in name && ',' !in name
    ensures SpecOf(kind, name, last) ==
            if kind != Server then (name, None)
            else if last && name == "default" then ("", Some(""))
            else (name, Some(name))
  {
    assert name + "" == name;
    FirstAt(name, "", 0);
    hide NextOf;
    if !last {
      var t := name + ",";
      assert t[|name|] == ',' && "default"[6] == 't';
      assert |t| == 7 ==> t[6] != "default"[6];
    }
  }
}
