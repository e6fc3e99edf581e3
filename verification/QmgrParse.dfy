/**
  Reading one qmgr command: parse_request, is_attr, check_list and parse
  (src/cmds/qmgr.c:824-904, 2051-2163, 2241-2267, 2300-2491, 2994-3044).
 */
module QmgrParse {
  import opened Common
  import opened QmgrAttributes

  const MAX_REQ_WORD_LEN := 32768
  const MAX_REQ_WORDS := 3

  datatype Object = Server | Queue | Node

  /** The attribute names compiled into qmgr, by object. */
  datatype Tables = Tables(settable: set<(Object, string)>, readonly: set<(Object, string)>)

  /**
    Blank: nothing to do.  Asked: help was shown.  Left: quit or exit.  Wrong: a return code.
    Fault: a pointer past the terminator or NULL was followed, or the text search threw.
   */
  datatype Reading =
    | Request(cmd: Command, kind: Object, names: string, attrs: seq<Attr>)
    | Blank | Asked | Left | Wrong(code: nat) | Fault

  // -- strings --

  predicate Contains(s: string, w: string) {
    exists i :: 0 <= i <= |s| && w <= s[i..]
  }

  /** find(): the first position of `w` from `p` on, or the length of `s`. */
  function Find(s: string, w: string, p: nat := 0): (i: nat)
    requires p <= |s|
    ensures p <= i <= |s|
    decreases |s| - p
  {
    if p == |s| || w <= s[p..] then p else Find(s, w, p + 1)
  }

  function UpToDot(n: string): (r: string) {
    if n == "" || n[0] == '.' then "" else [n[0]] + UpToDot(n[1..])
  }

  predicate IsAttr(tabs: Tables, kind: Object, name: string) {
    (kind, UpToDot(name)) in tabs.settable || (kind, UpToDot(name)) in tabs.readonly
  }

  // -- the words in front of the attribute list --

  datatype Words = Words(list: seq<string>, rest: string) | WordTooLong(list: seq<string>)

  function TakeWords(t: string, list: seq<string>): (w: Words)
    requires |list| <= MAX_REQ_WORDS
    ensures |w.list| <= MAX_REQ_WORDS
    ensures w.Words? ==> |w.rest| <= |t|
    decreases MAX_REQ_WORDS - |list|
  {
    if t == "" || |list| == MAX_REQ_WORDS then Words(list, t) else
    var u := Trim(t);
    var n := ResourceLen(u);
    if n >= MAX_REQ_WORD_LEN then WordTooLong(list) else TakeWords(u[n..], list + [u[..n]])
  }

  /** parse_request */
  function SplitWords(r: string): (w: Words)
    ensures |w.list| <= MAX_REQ_WORDS
    ensures w.Words? ==> |w.rest| <= |r|
  {
    TakeWords(r, [])
  }

  /** The loop of parse_request; `c` is the number of characters parsed. */
  method RequestWords(r: string) returns (w: Words, c: nat)
    ensures w == SplitWords(r)
    ensures w.Words? ==> c <= |r| && w.rest == r[c..]
  {
    hide Trim, ResourceLen;
    var list: seq<string> := [];
    c := 0;
    assert r[c..] == r;
    while c < |r| && |list| < MAX_REQ_WORDS
      invariant c <= |r| && |list| <= MAX_REQ_WORDS
      invariant TakeWords(r[c..], list) == TakeWords(r, [])
      decreases MAX_REQ_WORDS - |list|
    {
      var b := SkipSpace(r, c);
      var f := ReadResource(r, b);
      assert r[b..][..f - b] == r[b..f] && r[b..][f - b..] == r[f..];
      if f - b >= MAX_REQ_WORD_LEN {
        w := WordTooLong(list);
        return;
      }
      list := list + [r[b..f]];
      c := f;
    }
    w := Words(list, r[c..]);
  }

  function Word(w: Words, i: nat): string {
    if i < |w.list| then w.list[i] else ""
  }

  // -- object names --

  function NextOf(list: string, b: nat, at: bool): (f: nat)
    requires b <= |list|
    ensures b <= f <= |list|
    ensures f < |list| ==> list[f] == ',' || (at && list[f] == '@')
    ensures forall i :: b <= i < f ==> list[i] != ',' && (at ==> list[i] != '@')
    decreases |list| - b
  {
    if b == |list| || list[b] == ',' || (at && list[b] == '@') then b else NextOf(list, b + 1, at)
  }

  predicate Letter(c: char) {
    'a' <= c <= 'z' || 'A' <= c <= 'Z'
  }

  predicate NameStart(kind: Object, c: char) {
    Letter(c) || c == '@' || c == ':' || (kind == Node && Digit(c))
  }

  /** check_list: 0, or where the list goes wrong. */
  function CheckList(kind: Object, list: string, b: nat := 0): nat
    requires b <= |list|
    decreases |list| - b
  {
    if b == |list| then 0
    else if !NameStart(kind, list[b]) then (if b == 0 then 1 else b)
    else
      var f := NextOf(list, b, true);
      if At(list, f) == '@' && (f + 1 == |list| || list[f + 1] == ',') then f + 1 else
      var g := if At(list, f) == '@' then NextOf(list, f + 1, false) else f;
      if g == |list| then 0
      else if g + 1 == |list| then g + 1
      else CheckList(kind, list, g + 1)
  }

  method ScanTo(list: string, b: nat, at: bool) returns (f: nat)
    requires b <= |list|
    ensures f == NextOf(list, b, at)
  {
    f := b;
    while f < |list| && list[f] != ',' && !(at && list[f] == '@')
      invariant b <= f <= |list| && NextOf(list, f, at) == NextOf(list, b, at)
    {
      f := f + 1;
    }
  }

  lemma CheckRound(kind: Object, list: string, b: nat)
    requires b < |list|
    ensures !NameStart(kind, list[b]) ==> CheckList(kind, list, b) == if b == 0 then 1 else b
    ensures NameStart(kind, list[b]) ==>
              var f := NextOf(list, b, true);
              if At(list, f) != '@' then CheckList(kind, list, b) == CheckAfter(kind, list, f)
              else if f + 1 == |list| || list[f + 1] == ',' then CheckList(kind, list, b) == f + 1
              else CheckList(kind, list, b) == CheckAfter(kind, list, NextOf(list, f + 1, false))
    ensures CheckList(kind, list, |list|) == 0
  {
    hide NextOf, NameStart;
  }

  function CheckAfter(kind: Object, list: string, g: nat): nat
    requires g <= |list|
  {
    if g == |list| then 0 else if g + 1 == |list| then g + 1 else CheckList(kind, list, g + 1)
  }

  /** One round of the loop: where the next name begins, or an error; the test for a second '@' never holds. */
  method CheckName(kind: Object, list: string, b: nat) returns (code: nat, f: nat)
    requires b < |list|
    ensures code != 0 ==> CheckList(kind, list, b) == code
    ensures code == 0 ==> b < f <= |list| && CheckList(kind, list, b) == CheckList(kind, list, f)
  {
    hide NextOf, NameStart, CheckList;
    CheckRound(kind, list, b);
    code, f := 0, b;
    if !NameStart(kind, list[b]) {
      return if b == 0 then 1 else b, f;
    }
    NoComma(kind);
    f := ScanTo(list, b, true);
    if At(list, f) == '@' {
      f := f + 1;
      if f == |list| || list[f] == ',' {
        return f, f;
      }
      f := ScanTo(list, f, false);
    }
    if At(list, f) == ',' {
      f := f + 1;
      if f == |list| {
        return f, f;
      }
    }
  }

  /** check_list */
  method CheckNames(kind: Object, list: string) returns (code: nat)
    ensures code == CheckList(kind, list)
  {
    code := 0;
    var b := 0;
    while b < |list|
      invariant b <= |list| && CheckList(kind, list, b) == CheckList(kind, list, 0)
      decreases |list| - b
    {
      code, b := CheckName(kind, list, b);
      if code != 0 {
        return;
      }
    }
  }

  /** The names of a list: what stands between its commas. */
  function Names(list: string, b: nat := 0): seq<string>
    requires b <= |list|
    decreases |list| - b
  {
    var g := NextOf(list, b, false);
    if g == |list| then [list[b..]] else [list[b..g]] + Names(list, g + 1)
  }

  /** A name or name@server: it starts well and does not end in its only '@'. */
  predicate WellNamed(kind: Object, n: string) {
    n != "" && NameStart(kind, n[0]) && (n[|n| - 1] == '@' ==> '@' in n[..|n| - 1])
  }

  /** check_list returns 0 exactly on the empty list and on lists of well-formed names. */
  lemma CheckListExact(kind: Object, list: string)
    ensures CheckList(kind, list) == 0 <==> list == "" || forall n :: n in Names(list) ==> WellNamed(kind, n)
  {
    if list != "" {
      CheckFrom(kind, list, 0);
    }
  }

  lemma {:induction false} CheckFrom(kind: Object, list: string, b: nat)
    requires b < |list|
    ensures CheckList(kind, list, b) == 0 <==> forall n :: n in Names(list, b) ==> WellNamed(kind, n)
    decreases |list| - b
  {
    hide CheckList, WellNamed, NextOf;
    var g := NextOf(list, b, false);
    CheckOne(kind, list, b);
    if g == |list| {
      assert list[b..g] == list[b..] && Names(list, b) == [list[b..]];
    } else {
      assert Names(list, b) == [list[b..g]] + Names(list, g + 1);
      if g + 1 < |list| {
        CheckFrom(kind, list, g + 1);
      } else {
        LastName(kind, list);
      }
    }
  }

  /** After a comma at the very end stands an empty name. */
  lemma LastName(kind: Object, list: string)
    ensures Names(list, |list|) == [""] && !WellNamed(kind, "")
  {
    assert list[|list|..] == "";
  }

  /** One round of the loop judges the name up to the next comma. */
  lemma CheckOne(kind: Object, list: string, b: nat)
    requires b < |list|
    ensures var g := NextOf(list, b, false);
            CheckList(kind, list, b) == 0 <==>
              WellNamed(kind, list[b..g]) && (g < |list| ==> g + 1 < |list| && CheckList(kind, list, g + 1) == 0)
  {
    hide NextOf, CheckList, NameStart;
    var g := NextOf(list, b, false);
    CheckStep(kind, list, b);
    OnlyAt(list, b);
    if b == g {
      assert list[b] == ',' && !NameStart(kind, ',') by { NoComma(kind); }
    } else {
      assert list[b..g][0] == list[b];
    }
  }

  lemma NoComma(kind: Object)
    ensures !NameStart(kind, ',')
  {
  }

  lemma CheckStep(kind: Object, list: string, b: nat)
    requires b < |list|
    ensures var f, g := NextOf(list, b, true), NextOf(list, b, false);
            CheckList(kind, list, b) == 0 <==>
              && NameStart(kind, list[b])
              && !(At(list, f) == '@' && (f + 1 == |list| || list[f + 1] == ','))
              && (g < |list| ==> g + 1 < |list| && CheckList(kind, list, g + 1) == 0)
  {
    NameEnds(list, b);
    hide NextOf, NameStart;
  }

  /** The first '@' of a name is its last character exactly when that character is the only '@'. */
  lemma OnlyAt(list: string, b: nat)
    requires b < |list|
    ensures var f, g := NextOf(list, b, true), NextOf(list, b, false);
            var n := list[b..g];
            (n != "" && n[|n| - 1] == '@' ==> '@' in n[..|n| - 1]) <==>
              !(At(list, f) == '@' && (f + 1 == |list| || list[f + 1] == ','))
  {
    NameEnds(list, b);
    hide NextOf;
    var f, g := NextOf(list, b, true), NextOf(list, b, false);
    var n := list[b..g];
    assert forall i :: 0 <= i < |n| ==> n[i] == list[b + i];
    if At(list, f) == '@' {
      assert n[f - b] == '@';
      assert f + 1 < g ==> n[..|n| - 1][f - b] == '@';
    }
  }

  lemma {:induction false} NameEnds(list: string, b: nat)
    requires b <= |list|
    ensures NextOf(list, b, true) <= NextOf(list, b, false)
    ensures var f := NextOf(list, b, true); At(list, f) != '@' ==> NextOf(list, b, false) == f
    ensures var f := NextOf(list, b, true); At(list, f) == '@' ==> f < |list| && NextOf(list, b, false) == NextOf(list, f + 1, false)
    decreases |list| - b
  {
    if b < |list| && list[b] != ',' && list[b] != '@' {
      NameEnds(list, b + 1);
    }
  }

  // -- the command --

  /** `loglevel` is an old spelling of `log_level`; None when the search for '=' fails. */
  function Rewritten(r: string): Option<string> {
    if r == "p s loglevel" || r == "print server loglevel" || r == "print s loglevel" || r == "p server loglevel"
    then Some("p s log_level")
    else if Contains(r, "s s loglevel") || Contains(r, "set server loglevel") ||
            Contains(r, "set s loglevel") || Contains(r, "s server loglevel")
    then
      var w, e := Find(r, "loglevel"), Find(r, "=");
      var head := if w == 0 then r else r[..w - 1];
      if e == |r| then None
      else Some(head + " log_level " + (if e == 0 then r[..|r| - 1] else r[e..]))
    else Some(r)
  }

  /** Abbreviations: the word is a prefix of the command's name; the first match counts. */
  function CommandOf(w: string): Option<Command> {
    if w <= "create" then Some(Create)
    else if w <= "delete" then Some(Delete)
    else if w <= "set" then Some(Set)
    else if w <= "unset" then Some(Unset)
    else if w <= "list" then Some(List)
    else if w <= "print" then Some(Show)
    else if w <= "active" then Some(Active)
    else None
  }

  function ObjectOf(w: string): Option<Object> {
    if w <= "server" then Some(Server) else if w <= "queue" then Some(Queue) else if w <= "node" then Some(Node) else None
  }

  /** is_valid_qsyntax_number; None when it compares a NULL resource. */
  function NumberCheck(a: Attr): Option<bool> {
    if !("resources_max" <= a.name || "resources_min" <= a.name) then Some(true)
    else if a.resource.None? then None
    else if "nodes" <= a.resource.value || "nodect" <= a.resource.value || "procct" <= a.resource.value
    then Some(forall c :: c in a.value ==> Digit(c))
    else Some(true)
  }

  /** parse() on a request that needs no rewriting. */
  function ReadPlain(tabs: Tables, r: string): Reading {
    var w := SplitWords(r);
    var len := if w.Words? then |r| - |w.rest| else 1;
    if len == 0 then Blank else ReadCommand(tabs, Word(w, 0), Word(w, 1), Word(w, 2), r, len)
  }

  function ReadCommand(tabs: Tables, verb: string, noun: string, name: string, r: string, len: nat): Reading {
    match CommandOf(verb)
    case None =>
      if verb <= "help" then Asked else if verb <= "quit" || verb <= "exit" then Left else Wrong(1)
    case Some(cmd) =>
      if noun == "" then Wrong(2) else
      match ObjectOf(noun)
      case None => Wrong(2)
      case Some(kind) => ReadNamed(tabs, cmd, kind, name, r, len)
  }

  /** The third word names objects, or is already the first attribute. */
  function ReadNamed(tabs: Tables, cmd: Command, kind: Object, name: string, r: string, len: nat): Reading {
    if name == "" then Finish(cmd, kind, "", r, len)
    else if IsAttr(tabs, kind, name) then (if |name| > len then Fault else Finish(cmd, kind, "", r, len - |name|))
    else if CheckList(kind, name) != 0 then Wrong(3)
    else Finish(cmd, kind, name, r, len)
  }

  /** The attribute list from position `len` on, and the checks on it. */
  function Finish(cmd: Command, kind: Object, names: string, r: string, len: nat): Reading {
    if len > |r| then Fault else
    match Parse(r[len..], cmd)
    case OffEnd => Fault
    case Rejected(_) => Wrong(4)
    case Accepted(list) =>
      if (cmd == Set || cmd == Unset) && list == [] then Wrong(4)
      else if cmd == Set && kind == Queue && (list[0].op == None || list[0].op == Some(Assign)) &&
              NumberCheck(list[0]) != Some(true)
      then (if NumberCheck(list[0]) == None then Fault else Wrong(4))
      else if cmd == Active && list != [] then Wrong(4)
      else Request(cmd, kind, names, list)
  }

  function Read(tabs: Tables, r: string): Reading {
    var text := Rewritten(r);
    if text.None? then Fault else ReadPlain(tabs, text.value)
  }
}
