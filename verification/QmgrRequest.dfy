/**
  Whole qmgr requests as they are written: a verb and an object type, each perhaps abbreviated, the
  names of the objects, and the attributes (src/cmds/qmgr.c:2300-2491).
 */
module QmgrRequest {
  import opened Common
  import opened QmgrAttributes
  import opened QmgrGrammar
  import opened QmgrParse
  import opened QmgrPrint

  function VerbWord(c: Command): string {
    match c
    case Create => "create"
    case Delete => "delete"
    case Set => "set"
    case Unset => "unset"
    case List => "list"
    case Show => "print"
    case Active => "active"
  }

  /** A word that is not empty stands for the command whose name it begins; the empty one for `create`. */
  lemma VerbExactly(w: string, c: Command)
    ensures w != "" ==> (CommandOf(w) == Some(c) <==> w <= VerbWord(c))
    ensures w == "" ==> CommandOf(w) == Some(Create)
  {
    if w != "" && w <= VerbWord(c) {
      assert w[0] == VerbWord(c)[0];
    }
  }

  lemma NounExactly(w: string, kind: Object)
    ensures w != "" ==> (ObjectOf(w) == Some(kind) <==> w <= KindWord(kind))
    ensures w == "" ==> ObjectOf(w) == Some(Server)
  {
    if w != "" && w <= KindWord(kind) {
      assert w[0] == KindWord(kind)[0];
    }
  }

  /** Other words stand for no command. */
  lemma NoVerb(w: string)
    ensures CommandOf(w) == None <==> forall c :: !(w <= VerbWord(c))
  {
    if c :| w <= VerbWord(c) {
      VerbExactly(w, c);
    }
    if CommandOf(w).Some? {
      VerbExactly(w, CommandOf(w).value);
    }
    assert w == "" ==> w <= VerbWord(Create);
  }

  lemma NoNoun(w: string)
    ensures ObjectOf(w) == None <==> forall k :: !(w <= KindWord(k))
  {
    if k :| w <= KindWord(k) {
      NounExactly(w, k);
    }
    if ObjectOf(w).Some? {
      NounExactly(w, ObjectOf(w).value);
    }
    assert w == "" ==> w <= KindWord(Server);
  }

  // -- written requests --

  datatype NameText = Unnamed | Named(gap: string, names: string)
  datatype AttrList = Absent(blank: string) | Listed(ps: seq<Piece>)
  datatype Phrase = Phrase(lead: string, cmd: Command, verb: string, gap: string, kind: Object, noun: string,
                           names: NameText, attrs: AttrList)

  function NamesText(n: NameText): string {
    match n
    case Unnamed => ""
    case Named(gap, names) => gap + names
  }

  function AttrsText(a: AttrList): string
    requires a.Listed? ==> a.ps != []
  {
    match a
    case Absent(blank) => blank
    case Listed(ps) => Render(ps)
  }

  /** Verb and noun of a phrase in front of `x`. */
  function Spelt(p: Phrase, x: string): string {
    p.lead + (p.verb + (p.gap + (p.noun + x)))
  }

  function Text(p: Phrase): string
    requires p.attrs.Listed? ==> p.attrs.ps != []
  {
    Spelt(p, NamesText(p.names) + AttrsText(p.attrs))
  }

  predicate Blanks(ws: string) {
    ws != "" && AllSpace(ws)
  }

  /** Where a number is due the value consists of digits. */
  predicate Numeric(a: Attr) {
    "resources_max" <= a.name || "resources_min" <= a.name ==>
      && a.resource.Some?
      && ("nodes" <= a.resource.value || "nodect" <= a.resource.value || "procct" <= a.resource.value ==>
            forall i :: 0 <= i < |a.value| ==> '0' <= a.value[i] <= '9')
  }

  lemma NumericExactly(a: Attr)
    ensures NumberCheck(a) == Some(true) <==> Numeric(a)
    ensures NumberCheck(a) == None <==> ("resources_max" <= a.name || "resources_min" <= a.name) && a.resource.None?
  {
    if Numeric(a) {
      forall c | c in a.value && a.resource.Some? &&
                 ("nodes" <= a.resource.value || "nodect" <= a.resource.value || "procct" <= a.resource.value) &&
                 ("resources_max" <= a.name || "resources_min" <= a.name)
        ensures Digit(c)
      {
        var i :| 0 <= i < |a.value| && a.value[i] == c;
      }
    }
    assert forall i :: 0 <= i < |a.value| ==> a.value[i] in a.value;
  }

  predicate GoodNames(tabs: Tables, kind: Object, n: NameText) {
    n.Named? ==>
      && Blanks(n.gap) && Plain(n.names) && |n.names| < MAX_REQ_WORD_LEN && !IsAttr(tabs, kind, n.names)
      && forall w :: w in Names(n.names) ==> WellNamed(kind, w)
  }

  /** The attribute whose value must be a number is the last one written. */
  predicate GoodAttrs(cmd: Command, kind: Object, a: AttrList) {
    match a
    case Absent(blank) => AllSpace(blank) && cmd != Set && cmd != Unset
    case Listed(ps) =>
      && GoodPieces(ps, cmd) && ps[0].lead != "" && cmd != Active
      && (cmd == Set && kind == Queue && Meaning(ps[|ps| - 1]).op == Some(Assign) ==> Numeric(Meaning(ps[|ps| - 1])))
  }

  /** Without names the first attribute must be known as one, and stand apart from the next. */
  predicate StandsApart(tabs: Tables, kind: Object, ps: seq<Piece>) {
    && ps != [] && ((kind, ps[0].name) in tabs.settable || (kind, ps[0].name) in tabs.readonly)
    && |Target(ps[0].name, ps[0].resource)| < MAX_REQ_WORD_LEN
    && (ps[0].end.Given? || ps[0].mid != "" || |ps| == 1)
  }

  predicate GoodPhrase(tabs: Tables, p: Phrase) {
    && AllSpace(p.lead) && Blanks(p.gap)
    && p.verb != "" && p.verb <= VerbWord(p.cmd) && p.noun != "" && p.noun <= KindWord(p.kind)
    && GoodNames(tabs, p.kind, p.names) && GoodAttrs(p.cmd, p.kind, p.attrs)
    && (p.names.Unnamed? && p.attrs.Listed? ==> StandsApart(tabs, p.kind, p.attrs.ps))
  }

  function Meant(p: Phrase): Reading {
    Request(p.cmd, p.kind, if p.names.Named? then p.names.names else "",
            if p.attrs.Listed? then Linked(p.attrs.ps, []) else [])
  }

  // -- the words --

  lemma {:induction false} BeginningPlain(w: string, v: string)
    requires w != "" && w <= v && Plain(v) && |v| < MAX_REQ_WORD_LEN
    ensures Plain(w) && |w| < MAX_REQ_WORD_LEN
  {
    assert forall i :: 0 <= i < |w| ==> w[i] == v[i] && v[i] in v;
  }

  lemma WordsPlain(c: Command, kind: Object)
    ensures Plain(VerbWord(c)) && |VerbWord(c)| < MAX_REQ_WORD_LEN
    ensures Plain(KindWord(kind)) && |KindWord(kind)| < MAX_REQ_WORD_LEN
  {
  }

  /** Verb and noun. */
  lemma TwoWords(lead: string, verb: string, gap: string, noun: string, x: string)
    requires AllSpace(lead) && Blanks(gap) && (x == "" || Space(x[0]))
    requires Plain(verb) && |verb| < MAX_REQ_WORD_LEN && Plain(noun) && |noun| < MAX_REQ_WORD_LEN
    ensures SplitWords(lead + (verb + (gap + (noun + x)))) == TakeWords(x, [verb, noun])
  {
    hide TakeWords, Plain;
    var x1 := gap + (noun + x);
    assert gap[0] in gap && x1[0] == gap[0];
    TakeOne(lead, verb, x1, []);
    TakeOne(gap, noun, x, [verb]);
    assert [] + [verb] == [verb] && [verb] + [noun] == [verb, noun];
  }

  /** The third word, and what is behind it. */
  lemma ThirdWord(gap: string, w: string, y: string, verb: string, noun: string)
    requires Blanks(gap) && Plain(w) && |w| < MAX_REQ_WORD_LEN && (y == "" || Space(y[0]))
    ensures TakeWords(gap + (w + y), [verb, noun]) == Words([verb, noun, w], y)
  {
    hide TakeWords, Plain;
    TakeOne(gap, w, y, [verb, noun]);
    assert [verb, noun] + [w] == [verb, noun, w];
    TakeDone(y, [verb, noun, w]);
  }

  lemma {:induction false} BlankTrims(ws: string)
    requires AllSpace(ws)
    ensures Trim(ws) == ""
  {
    TrimOver(ws, "");
    assert ws + "" == ws;
  }

  /** White space behind the second word: no third word, or an empty one. */
  lemma NoThirdWord(blank: string, verb: string, noun: string)
    requires AllSpace(blank)
    ensures var w := TakeWords(blank, [verb, noun]);
            w.Words? && w.rest == "" && Word(w, 0) == verb && Word(w, 1) == noun && Word(w, 2) == ""
  {
    BlankTrims(blank);
    if blank != "" {
      assert [verb, noun] + [""] == [verb, noun, ""];
      TakeDone("", [verb, noun, ""]);
    }
  }

  lemma ReadWordsAs(tabs: Tables, r: string, verb: string, noun: string, name: string, y: string)
    requires var w := SplitWords(r); w.Words? && w.rest == y && Word(w, 0) == verb && Word(w, 1) == noun && Word(w, 2) == name
    requires |y| < |r|
    ensures ReadPlain(tabs, r) == ReadCommand(tabs, verb, noun, name, r, |r| - |y|)
  {
    hide SplitWords, ReadCommand, Word;
  }

  lemma ReadVerbNoun(tabs: Tables, p: Phrase, name: string, r: string, len: nat)
    requires p.verb != "" && p.verb <= VerbWord(p.cmd) && p.noun != "" && p.noun <= KindWord(p.kind)
    ensures ReadCommand(tabs, p.verb, p.noun, name, r, len) == ReadNamed(tabs, p.cmd, p.kind, name, r, len)
  {
    VerbExactly(p.verb, p.cmd);
    NounExactly(p.noun, p.kind);
    hide ReadNamed, CommandOf, ObjectOf;
  }

  lemma SpeltIs(p: Phrase, x: string)
    ensures Spelt(p, x) == p.lead + (p.verb + (p.gap + (p.noun + x)))
    ensures p.verb != "" ==> |Spelt(p, x)| > |x|
  {
  }

  /** The words in front of the attributes, for each form of a request. */
  lemma PhraseWords(tabs: Tables, p: Phrase, name: string, x: string, y: string)
    requires AllSpace(p.lead) && Blanks(p.gap) && (x == "" || Space(x[0])) && |y| <= |x|
    requires p.verb != "" && p.verb <= VerbWord(p.cmd) && p.noun != "" && p.noun <= KindWord(p.kind)
    requires var w := TakeWords(x, [p.verb, p.noun]);
             w.Words? && w.rest == y && Word(w, 0) == p.verb && Word(w, 1) == p.noun && Word(w, 2) == name
    ensures var r := Spelt(p, x);
            |r| > |y| && ReadPlain(tabs, r) == ReadNamed(tabs, p.cmd, p.kind, name, r, |r| - |y|)
  {
    var r := Spelt(p, x);
    hide *;
    SpeltIs(p, x);
    WordsPlain(p.cmd, p.kind);
    BeginningPlain(p.verb, VerbWord(p.cmd));
    BeginningPlain(p.noun, KindWord(p.kind));
    TwoWords(p.lead, p.verb, p.gap, p.noun, x);
    ReadWordsAs(tabs, r, p.verb, p.noun, name, y);
    ReadVerbNoun(tabs, p, name, r, |r| - |y|);
  }

  /** What is behind the names. */
  lemma BehindNames(p: Phrase, a: string, b: string, y: string)
    ensures var r := Spelt(p, a + (b + y)); |r| >= |y| && r[|r| - |y|..] == y
  {
    var head := p.lead + (p.verb + (p.gap + (p.noun + (a + b))));
    assert Spelt(p, a + (b + y)) == head + y;
  }

  lemma BehindLead(p: Phrase, a: string, t: string, y: string)
    ensures var r := Spelt(p, a + (t + y)); |r| >= |y| + |t| && r[|r| - |y| - |t|..] == t + y
  {
    var head := p.lead + (p.verb + (p.gap + (p.noun + a)));
    assert Spelt(p, a + (t + y)) == head + (t + y);
  }

  lemma NamedText(p: Phrase)
    requires p.names.Named? && (p.attrs.Listed? ==> p.attrs.ps != [])
    ensures Text(p) == Spelt(p, p.names.gap + (p.names.names + AttrsText(p.attrs)))
  {
    hide Spelt, AttrsText;
    var a, b, y := p.names.gap, p.names.names, AttrsText(p.attrs);
    assert (a + b) + y == a + (b + y);
  }

  lemma FirstBlank(gap: string, x: string)
    requires Blanks(gap)
    ensures gap + x != "" && Space((gap + x)[0])
  {
    assert gap[0] in gap;
  }

  // -- the attributes --

  lemma {:induction false} LinkedHead(ps: seq<Piece>, acc: seq<Attr>)
    requires ps != []
    ensures Linked(ps, acc) != [] && Linked(ps, acc)[0] == Meaning(ps[|ps| - 1])
    decreases |ps|
  {
    hide Meaning;
    if |ps| > 1 {
      LinkedHead(ps[1..], [Meaning(ps[0])] + acc);
    }
  }

  lemma FinishAttrs(cmd: Command, kind: Object, names: string, r: string, len: nat, a: AttrList)
    requires GoodAttrs(cmd, kind, a) && len <= |r|
    requires Parse(r[len..], cmd) == Accepted(if a.Listed? then Linked(a.ps, []) else [])
    ensures Finish(cmd, kind, names, r, len) == Request(cmd, kind, names, if a.Listed? then Linked(a.ps, []) else [])
  {
    hide Parse, Linked, NumberCheck, Numeric, Meaning, GoodPiece;
    if a.Listed? {
      LinkedHead(a.ps, []);
      NumericExactly(Meaning(a.ps[|a.ps| - 1]));
      LastHasOp(a.ps, cmd);
    }
  }

  /** The last attribute of a `set` has an operator. */
  lemma {:induction false} LastHasOp(ps: seq<Piece>, cmd: Command)
    requires GoodPieces(ps, cmd)
    ensures cmd == Set ==> Meaning(ps[|ps| - 1]).op.Some?
    decreases |ps|
  {
    if |ps| > 1 {
      LastHasOp(ps[1..], cmd);
    }
  }

  lemma AttrsParse(a: AttrList, cmd: Command, kind: Object)
    requires GoodAttrs(cmd, kind, a)
    ensures Parse(AttrsText(a), cmd) == Accepted(if a.Listed? then Linked(a.ps, []) else [])
    ensures var y := AttrsText(a); y == "" || Space(y[0])
  {
    hide Parse, Linked, Numeric, GoodPiece, Meaning;
    AcceptsExactly(AttrsText(a), cmd);
    match a {
      case Absent(blank) =>
        BlankTrims(blank);
        assert blank != "" ==> blank[0] in blank;
      case Listed(ps) =>
        LeadFirst(ps, cmd);
    }
  }

  lemma LeadFirst(ps: seq<Piece>, cmd: Command)
    requires GoodPieces(ps, cmd)
    ensures ps[0].lead <= Render(ps) && AllSpace(ps[0].lead)
    ensures ps[0].lead != "" ==> Render(ps) != "" && Space(Render(ps)[0])
  {
    assert ps[0].lead != "" ==> ps[0].lead[0] in ps[0].lead;
  }

  lemma NamesAre(tabs: Tables, kind: Object, n: NameText)
    requires n.Named? && GoodNames(tabs, kind, n)
    ensures Blanks(n.gap) && Plain(n.names) && |n.names| < MAX_REQ_WORD_LEN && !IsAttr(tabs, kind, n.names)
    ensures CheckList(kind, n.names) == 0
  {
    CheckListExact(kind, n.names);
    hide CheckList, WellNamed, IsAttr, Plain, Blanks;
  }

  /** Verb, noun and names lead to the attributes. */
  lemma NamedFinish(tabs: Tables, p: Phrase, y: string)
    requires AllSpace(p.lead) && Blanks(p.gap) && (y == "" || Space(y[0]))
    requires p.verb != "" && p.verb <= VerbWord(p.cmd) && p.noun != "" && p.noun <= KindWord(p.kind)
    requires p.names.Named? && GoodNames(tabs, p.kind, p.names)
    ensures var r := Spelt(p, p.names.gap + (p.names.names + y));
            |r| > |y| && ReadPlain(tabs, r) == Finish(p.cmd, p.kind, p.names.names, r, |r| - |y|)
  {
    hide *;
    var gap, names := p.names.gap, p.names.names;
    NamesAre(tabs, p.kind, p.names);
    var x := gap + (names + y);
    FirstBlank(gap, names + y);
    ThirdWord(gap, names, y, p.verb, p.noun);
    ThreeAre(p.verb, p.noun, names, y);
    PhraseWords(tabs, p, names, x, y);
    NamedAs(tabs, p.cmd, p.kind, names, Spelt(p, x), |Spelt(p, x)| - |y|);
  }

  lemma PhraseParts(tabs: Tables, p: Phrase)
    requires GoodPhrase(tabs, p)
    ensures AllSpace(p.lead) && Blanks(p.gap)
    ensures p.verb != "" && p.verb <= VerbWord(p.cmd) && p.noun != "" && p.noun <= KindWord(p.kind)
    ensures GoodNames(tabs, p.kind, p.names) && GoodAttrs(p.cmd, p.kind, p.attrs)
    ensures p.attrs.Listed? ==> p.attrs.ps != [] && GoodPieces(p.attrs.ps, p.cmd) && p.attrs.ps[0].lead != ""
    ensures p.names.Unnamed? && p.attrs.Listed? ==> StandsApart(tabs, p.kind, p.attrs.ps)
  {
    hide Blanks, AllSpace, VerbWord, KindWord, GoodNames, GoodPiece, Numeric, StandsApart;
  }

  /** The request with its names. */
  lemma NamedReads(tabs: Tables, p: Phrase)
    requires GoodPhrase(tabs, p) && p.names.Named?
    ensures ReadPlain(tabs, Text(p)) == Meant(p)
  {
    hide *;
    PhraseParts(tabs, p);
    NamedText(p);
    AttrsParse(p.attrs, p.cmd, p.kind);
    NamedFinish(tabs, p, AttrsText(p.attrs));
    FinishNamed(p, p.names.gap, AttrsText(p.attrs));
  }

  lemma FinishNamed(p: Phrase, gap: string, y: string)
    requires p.names.Named? && GoodAttrs(p.cmd, p.kind, p.attrs)
    requires Parse(y, p.cmd) == Accepted(if p.attrs.Listed? then Linked(p.attrs.ps, []) else [])
    ensures var r := Spelt(p, gap + (p.names.names + y));
            |r| >= |y| && Finish(p.cmd, p.kind, p.names.names, r, |r| - |y|) == Meant(p)
  {
    MeantIs(p);
    hide *;
    BehindNames(p, gap, p.names.names, y);
    var r := Spelt(p, gap + (p.names.names + y));
    FinishAttrs(p.cmd, p.kind, p.names.names, r, |r| - |y|, p.attrs);
  }

  lemma MeantIs(p: Phrase)
    ensures Meant(p) == Request(p.cmd, p.kind, if p.names.Named? then p.names.names else "",
                                if p.attrs.Listed? then Linked(p.attrs.ps, []) else [])
  {
  }

  lemma ThreeAre(a: string, b: string, c: string, y: string)
    ensures var w := Words([a, b, c], y); Word(w, 0) == a && Word(w, 1) == b && Word(w, 2) == c
  {
  }

  lemma NamedAs(tabs: Tables, cmd: Command, kind: Object, name: string, r: string, len: nat)
    requires Plain(name) && !IsAttr(tabs, kind, name) && CheckList(kind, name) == 0
    ensures ReadNamed(tabs, cmd, kind, name, r, len) == Finish(cmd, kind, name, r, len)
  {
  }

  /** The bare request. */
  lemma BareReads(tabs: Tables, p: Phrase)
    requires GoodPhrase(tabs, p) && p.names.Unnamed? && p.attrs.Absent?
    ensures ReadPlain(tabs, Text(p)) == Meant(p)
  {
    var x, r := p.attrs.blank, Text(p);
    assert NamesText(p.names) + AttrsText(p.attrs) == x;
    assert x != "" ==> x[0] in x;
    NoThirdWord(x, p.verb, p.noun);
    PhraseWords(tabs, p, "", x, "");
    assert r[|r|..] == "";
    AcceptsExactly("", p.cmd);
    FinishAttrs(p.cmd, p.kind, "", r, |r|, p.attrs);
    hide *;
    MeantIs(p);
    NoName(tabs, p.cmd, p.kind, r);
  }

  lemma NoName(tabs: Tables, cmd: Command, kind: Object, r: string)
    ensures ReadNamed(tabs, cmd, kind, "", r, |r|) == Finish(cmd, kind, "", r, |r|)
  {
  }

  // -- attributes without names --

  /** What is written behind the name and resource of the first attribute. */
  function Behind(ps: seq<Piece>): string
    requires ps != []
  {
    ps[0].mid + (EndString(ps[0].end) + if |ps| == 1 then "" else "," + Render(ps[1..]))
  }

  lemma FirstTarget(ps: seq<Piece>)
    requires ps != []
    ensures Render(ps) == ps[0].lead + (Target(ps[0].name, ps[0].resource) + Behind(ps))
  {
    var p, y := ps[0], Behind(ps);
    assert Target(p.name, p.resource) + y == p.name + (ResourceString(p.resource) + y);
  }

  lemma {:induction false} NameIsPlain(w: string, v: string, next: char)
    requires NameWord(w, At(v + [next], 0)) && ResourceWord(v, next)
    ensures ResourceWord(w + v, next) && '.' !in w
  {
    if w == "" {
      assert w + v == v;
    } else {
      var u := w + v;
      assert u[1..] == w[1..] + v && (|w| == 1 ==> At(v + [next], 0) == if |u| > 1 then u[1] else next);
      NameIsPlain(w[1..], v, next);
      assert w == [w[0]] + w[1..];
    }
  }

  lemma TargetWord(p: Piece, last: bool, cmd: Command, next: char)
    requires GoodPiece(p, last, cmd) && next == At(p.mid + (EndString(p.end) + (if last then "" else ",")), 0)
    ensures ResourceWord(Target(p.name, p.resource), next) && '.' !in p.name
  {
    var after, v := p.mid + (EndString(p.end) + (if last then "" else ",")), ResourceString(p.resource);
    hide NameWord, ResourceWord, GoodEnd, EndString;
    assert ResourceWord(v, next) by { DottedWord(p.resource, next); }
    assert At(v + after, 0) == At(v + [next], 0);
    NameIsPlain(p.name, v, next);
  }

  lemma DottedWord(resource: Option<string>, next: char)
    requires resource.Some? ==> ResourceWord(resource.value, next)
    ensures ResourceWord(ResourceString(resource), next)
  {
    if resource.Some? {
      assert ("." + resource.value)[1..] == resource.value;
    }
  }

  lemma BehindStops(ps: seq<Piece>, cmd: Command)
    requires GoodPieces(ps, cmd) && (ps[0].end.Given? || ps[0].mid != "" || |ps| == 1)
    ensures ResourceLen(Behind(ps)) == 0
    ensures At(Behind(ps), 0) == At(ps[0].mid + (EndString(ps[0].end) + (if |ps| == 1 then "" else ",")), 0)
  {
    hide NameWord, ResourceWord, Render;
    var p, y := ps[0], Behind(ps);
    if p.mid != "" {
      assert y[0] == p.mid[0] && p.mid[0] in p.mid;
    } else if p.end.Given? {
      var e := EndString(p.end);
      assert y[0] == e[0] && OperPair(y[0], At(y, 1));
    }
  }

  /** The third word is the name and resource of the first attribute. */
  lemma TargetRun(ps: seq<Piece>, cmd: Command)
    requires GoodPieces(ps, cmd) && (ps[0].end.Given? || ps[0].mid != "" || |ps| == 1)
    ensures var t, y := Target(ps[0].name, ps[0].resource), Behind(ps);
            && ResourceLen(t + y) == |t| && t != "" && !Space(t[0]) && UpToDot(t) == ps[0].name
            && (y != "" ==> Space(y[0]) || OperPair(y[0], At(y, 1)))
  {
    var p, y := ps[0], Behind(ps);
    var t := Target(p.name, p.resource);
    assert t[0] == p.name[0];
    BehindStops(ps, cmd);
    TargetWord(p, |ps| == 1, cmd, At(y, 0));
    hide GoodPieces, Behind, EndString, Render;
    ResourceOver(t, y);
    DotEnds(p.name, ResourceString(p.resource));
  }

  lemma TakeStep(t: string, list: seq<string>)
    requires t != "" && |list| < MAX_REQ_WORDS && ResourceLen(Trim(t)) < MAX_REQ_WORD_LEN
    ensures var u := Trim(t); var n := ResourceLen(u); TakeWords(t, list) == TakeWords(u[n..], list + [u[..n]])
  {
    hide Trim, ResourceLen;
  }

  lemma ThirdRun(gap: string, t: string, y: string, verb: string, noun: string)
    requires AllSpace(gap) && t != "" && !Space(t[0]) && ResourceLen(t + y) == |t| < MAX_REQ_WORD_LEN
    ensures TakeWords(gap + (t + y), [verb, noun]) == Words([verb, noun, t], y)
  {
    hide TakeWords, ResourceLen;
    assert (t + y)[0] == t[0];
    TrimOver(gap, t + y);
    hide Trim;
    TakeStep(gap + (t + y), [verb, noun]);
    Cut(t, y);
    assert [verb, noun] + [t] == [verb, noun, t];
    TakeDone(y, [verb, noun, t]);
  }

  /** The list without the white space in front of it. */
  lemma Unled(ps: seq<Piece>, cmd: Command)
    requires GoodPieces(ps, cmd)
    ensures Parse(Target(ps[0].name, ps[0].resource) + Behind(ps), cmd) == Accepted(Linked(ps, []))
  {
    var p := ps[0].(lead := "");
    var qs := [p] + ps[1..];
    assert qs[1..] == ps[1..] && qs[0] == p && |qs| == |ps|;
    FirstTarget(qs);
    assert GoodPiece(p, |ps| == 1, cmd) && Meaning(p) == Meaning(ps[0]);
    var s := Target(ps[0].name, ps[0].resource) + Behind(ps);
    assert Render(qs) == "" + s == s;
    assert GoodPieces(qs, cmd) && Linked(qs, []) == Linked(ps, []) by {
      hide GoodPiece, Meaning;
    }
    hide GoodPieces, Linked, Render, Parse;
    AcceptsExactly(s, cmd);
  }

  lemma AttrAs(tabs: Tables, cmd: Command, kind: Object, name: string, r: string, len: nat)
    requires name != "" && IsAttr(tabs, kind, name) && |name| <= len
    ensures ReadNamed(tabs, cmd, kind, name, r, len) == Finish(cmd, kind, "", r, len - |name|)
  {
    hide IsAttr, Finish;
  }

  lemma ListedFinish(tabs: Tables, p: Phrase, lead: string, t: string, y: string)
    requires AllSpace(p.lead) && Blanks(p.gap) && Blanks(lead)
    requires p.verb != "" && p.verb <= VerbWord(p.cmd) && p.noun != "" && p.noun <= KindWord(p.kind)
    requires t != "" && !Space(t[0]) && ResourceLen(t + y) == |t| < MAX_REQ_WORD_LEN && IsAttr(tabs, p.kind, t)
    ensures var r := Spelt(p, lead + (t + y));
            |r| >= |y| + |t| && ReadPlain(tabs, r) == Finish(p.cmd, p.kind, "", r, |r| - |y| - |t|)
  {
    hide *;
    var x := lead + (t + y);
    FirstBlank(lead, t + y);
    SpeltIs(p, x);
    BlanksAre(lead);
    ThirdRun(lead, t, y, p.verb, p.noun);
    ThreeAre(p.verb, p.noun, t, y);
    PhraseWords(tabs, p, t, x, y);
    AttrAs(tabs, p.cmd, p.kind, t, Spelt(p, x), |Spelt(p, x)| - |y|);
  }

  lemma BlanksAre(ws: string)
    ensures Blanks(ws) <==> ws != "" && AllSpace(ws)
  {
  }

  lemma ListedText(p: Phrase)
    requires p.names.Unnamed? && p.attrs.Listed? && p.attrs.ps != []
    ensures var ps := p.attrs.ps; Text(p) == Spelt(p, ps[0].lead + (Target(ps[0].name, ps[0].resource) + Behind(ps)))
  {
    hide Spelt, Render, Target, Behind;
    FirstTarget(p.attrs.ps);
    assert "" + Render(p.attrs.ps) == Render(p.attrs.ps);
  }

  lemma FinishListed(p: Phrase, t: string, y: string)
    requires p.names.Unnamed? && p.attrs.Listed? && GoodAttrs(p.cmd, p.kind, p.attrs)
    requires Parse(t + y, p.cmd) == Accepted(Linked(p.attrs.ps, []))
    ensures var r := Spelt(p, p.attrs.ps[0].lead + (t + y));
            |r| >= |y| + |t| && Finish(p.cmd, p.kind, "", r, |r| - |y| - |t|) == Meant(p)
  {
    var lead := p.attrs.ps[0].lead;
    hide *;
    MeantIs(p);
    BehindLead(p, lead, t, y);
    var r := Spelt(p, lead + (t + y));
    FinishAttrs(p.cmd, p.kind, "", r, |r| - |y| - |t|, p.attrs);
  }

  lemma FirstIsAttr(tabs: Tables, p: Phrase)
    requires p.attrs.Listed? && p.attrs.ps != [] && GoodPieces(p.attrs.ps, p.cmd) && p.attrs.ps[0].lead != ""
    requires StandsApart(tabs, p.kind, p.attrs.ps)
    ensures var ps := p.attrs.ps;
            var t, y := Target(ps[0].name, ps[0].resource), Behind(ps);
            && Blanks(ps[0].lead) && t != "" && !Space(t[0]) && ResourceLen(t + y) == |t| < MAX_REQ_WORD_LEN
            && IsAttr(tabs, p.kind, t)
  {
    hide GoodPieces, Target, Behind, ResourceLen, Render, UpToDot;
    LeadFirst(p.attrs.ps, p.cmd);
    TargetRun(p.attrs.ps, p.cmd);
  }

  lemma ListedReads(tabs: Tables, p: Phrase)
    requires GoodPhrase(tabs, p) && p.names.Unnamed? && p.attrs.Listed?
    ensures ReadPlain(tabs, Text(p)) == Meant(p)
  {
    hide *;
    PhraseParts(tabs, p);
    ListedText(p);
    FirstIsAttr(tabs, p);
    var ps := p.attrs.ps;
    var t, y := Target(ps[0].name, ps[0].resource), Behind(ps);
    ListedFinish(tabs, p, ps[0].lead, t, y);
    Unled(ps, p.cmd);
    FinishListed(p, t, y);
  }

  lemma ReadIs(tabs: Tables, r: string)
    requires !Contains(r, "loglevel")
    ensures Read(tabs, r) == ReadPlain(tabs, r)
  {
    hide Rewritten, ReadPlain;
    NotRewritten(r);
  }

  /**
    A request for any of the seven commands, written with abbreviated words, white space at will,
    with or without names and attributes, reads as exactly that request.
   */
  lemma RequestReads(tabs: Tables, p: Phrase)
    requires GoodPhrase(tabs, p) && !Contains(Text(p), "loglevel")
    ensures Read(tabs, Text(p)) == Meant(p)
  {
    hide *;
    PhraseParts(tabs, p);
    ReadIs(tabs, Text(p));
    if p.names.Named? {
      NamedReads(tabs, p);
    } else if p.attrs.Listed? {
      ListedReads(tabs, p);
    } else {
      BareReads(tabs, p);
    }
  }

  // -- requests that are refused --

  lemma {:induction false} TakenStay(t: string, list: seq<string>)
    requires |list| <= MAX_REQ_WORDS
    ensures list <= TakeWords(t, list).list
    decreases MAX_REQ_WORDS - |list|
  {
    hide Trim, ResourceLen;
    if t != "" && |list| < MAX_REQ_WORDS {
      var u := Trim(t);
      var n := ResourceLen(u);
      if n < MAX_REQ_WORD_LEN {
        TakenStay(u[n..], list + [u[..n]]);
      }
    }
  }

  lemma FirstWord(lead: string, verb: string, x: string)
    requires AllSpace(lead) && Plain(verb) && |verb| < MAX_REQ_WORD_LEN && (x == "" || Space(x[0]))
    ensures var w := SplitWords(lead + (verb + x));
            w == TakeWords(x, [verb]) && [verb] <= w.list && (w.Words? ==> |w.rest| <= |x|)
  {
    hide TakeWords, Plain;
    TakeOne(lead, verb, x, []);
    assert [] + [verb] == [verb];
    TakenStay(x, [verb]);
  }

  /** Whatever follows it, the first word decides. */
  lemma FirstWordRead(tabs: Tables, lead: string, verb: string, x: string) returns (noun: string, name: string, len: nat)
    requires AllSpace(lead) && Plain(verb) && |verb| < MAX_REQ_WORD_LEN && (x == "" || Space(x[0]))
    ensures var r := lead + (verb + x); ReadPlain(tabs, r) == ReadCommand(tabs, verb, noun, name, r, len)
    ensures noun == Word(TakeWords(x, [verb]), 1)
  {
    var r := lead + (verb + x);
    PlainNonempty(verb);
    hide *;
    FirstWord(lead, verb, x);
    noun, name, len := ReadFirst(tabs, r, verb);
  }

  lemma ReadFirst(tabs: Tables, r: string, verb: string) returns (noun: string, name: string, len: nat)
    requires var w := SplitWords(r); [verb] <= w.list && (w.Words? ==> |w.rest| < |r|)
    ensures ReadPlain(tabs, r) == ReadCommand(tabs, verb, noun, name, r, len)
    ensures noun == Word(SplitWords(r), 1)
  {
    hide ReadCommand, SplitWords;
    var w := SplitWords(r);
    noun, name, len := Word(w, 1), Word(w, 2), if w.Words? then |r| - |w.rest| else 1;
    assert Word(w, 0) == verb;
  }

  /** No verb begins with the first word: help, the end, or an error. */
  lemma VerbRefused(tabs: Tables, lead: string, verb: string, x: string)
    requires AllSpace(lead) && Plain(verb) && |verb| < MAX_REQ_WORD_LEN && (x == "" || Space(x[0]))
    requires !Contains(lead + (verb + x), "loglevel") && forall c :: !(verb <= VerbWord(c))
    ensures Read(tabs, lead + (verb + x)) ==
            if verb <= "help" then Asked else if verb <= "quit" || verb <= "exit" then Left else Wrong(1)
  {
    var r := lead + (verb + x);
    ReadIs(tabs, r);
    var noun, name, len := FirstWordRead(tabs, lead, verb, x);
    NoVerb(verb);
    hide CommandOf, ReadPlain, Rewritten, Plain, Contains;
  }

  lemma NoSecondWord(blank: string, verb: string)
    requires AllSpace(blank)
    ensures Word(TakeWords(blank, [verb]), 1) == ""
  {
    BlankTrims(blank);
    if blank != "" {
      TakeStep(blank, [verb]);
      assert [verb] + [""] == [verb, ""];
      assert TakeWords("", [verb, ""]) == Words([verb, ""], "");
    }
  }

  /** A verb alone. */
  lemma NounMissing(tabs: Tables, lead: string, cmd: Command, verb: string, blank: string)
    requires AllSpace(lead) && verb != "" && verb <= VerbWord(cmd) && AllSpace(blank)
    requires !Contains(lead + (verb + blank), "loglevel")
    ensures Read(tabs, lead + (verb + blank)) == Wrong(2)
  {
    ReadIs(tabs, lead + (verb + blank));
    WordsPlain(cmd, Server);
    BeginningPlain(verb, VerbWord(cmd));
    assert blank != "" ==> blank[0] in blank;
    NoSecondWord(blank, verb);
    var noun, name, len := FirstWordRead(tabs, lead, verb, blank);
    VerbExactly(verb, cmd);
    hide CommandOf, ReadPlain, Rewritten, Plain, Contains;
  }

  /** A second word that begins no object type. */
  lemma NounRefused(tabs: Tables, lead: string, cmd: Command, verb: string, gap: string, noun: string, x: string)
    requires AllSpace(lead) && Blanks(gap) && verb != "" && verb <= VerbWord(cmd) && (x == "" || Space(x[0]))
    requires Plain(noun) && |noun| < MAX_REQ_WORD_LEN && forall k :: !(noun <= KindWord(k))
    requires !Contains(lead + (verb + (gap + (noun + x))), "loglevel")
    ensures Read(tabs, lead + (verb + (gap + (noun + x)))) == Wrong(2)
  {
    var r := lead + (verb + (gap + (noun + x)));
    ReadIs(tabs, r);
    WordsPlain(cmd, Server);
    BeginningPlain(verb, VerbWord(cmd));
    TwoWords(lead, verb, gap, noun, x);
    TakenStay(x, [verb, noun]);
    VerbExactly(verb, cmd);
    NoNoun(noun);
    PlainNonempty(noun);
    hide *;
    SecondWord(TakeWords(x, [verb, noun]), verb, noun);
    var second, name, len := ReadFirst(tabs, r, verb);
    BadNoun(tabs, verb, noun, name, r, len);
  }

  lemma SecondWord(w: Words, verb: string, noun: string)
    requires [verb, noun] <= w.list
    ensures Word(w, 1) == noun && [verb] <= w.list
  {
    assert w.list[0] == [verb, noun][0] && w.list[1] == [verb, noun][1];
  }

  lemma BadNoun(tabs: Tables, verb: string, noun: string, name: string, r: string, len: nat)
    requires CommandOf(verb).Some? && noun != "" && ObjectOf(noun) == None
    ensures ReadCommand(tabs, verb, noun, name, r, len) == Wrong(2)
  {
    hide CommandOf, ObjectOf;
  }

  lemma BadNames(tabs: Tables, cmd: Command, kind: Object, name: string, r: string, len: nat)
    requires name != "" && !IsAttr(tabs, kind, name) && CheckList(kind, name) != 0
    ensures ReadNamed(tabs, cmd, kind, name, r, len) == Wrong(3)
  {
    hide IsAttr, CheckList;
  }

  /** A third word that is neither an attribute nor a list of names. */
  lemma NamesRefused(tabs: Tables, p: Phrase, y: string)
    requires AllSpace(p.lead) && Blanks(p.gap) && (y == "" || Space(y[0]))
    requires p.verb != "" && p.verb <= VerbWord(p.cmd) && p.noun != "" && p.noun <= KindWord(p.kind)
    requires p.names.Named? && Blanks(p.names.gap) && Plain(p.names.names) && |p.names.names| < MAX_REQ_WORD_LEN
    requires !IsAttr(tabs, p.kind, p.names.names) && exists w :: w in Names(p.names.names) && !WellNamed(p.kind, w)
    requires !Contains(Spelt(p, p.names.gap + (p.names.names + y)), "loglevel")
    ensures Read(tabs, Spelt(p, p.names.gap + (p.names.names + y))) == Wrong(3)
  {
    var gap, names := p.names.gap, p.names.names;
    var x := gap + (names + y);
    var r := Spelt(p, x);
    ReadIs(tabs, r);
    PlainNonempty(names);
    CheckListExact(p.kind, names);
    hide *;
    FirstBlank(gap, names + y);
    ThirdWord(gap, names, y, p.verb, p.noun);
    ThreeAre(p.verb, p.noun, names, y);
    PhraseWords(tabs, p, names, x, y);
    BadNames(tabs, p.cmd, p.kind, names, r, |r| - |y|);
  }

  /** Attributes that are due, not allowed, or badly written, behind the names. */
  lemma AttrsRefused(tabs: Tables, p: Phrase, y: string)
    requires AllSpace(p.lead) && Blanks(p.gap) && (y == "" || Space(y[0]))
    requires p.verb != "" && p.verb <= VerbWord(p.cmd) && p.noun != "" && p.noun <= KindWord(p.kind)
    requires p.names.Named? && GoodNames(tabs, p.kind, p.names)
    requires if AllSpace(y) then p.cmd == Set || p.cmd == Unset
             else if p.cmd == Active then WellWritten(y, Active)
             else !WellWritten(y, p.cmd) && Parse(y, p.cmd) != OffEnd
    requires !Contains(Spelt(p, p.names.gap + (p.names.names + y)), "loglevel")
    ensures Read(tabs, Spelt(p, p.names.gap + (p.names.names + y))) == Wrong(4)
  {
    hide *;
    ReadIs(tabs, Spelt(p, p.names.gap + (p.names.names + y)));
    NamedFinish(tabs, p, y);
    FinishRefused(p, p.names.gap, p.names.names, y);
  }

  lemma FinishRefused(p: Phrase, gap: string, names: string, y: string)
    requires if AllSpace(y) then p.cmd == Set || p.cmd == Unset
             else if p.cmd == Active then WellWritten(y, Active)
             else !WellWritten(y, p.cmd) && Parse(y, p.cmd) != OffEnd
    ensures var r := Spelt(p, gap + (names + y)); |r| >= |y| && Finish(p.cmd, p.kind, names, r, |r| - |y|) == Wrong(4)
  {
    hide *;
    BehindNames(p, gap, names, y);
    var r := Spelt(p, gap + (names + y));
    ListRefused(p.cmd, p.kind, names, r, |r| - |y|, y);
  }

  lemma ListRefused(cmd: Command, kind: Object, names: string, r: string, len: nat, y: string)
    requires if AllSpace(y) then cmd == Set || cmd == Unset
             else if cmd == Active then WellWritten(y, Active)
             else !WellWritten(y, cmd) && Parse(y, cmd) != OffEnd
    requires len <= |r| && r[len..] == y
    ensures Finish(cmd, kind, names, r, len) == Wrong(4)
  {
    hide Parse, Linked, GoodPiece, Render, NumberCheck;
    AcceptsExactly(y, cmd);
    if AllSpace(y) {
      BlankTrims(y);
    } else {
      NotBlank(y);
      if cmd == Active {
        var ps :| GoodPieces(ps, Active) && Render(ps) == y;
        LinkedHead(ps, []);
      }
    }
  }

  lemma NotBlank(y: string)
    requires !AllSpace(y)
    ensures Trim(y) != ""
  {
    var ws := TrimSplit(y);
    assert ws + "" == ws;
  }

  // -- the old spelling of log_level --

  lemma {:induction false} FoundAt(r: string, a: string, w: string, b: string, p: nat)
    requires r == a + (w + b) && w != "" && w[0] !in a && p <= |a|
    ensures Find(r, w, p) == |a|
    decreases |a| - p
  {
    if p < |a| {
      assert r[p] == a[p] && a[p] in a && r[p..][0] == r[p];
      FoundAt(r, a, w, b, p + 1);
    } else {
      assert r[|a|..] == w + b && w <= w + b;
    }
  }

  lemma LoglevelFound(u: string, x: string, v: string)
    requires 'l' !in u && '=' !in u && '=' !in x && u != "" && u[|u| - 1] == ' '
    ensures var r, n := u + ("loglevel" + (x + ("=" + v))), |u| + 8 + |x|;
            && Find(r, "loglevel") == |u| && Find(r, "=") == n < |r| && r[n] == '='
            && (r[..|u| - 1] + " log_level ") + r[n..] == u + ("log_level " + ("=" + v))
  {
    var r, a := u + ("loglevel" + (x + ("=" + v))), u + ("loglevel" + x);
    FoundAt(r, u, "loglevel", x + ("=" + v), 0);
    assert r == a + ("=" + v) && '=' !in a;
    FoundAt(r, a, "=", v, 0);
    hide Find;
    assert r[|a|..] == "=" + v;
    assert r[..|u| - 1] + " " == u;
    assert r[..|u| - 1] + " log_level " == u + "log_level ";
  }

  lemma LoglevelContained(u: string, x: string)
    ensures Contains(u + ("loglevel" + x), u + "loglevel")
  {
    var r, w := u + ("loglevel" + x), u + "loglevel";
    assert r == w + x;
    assert w <= r[0..];
  }

  /** A set of `loglevel` on the server, in its four spellings, is read as one of `log_level`. */
  lemma LoglevelSet(u: string, x: string, v: string)
    requires u == "set server " || u == "set s " || u == "s server " || u == "s s "
    requires '=' !in x
    ensures Rewritten(u + ("loglevel" + (x + ("=" + v)))) == Some(u + ("log_level " + ("=" + v)))
  {
    hide *;
    Spellings(u);
    LoglevelFound(u, x, v);
    LoglevelContained(u, x + ("=" + v));
    var r := u + ("loglevel" + (x + ("=" + v)));
    NotPrinted(r, |u| + 8 + |x|);
    LoglevelRewritten(r, u + "loglevel");
  }

  lemma LoglevelRewritten(r: string, w: string)
    requires w == "s s loglevel" || w == "set server loglevel" || w == "set s loglevel" || w == "s server loglevel"
    requires r != "p s loglevel" && r != "print server loglevel" && r != "print s loglevel" && r != "p server loglevel"
    requires Contains(r, w) && 0 < Find(r, "loglevel") && 0 < Find(r, "=") < |r|
    ensures Rewritten(r) == Some((r[..Find(r, "loglevel") - 1] + " log_level ") + r[Find(r, "=")..])
  {
    hide Find, Contains;
  }

  lemma Spellings(u: string)
    requires u == "set server " || u == "set s " || u == "s server " || u == "s s "
    ensures 'l' !in u && '=' !in u && u[|u| - 1] == ' '
    ensures u == "set server " ==> u + "loglevel" == "set server loglevel"
    ensures u == "set s " ==> u + "loglevel" == "set s loglevel"
    ensures u == "s server " ==> u + "loglevel" == "s server loglevel"
    ensures u == "s s " ==> u + "loglevel" == "s s loglevel"
  {
  }

  lemma NotPrinted(r: string, i: nat)
    requires i < |r| && r[i] == '='
    ensures r != "p s loglevel" && r != "print server loglevel" && r != "print s loglevel" && r != "p server loglevel"
  {
  }
}
