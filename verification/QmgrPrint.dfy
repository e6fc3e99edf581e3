/**
  `print` output as input: the lines display() writes for an attribute
  (src/cmds/qmgr.c:1042-1099) read back as the commands that rebuild it.
 */
module QmgrPrint {
  import opened Common
  import opened QmgrAttributes
  import opened QmgrGrammar
  import opened QmgrParse
  import QmgrSplit

  /** `struct attrl` as the server reports it. */
  datatype Status = Status(name: string, resource: Option<string>, value: Option<string>)

  function Subject(kind: Object, name: string): string {
    match kind
    case Server => "server "
    case Queue => "queue " + (name + " ")
    case Node => "node " + (name + " ")
  }

  function Target(name: string, resource: Option<string>): string {
    name + ResourceString(resource)
  }

  /** One line of output: the first piece of a value is assigned, the others are added. */
  function Line(kind: Object, name: string, attr: string, resource: Option<string>, first: bool, piece: string): string {
    "set " + (Subject(kind, name) + (Target(attr, resource) + ((if first then " = " else " += ") + piece)))
  }

  /** The comma-separated pieces of a value. */
  function Pieces(v: string): (ps: seq<string>)
    ensures ps != []
  {
    if v == "" then [""] else
    var ps := Pieces(v[1..]);
    if v[0] == ',' then [""] + ps else [[v[0]] + ps[0]] + ps[1..]
  }

  function LinesOf(kind: Object, name: string, attr: string, resource: Option<string>, first: bool, ps: seq<string>): seq<string> {
    if ps == [] then []
    else [Line(kind, name, attr, resource, first, ps[0])] + LinesOf(kind, name, attr, resource, false, ps[1..])
  }

  /** The output for one attribute: nothing unless it is settable; no operator when there is no value. */
  function Lines(tabs: Tables, kind: Object, name: string, a: Status): seq<string> {
    if (kind, UpToDot(a.name)) !in tabs.settable then []
    else if a.value.None? then ["set " + (Subject(kind, name) + Target(a.name, a.resource))]
    else LinesOf(kind, name, a.name, a.resource, true, Pieces(a.value.value))
  }

  /** The number of characters before the next comma. */
  function CommaAt(v: string): (n: nat)
    ensures n <= |v| && (n < |v| ==> v[n] == ',')
  {
    if v == "" || v[0] == ',' then 0 else 1 + CommaAt(v[1..])
  }

  lemma {:induction false} PiecesAt(v: string)
    ensures var n := CommaAt(v);
            Pieces(v) == if n == |v| then [v] else [v[..n]] + Pieces(v[n + 1..])
  {
    if v != "" && v[0] != ',' {
      var n := CommaAt(v);
      PiecesAt(v[1..]);
      assert v[..n] == [v[0]] + v[1..][..n - 1];
      if n < |v| {
        assert v[1..][n..] == v[n + 1..];
        assert Pieces(v[1..]) == [v[1..][..n - 1]] + Pieces(v[n + 1..]);
        assert Pieces(v[1..])[1..] == Pieces(v[n + 1..]);
      } else {
        assert [v[0]] + v[1..] == v;
      }
    }
  }

  method NextComma(v: string, c: nat) returns (e: nat)
    requires c <= |v|
    ensures e == c + CommaAt(v[c..])
  {
    e := c;
    while e < |v| && v[e] != ','
      invariant c <= e <= |v| && e + CommaAt(v[e..]) == c + CommaAt(v[c..])
    {
      assert v[e..][0] == v[e] && v[e..][1..] == v[e + 1..];
      e := e + 1;
    }
    assert e < |v| ==> v[e..][0] == v[e];
  }

  /** The loop of display() over the pieces of a value. */
  method DisplayValue(kind: Object, name: string, attr: string, resource: Option<string>, v: string)
    returns (lines: seq<string>)
    ensures lines == LinesOf(kind, name, attr, resource, true, Pieces(v))
  {
    hide Line, LinesOf, Pieces, CommaAt;
    lines := [];
    var comma, first, e := true, true, 0;
    assert v[0..] == v;
    while comma
      invariant comma ==> e <= |v|
      invariant lines + (if comma then LinesOf(kind, name, attr, resource, first, Pieces(v[e..])) else []) ==
                LinesOf(kind, name, attr, resource, true, Pieces(v))
      decreases comma, |v| + 1 - e
    {
      var c := e;
      e := NextComma(v, c);
      StepLines(kind, name, attr, resource, first, v, c, e);
      comma := e < |v|;
      lines := lines + [Line(kind, name, attr, resource, first, v[c..e])];
      first := false;
      e := e + 1;
    }
  }

  /** display(), format mode, for one attribute. */
  method Display(tabs: Tables, kind: Object, name: string, a: Status) returns (lines: seq<string>)
    ensures lines == Lines(tabs, kind, name, a)
    ensures lines != [] <==> (kind, UpToDot(a.name)) in tabs.settable
  {
    if (kind, UpToDot(a.name)) !in tabs.settable {
      return [];
    }
    if a.value.None? {
      return ["set " + (Subject(kind, name) + Target(a.name, a.resource))];
    }
    lines := DisplayValue(kind, name, a.name, a.resource, a.value.value);
  }

  lemma StepLines(kind: Object, name: string, attr: string, resource: Option<string>, first: bool, v: string, c: nat, e: nat)
    requires c <= e <= |v| && e == c + CommaAt(v[c..])
    ensures LinesOf(kind, name, attr, resource, first, Pieces(v[c..])) ==
            [Line(kind, name, attr, resource, first, v[c..e])] +
            if e == |v| then [] else LinesOf(kind, name, attr, resource, false, Pieces(v[e + 1..]))
  {
    hide Line, Pieces, CommaAt;
    PiecesAt(v[c..]);
    assert v[c..][..e - c] == v[c..e];
    if e < |v| {
      assert v[c..][e - c + 1..] == v[e + 1..];
      assert Pieces(v[c..])[1..] == Pieces(v[e + 1..]);
    } else {
      assert v[c..] == v[c..e];
    }
  }

  // -- reading a line back --

  predicate Plain(w: string) {
    w != "" && forall c :: c in w ==> !Space(c) && c != '='
  }

  /** The tokens of a line besides the value: no white space, no '=', names that are what they seem. */
  predicate PlainTokens(tabs: Tables, kind: Object, name: string, attr: string, resource: Option<string>) {
    && Plain(attr) && '.' !in attr && ',' !in attr
    && (resource.Some? ==> Plain(resource.value))
    && (kind, attr) in tabs.settable
    && |Target(attr, resource)| < MAX_REQ_WORD_LEN
    && (kind != Server ==> Plain(name) && |name| < MAX_REQ_WORD_LEN && !IsAttr(tabs, kind, name) && CheckList(kind, name) == 0)
  }

  /** A piece of a value that reads back: not empty, no white space or comma, no quote in front, a number where one is due. */
  predicate Readable(kind: Object, attr: string, resource: Option<string>, first: bool, piece: string) {
    && piece != "" && RawWord(piece)
    && (kind == Queue && first ==> NumberCheck(Attr(attr, resource, Some(Assign), piece)) == Some(true))
  }

  function OpOf(first: bool): Operator {
    if first then Assign else Increase
  }

  lemma {:induction false} PlainNameWord(w: string, next: char)
    requires (forall c :: c in w ==> !Space(c) && c != '=') && '.' !in w && ',' !in w && next != '='
    ensures NameWord(w, next)
  {
    if w != "" {
      assert w[0] in w && (|w| > 1 ==> w[1] in w);
      PlainNameWord(w[1..], next);
    }
  }

  lemma {:induction false} PlainResourceWord(w: string, next: char)
    requires (forall c :: c in w ==> !Space(c) && c != '=') && next != '='
    ensures ResourceWord(w, next)
  {
    if w != "" {
      assert w[0] in w && (|w| > 1 ==> w[1] in w);
      PlainResourceWord(w[1..], next);
    }
  }

  /** A value is read as the piece printed exactly when the piece is a raw word. */
  lemma ValueIsPiece(name: string, res: Option<string>, op: Operator, piece: string)
    ensures ReadValue(name, res, op, " " + piece, Set) == Last(Attr(name, res, Some(op), piece)) <==> piece != "" && RawWord(piece)
    ensures piece == "" ==> ReadValue(name, res, op, " " + piece, Set) == Bad(0)
  {
    TrimOver(" ", piece);
    var t := Trim(piece);
    if t != "" && Quote(t[0]) {
      QuotedShorter(name, res, op, t);
      assert piece != "" && RawWord(piece) ==> t == piece;
    } else if t != "" {
      RawIsPiece(name, res, op, t, piece);
    }
    hide QuoteLen, RawLen, ReadEnd;
  }

  lemma QuotedShorter(name: string, res: Option<string>, op: Operator, t: string)
    requires t != "" && Quote(t[0])
    ensures var w := t[1..];
            var k := QuoteLen(w, t[0]);
            k < |w| ==>
              forall p: string :: |p| >= |t| ==> ReadEnd(Attr(name, res, Some(op), w[..k]), w[k + 1..]) != Last(Attr(name, res, Some(op), p))
  {
    hide QuoteLen, Trim;
  }

  lemma RawIsPiece(name: string, res: Option<string>, op: Operator, t: string, piece: string)
    requires t == Trim(piece) && t != "" && !Quote(t[0])
    ensures var k := RawLen(t);
            ReadEnd(Attr(name, res, Some(op), t[..k]), t[k..]) == Last(Attr(name, res, Some(op), piece)) <==> RawWord(piece)
  {
    var k := RawLen(t);
    RawIsWord(t);
    hide RawLen;
    if RawWord(piece) {
      assert piece[0] in piece && t == piece;
      assert k == |t|;
      assert t[..k] == piece && t[k..] == "";
    }
    assert |t| <= |piece| && (|t| == |piece| ==> t == piece) by { TrimWhole(piece); }
    assert k == |t| ==> t[..k] == t;
  }

  lemma TrimWhole(v: string)
    ensures |Trim(v)| == |v| ==> Trim(v) == v
  {
  }

  /** The attribute part up to the value. */
  lemma BodyItem(lead: string, attr: string, resource: Option<string>, first: bool, piece: string)
    requires Plain(attr) && '.' !in attr && ',' !in attr && (resource.Some? ==> Plain(resource.value))
    requires AllSpace(lead)
    ensures var s := lead + Body(attr, resource, first, piece);
            Trim(s) != "" && ReadItem(s, Set) == ReadValue(attr, resource, OpOf(first), " " + piece, Set)
  {
    hide ReadItem, ReadOp, ReadValue, Trim, NameLen, ResourceLen, NameWord, ResourceWord, Body;
    var o := OpText(OpOf(first), '=');
    var y := " " + (OpString(o) + (" " + piece));
    var t := attr + (ResourceString(resource) + y);
    BodyText(attr, resource, first, piece);
    NoSpace();
    OperatorRead(attr, resource, " ", o, " " + piece, Set);
    StopsAtSpace(y);
    if resource.None? {
      assert ResourceString(resource) + y == y;
      PlainNameWord(attr, ' ');
      PlainName(attr, y, Set);
    } else {
      assert ResourceString(resource) + y == "." + (resource.value + y);
      PlainNameWord(attr, '.');
      PlainResourceWord(resource.value, ' ');
      NameWithResource(attr, resource.value, y, Set);
    }
    assert t[0] == attr[0];
    LeadSkipped(lead, t, Set);
    TrimOver(lead, t);
  }

  lemma StopsAtSpace(y: string)
    requires y != "" && y[0] == ' '
    ensures At(y, 0) == ' ' && NameLen(y) == 0 && ResourceLen(y) == 0
  {
  }

  lemma BodyText(attr: string, resource: Option<string>, first: bool, piece: string)
    ensures Body(attr, resource, first, piece) ==
            attr + (ResourceString(resource) + (" " + (OpString(OpText(OpOf(first), '=')) + (" " + piece))))
  {
    var o := OpString(OpText(OpOf(first), '='));
    assert (if first then " = " else " += ") + piece == " " + (o + (" " + piece));
  }

  lemma {:induction false} AcceptedGrows(s: string, t: string, cmd: Command, acc: seq<Attr>)
    requires ReadItems(s, t, cmd, acc).Accepted?
    ensures |ReadItems(s, t, cmd, acc).list| > |acc|
    decreases |t|
  {
    hide ReadItem;
    var r := ReadItem(t, cmd);
    if r.More? {
      AcceptedGrows(s, r.rest, cmd, [r.attr] + acc);
    }
  }

  /** A list of one attribute. */
  lemma SingleItem(s: string, cmd: Command, a: Attr)
    requires Trim(s) != ""
    ensures Parse(s, cmd) == Accepted([a]) <==> ReadItem(s, cmd) == Last(a)
    ensures ReadItem(s, cmd).Bad? ==> Parse(s, cmd).Rejected?
  {
    hide ReadItem, Trim;
    var r := ReadItem(s, cmd);
    if r.More? && ReadItems(s, r.rest, cmd, [r.attr] + []).Accepted? {
      AcceptedGrows(s, r.rest, cmd, [r.attr] + []);
    }
    assert r.Last? ==> [r.attr] + [] == [r.attr] && ([r.attr] == [a] <==> r.attr == a);
  }

  /** The attribute part parses to the one attribute it shows exactly when its piece is a raw word. */
  lemma BodyReads(lead: string, attr: string, resource: Option<string>, first: bool, piece: string)
    requires Plain(attr) && '.' !in attr && ',' !in attr && (resource.Some? ==> Plain(resource.value))
    requires AllSpace(lead)
    ensures Parse(lead + Body(attr, resource, first, piece), Set) == Accepted([Attr(attr, resource, Some(OpOf(first)), piece)]) <==>
            piece != "" && RawWord(piece)
  {
    hide *;
    BodyItem(lead, attr, resource, first, piece);
    ValueIsPiece(attr, resource, OpOf(first), piece);
    SingleItem(lead + Body(attr, resource, first, piece), Set, Attr(attr, resource, Some(OpOf(first)), piece));
  }

  /** An empty piece is a syntax error. */
  lemma EmptyPieceFails(lead: string, attr: string, resource: Option<string>, first: bool)
    requires Plain(attr) && '.' !in attr && ',' !in attr && (resource.Some? ==> Plain(resource.value))
    requires AllSpace(lead)
    ensures Parse(lead + Body(attr, resource, first, ""), Set).Rejected?
  {
    hide *;
    BodyItem(lead, attr, resource, first, "");
    ValueIsPiece(attr, resource, OpOf(first), "");
    SingleItem(lead + Body(attr, resource, first, ""), Set, Attr(attr, resource, None, ""));
  }

  // -- the words of a line --

  lemma TakeOne(ws: string, w: string, x: string, list: seq<string>)
    requires AllSpace(ws) && Plain(w) && |w| < MAX_REQ_WORD_LEN && |list| < MAX_REQ_WORDS
    requires x == "" || Space(x[0])
    ensures TakeWords(ws + (w + x), list) == TakeWords(x, list + [w])
  {
    assert w[0] in w && (w + x)[0] == w[0];
    TrimOver(ws, w + x);
    PlainResourceWord(w, At(x, 0));
    ResourceOver(w, x);
    Cut(w, x);
  }

  lemma {:induction false} DotEnds(w: string, x: string)
    requires '.' !in w && (x == "" || x[0] == '.')
    ensures UpToDot(w + x) == w
  {
    if w == "" {
      assert w + x == x;
    } else {
      assert (w + x)[1..] == w[1..] + x;
      DotEnds(w[1..], x);
    }
  }

  lemma SetWord()
    ensures CommandOf("set") == Some(Set)
  {
    assert "set"[0] != "create"[0] && "set"[0] != "delete"[0];
  }

  lemma KindIs(kind: Object)
    ensures KindWord(kind) != "" && ObjectOf(KindWord(kind)) == Some(kind)
  {
    assert "queue"[0] != "server"[0];
    assert "node"[0] != "server"[0] && "node"[0] != "queue"[0];
  }

  /** The part of a line from the attribute's name on. */
  function Body(attr: string, resource: Option<string>, first: bool, piece: string): string {
    Target(attr, resource) + ((if first then " = " else " += ") + piece)
  }

  lemma ServerWords(x: string, target: string, y: string)
    requires Plain(target) && |target| < MAX_REQ_WORD_LEN && (y == "" || y[0] == ' ')
    requires x == "set " + ("server " + (target + y))
    ensures SplitWords(x) == Words(["set", "server", target], y)
  {
    var x2 := " " + (target + y);
    var x1 := " " + ("server" + x2);
    assert x == "" + ("set" + x1);
    TakeThree(x1, x2, y, "server", target);
  }

  lemma TakeThree(x1: string, x2: string, y: string, w1: string, w2: string)
    requires Plain(w1) && |w1| < MAX_REQ_WORD_LEN && Plain(w2) && |w2| < MAX_REQ_WORD_LEN && (y == "" || y[0] == ' ')
    requires x2 == " " + (w2 + y) && x1 == " " + (w1 + x2)
    ensures SplitWords("" + ("set" + x1)) == Words(["set", w1, w2], y)
  {
    hide TakeWords;
    TakeOne("", "set", x1, []);
    TakeOne(" ", w1, x2, ["set"]);
    TakeOne(" ", w2, y, ["set", w1]);
    assert [] + ["set"] == ["set"] && ["set"] + [w1] == ["set", w1] && ["set", w1] + [w2] == ["set", w1, w2];
    TakeDone(y, ["set", w1, w2]);
  }

  lemma TakeDone(y: string, list: seq<string>)
    requires |list| == MAX_REQ_WORDS
    ensures TakeWords(y, list) == Words(list, y)
  {
  }

  lemma ObjectWords(x: string, kind: string, name: string, y: string)
    requires Plain(kind) && |kind| < MAX_REQ_WORD_LEN && Plain(name) && |name| < MAX_REQ_WORD_LEN
    requires y == "" || y[0] == ' '
    requires x == "set " + ((kind + " ") + (name + y))
    ensures SplitWords(x) == Words(["set", kind, name], y)
  {
    var x2 := " " + (name + y);
    var x1 := " " + (kind + x2);
    assert x == "" + ("set" + x1);
    TakeThree(x1, x2, y, kind, name);
  }

  // -- the whole command --

  lemma TailContained(r: string, u: string, w: string)
    requires Contains(r, u + w)
    ensures Contains(r, w)
  {
    var i :| 0 <= i <= |r| && u + w <= r[i..];
    var j := i + |u|;
    assert r[i..][..|u + w|] == u + w;
    assert r[j..][..|w|] == r[i..][|u|..|u + w|] == (u + w)[|u|..] == w;
    assert w <= r[j..];
  }

  lemma Itself(r: string)
    ensures Contains(r, r)
  {
    assert r <= r[0..];
  }

  lemma NotRewritten(r: string)
    requires !Contains(r, "loglevel")
    ensures Rewritten(r) == Some(r)
  {
    hide Contains;
    Itself(r);
    if Contains(r, "p s loglevel") { assert "p s " + "loglevel" == "p s loglevel"; TailContained(r, "p s ", "loglevel"); }
    if Contains(r, "print server loglevel") { TailOf(r, "print server ", "print server loglevel"); }
    if Contains(r, "print s loglevel") { TailOf(r, "print s ", "print s loglevel"); }
    if Contains(r, "p server loglevel") { TailOf(r, "p server ", "p server loglevel"); }
    if Contains(r, "s s loglevel") { TailOf(r, "s s ", "s s loglevel"); }
    if Contains(r, "set server loglevel") { TailOf(r, "set server ", "set server loglevel"); }
    if Contains(r, "set s loglevel") { TailOf(r, "set s ", "set s loglevel"); }
    if Contains(r, "s server loglevel") { TailOf(r, "s server ", "s server loglevel"); }
  }

  lemma TailOf(r: string, u: string, w: string)
    requires w == u + "loglevel" && Contains(r, w)
    ensures Contains(r, "loglevel")
  {
    TailContained(r, u, "loglevel");
  }

  lemma TargetPlain(attr: string, resource: Option<string>)
    requires Plain(attr) && '.' !in attr && (resource.Some? ==> Plain(resource.value))
    ensures Plain(Target(attr, resource)) && UpToDot(Target(attr, resource)) == attr
  {
    DotEnds(attr, ResourceString(resource));
  }

  lemma FinishExactly(kind: Object, names: string, r: string, len: nat, a: Attr)
    requires len <= |r| && a.op.Some?
    ensures Finish(Set, kind, names, r, len) == Request(Set, kind, names, [a]) <==>
            Parse(r[len..], Set) == Accepted([a]) && (kind == Queue && a.op == Some(Assign) ==> NumberCheck(a) == Some(true))
    ensures Parse(r[len..], Set).Rejected? ==> Finish(Set, kind, names, r, len) == Wrong(4)
  {
    hide Parse, NumberCheck;
  }

  /** What reading a line should yield. */
  function Wanted(kind: Object, name: string, attr: string, resource: Option<string>, first: bool, piece: string): Reading {
    Request(Set, kind, if kind == Server then "" else name, [Attr(attr, resource, Some(OpOf(first)), piece)])
  }

  lemma FinishBody(kind: Object, names: string, r: string, len: nat, lead: string,
                   attr: string, resource: Option<string>, first: bool, piece: string)
    requires Plain(attr) && '.' !in attr && ',' !in attr && (resource.Some? ==> Plain(resource.value))
    requires AllSpace(lead) && len <= |r| && r[len..] == lead + Body(attr, resource, first, piece)
    ensures Finish(Set, kind, names, r, len) == Request(Set, kind, names, [Attr(attr, resource, Some(OpOf(first)), piece)]) <==>
            Readable(kind, attr, resource, first, piece)
    ensures piece == "" ==> Finish(Set, kind, names, r, len) == Wrong(4)
  {
    hide Parse, NumberCheck, RawWord, Plain, Body, Finish, AllSpace;
    BodyReads(lead, attr, resource, first, piece);
    FinishExactly(kind, names, r, len, Attr(attr, resource, Some(OpOf(first)), piece));
    if piece == "" {
      EmptyPieceFails(lead, attr, resource, first);
    }
  }

  lemma ServerText(attr: string, resource: Option<string>, first: bool, piece: string)
    ensures var r, t := Line(Server, "", attr, resource, first, piece), Target(attr, resource);
            var y := (if first then " = " else " += ") + piece;
            && (forall name :: Line(Server, name, attr, resource, first, piece) == r)
            && r == "set " + ("server " + (t + y)) && y[0] == ' ' && |r| == 11 + |t| + |y|
            && r[11..] == "" + Body(attr, resource, first, piece)
  {
    hide Target;
    var x := Target(attr, resource) + ((if first then " = " else " += ") + piece);
    assert "set " + ("server " + x) == "set server " + x;
  }

  lemma ReadWords(tabs: Tables, kind: Object, r: string, name: string, y: string)
    requires SplitWords(r) == Words(["set", KindWord(kind), name], y) && |r| > |y|
    ensures ReadPlain(tabs, r) == ReadNamed(tabs, Set, kind, name, r, |r| - |y|)
  {
    hide *;
    SetWord();
    KindIs(kind);
    ReadThree(tabs, r, "set", KindWord(kind), name, y);
    ReadVerb(tabs, "set", KindWord(kind), name, r, |r| - |y|, kind);
  }

  lemma ReadVerb(tabs: Tables, verb: string, noun: string, name: string, r: string, len: nat, kind: Object)
    requires CommandOf(verb) == Some(Set) && noun != "" && ObjectOf(noun) == Some(kind)
    ensures ReadCommand(tabs, verb, noun, name, r, len) == ReadNamed(tabs, Set, kind, name, r, len)
  {
    hide ReadNamed, CommandOf, ObjectOf;
  }

  lemma ReadThree(tabs: Tables, r: string, a: string, b: string, c: string, y: string)
    requires SplitWords(r) == Words([a, b, c], y) && |r| > |y|
    ensures ReadPlain(tabs, r) == ReadCommand(tabs, a, b, c, r, |r| - |y|)
  {
    hide SplitWords, ReadCommand;
    var w := SplitWords(r);
    assert w.list[0] == a && w.list[1] == b && w.list[2] == c;
  }

  lemma ServerLine(tabs: Tables, name: string, attr: string, resource: Option<string>, first: bool, piece: string)
    requires PlainTokens(tabs, Server, name, attr, resource)
    ensures var got := ReadPlain(tabs, Line(Server, name, attr, resource, first, piece));
            && (got == Wanted(Server, name, attr, resource, first, piece) <==> Readable(Server, attr, resource, first, piece))
            && (piece == "" ==> got == Wrong(4))
  {
    hide Plain, Line, Readable, Finish, SplitWords, UpToDot, ReadPlain, Body, Target, AllSpace;
    var r := Line(Server, name, attr, resource, first, piece);
    var target, y := Target(attr, resource), (if first then " = " else " += ") + piece;
    ServerText(attr, resource, first, piece);
    TargetPlain(attr, resource);
    ServerWords(r, target, y);
    PlainNonempty(target);
    ReadWords(tabs, Server, r, target, y);
    NoSpace();
    FinishBody(Server, "", r, 11, "", attr, resource, first, piece);
  }

  lemma PlainNonempty(w: string)
    requires Plain(w)
    ensures w != ""
  {
  }

  lemma NoSpace()
    ensures AllSpace("") && AllSpace(" ")
  {
  }

  function KindWord(kind: Object): string {
    match kind
    case Server => "server"
    case Queue => "queue"
    case Node => "node"
  }

  lemma ObjectText(kind: Object, name: string, attr: string, resource: Option<string>, first: bool, piece: string)
    requires kind != Server
    ensures var r, w := Line(kind, name, attr, resource, first, piece), KindWord(kind);
            var y := " " + Body(attr, resource, first, piece);
            && r == "set " + ((w + " ") + (name + y)) && Plain(w) && |w| < 6
            && |r| == 5 + |w| + |name| + |y| && r[5 + |w| + |name|..] == y
  {
    hide Target;
    var b := Body(attr, resource, first, piece);
    assert Subject(kind, name) == (KindWord(kind) + " ") + (name + " ");
    assert Plain(KindWord(kind));
    assert Line(kind, name, attr, resource, first, piece) == "set " + (Subject(kind, name) + b);
    hide Body, Line, Subject, KindWord;
    Regroup(KindWord(kind), name, b);
  }

  lemma Regroup(w: string, name: string, b: string)
    ensures var r, y := "set " + (((w + " ") + (name + " ")) + b), " " + b;
            && r == "set " + ((w + " ") + (name + y))
            && |r| == 5 + |w| + |name| + |y| && r[5 + |w| + |name|..] == y
  {
    var r, y := "set " + (((w + " ") + (name + " ")) + b), " " + b;
    assert ((w + " ") + (name + " ")) + b == (w + " ") + (name + y);
    assert r == ("set " + (w + " ") + name) + y;
  }

  lemma ObjectLine(tabs: Tables, kind: Object, name: string, attr: string, resource: Option<string>, first: bool, piece: string)
    requires kind != Server && PlainTokens(tabs, kind, name, attr, resource)
    ensures var got := ReadPlain(tabs, Line(kind, name, attr, resource, first, piece));
            && (got == Wanted(kind, name, attr, resource, first, piece) <==> Readable(kind, attr, resource, first, piece))
            && (piece == "" ==> got == Wrong(4))
  {
    hide Plain, Line, Readable, Finish, SplitWords, IsAttr, CheckList, ReadPlain, Body, Target, AllSpace, KindWord;
    var r, w := Line(kind, name, attr, resource, first, piece), KindWord(kind);
    var y := " " + Body(attr, resource, first, piece);
    ObjectText(kind, name, attr, resource, first, piece);
    ObjectWords(r, w, name, y);
    PlainNonempty(name);
    ReadWords(tabs, kind, r, name, y);
    NoSpace();
    FinishBody(kind, name, r, |r| - |y|, " ", attr, resource, first, piece);
  }

  /**
    A printed line of plain tokens reads back as the command it stands for exactly when its piece of
    the value is readable; an empty piece is a syntax error.
   */
  lemma LineReads(tabs: Tables, kind: Object, name: string, attr: string, resource: Option<string>, first: bool, piece: string)
    requires PlainTokens(tabs, kind, name, attr, resource)
    requires !Contains(Line(kind, name, attr, resource, first, piece), "loglevel")
    ensures var got := Read(tabs, Line(kind, name, attr, resource, first, piece));
            && (got == Wanted(kind, name, attr, resource, first, piece) <==> Readable(kind, attr, resource, first, piece))
            && (piece == "" ==> got == Wrong(4))
  {
    NotRewritten(Line(kind, name, attr, resource, first, piece));
    if kind == Server {
      ServerLine(tabs, name, attr, resource, first, piece);
    } else {
      ObjectLine(tabs, kind, name, attr, resource, first, piece);
    }
    hide *;
  }

  // -- the way through get_request --

  /** get_request passes a line in one piece exactly when it has no separator outside quotes. */
  lemma OnePiece(line: string)
    ensures QmgrSplit.Returned(line) == [line] <==> QmgrSplit.CutFrom(line, 0) == |line|
  {
    var k := QmgrSplit.CutFrom(line, 0);
    assert QmgrSplit.Returned(line)[0] == line[..k];
    assert |line[..k]| == k && line[..|line|] == line;
  }

  /** The whole way of a printed line: one command, read as what it stands for. */
  lemma LinePasses(tabs: Tables, kind: Object, name: string, attr: string, resource: Option<string>, first: bool, piece: string)
    requires PlainTokens(tabs, kind, name, attr, resource)
    requires !Contains(Line(kind, name, attr, resource, first, piece), "loglevel")
    ensures var line := Line(kind, name, attr, resource, first, piece);
            QmgrSplit.Returned(line) == [line] && Read(tabs, line) == Wanted(kind, name, attr, resource, first, piece) <==>
              Readable(kind, attr, resource, first, piece) && QmgrSplit.CutFrom(line, 0) == |line|
  {
    OnePiece(Line(kind, name, attr, resource, first, piece));
    LineReads(tabs, kind, name, attr, resource, first, piece);
    hide *;
  }

  lemma {:induction false} NoQuotes(s: string, i: nat)
    requires i <= |s| && forall c :: c in s ==> !Quote(c)
    ensures QmgrSplit.Quoting(s, i) == '\0'
  {
    if i > 0 {
      NoQuotes(s, i - 1);
    }
  }

  /** Without quotes, any separator in the piece cuts the line. */
  lemma SeparatorCuts(kind: Object, name: string, attr: string, resource: Option<string>, first: bool, piece: string)
    requires ';' in piece || '#' in piece
    requires var line := Line(kind, name, attr, resource, first, piece); forall c :: c in line ==> !Quote(c)
    ensures var line := Line(kind, name, attr, resource, first, piece); QmgrSplit.CutFrom(line, 0) < |line|
  {
    var line := Line(kind, name, attr, resource, first, piece);
    var head := "set " + (Subject(kind, name) + (Target(attr, resource) + (if first then " = " else " += ")));
    assert line == head + piece;
    hide Line, Subject, Target;
    var j :| 0 <= j < |piece| && (piece[j] == ';' || piece[j] == '#');
    assert line[|head| + j] == piece[j];
    NoQuotes(line, |head| + j);
    hide QmgrSplit.Quoting;
    assert QmgrSplit.EndsAt(line, |head| + j);
  }

  /** The piece `a#b` is readable to parse, and get_request cuts it. */
  lemma HashExample()
    ensures Readable(Server, "x", None, true, "a#b")
    ensures var line := Line(Server, "", "x", None, true, "a#b"); QmgrSplit.CutFrom(line, 0) < |line|
  {
    assert Line(Server, "", "x", None, true, "a#b") == "set server x = a#b" by {
      assert "x" + "" == "x" && "x" + (" = " + "a#b") == "x = a#b" && "server " + "x = a#b" == "server x = a#b";
    }
    SeparatorCuts(Server, "", "x", None, true, "a#b");
  }

  // -- a whole attribute --

  /** Kind and names of the objects, attribute and resource. */
  type Key = (Object, string, string, Option<string>)

  /** What the server holds. */
  type State = map<Key, string>

  function Assigned(st: State, key: Key, op: Option<Operator>, value: string): State {
    match op
    case Some(Assign) => st[key := value]
    case Some(Increase) => st[key := if key in st then st[key] + "," + value else value]
    case _ => st
  }

  /** What executing a set command does: to the attributes it names, and to nothing else. */
  function Execute(st: State, kind: Object, names: string, attrs: seq<Attr>): State
    decreases attrs
  {
    if attrs == [] then st else
    var a := attrs[0];
    Execute(Assigned(st, (kind, names, a.name, a.resource), a.op, a.value), kind, names, attrs[1..])
  }

  function Apply(st: State, r: Reading): State {
    if r.Request? && r.cmd == Set then Execute(st, r.kind, r.names, r.attrs) else st
  }

  function RunCommands(tabs: Tables, cmds: seq<string>, st: State): State {
    if cmds == [] then st else RunCommands(tabs, cmds[1..], Apply(st, Read(tabs, cmds[0])))
  }

  /** Feeding lines to qmgr: each is split into commands by get_request, and these are executed. */
  function Replay(tabs: Tables, lines: seq<string>, st: State): State {
    if lines == [] then st else Replay(tabs, lines[1..], RunCommands(tabs, QmgrSplit.Returned(lines[0]), st))
  }

  function Join(ps: seq<string>): string
    requires ps != []
  {
    if |ps| == 1 then ps[0] else ps[0] + "," + Join(ps[1..])
  }

  lemma {:induction false} JoinPieces(v: string)
    ensures Join(Pieces(v)) == v
  {
    if v != "" {
      JoinPieces(v[1..]);
      var ps := Pieces(v[1..]);
      if v[0] == ',' {
        assert ([""] + ps)[1..] == ps;
      } else {
        var qs := [[v[0]] + ps[0]] + ps[1..];
        assert qs[1..] == ps[1..];
        assert |ps| > 1 ==> Join(qs) == ([v[0]] + ps[0]) + "," + Join(ps[1..]);
        assert |ps| > 1 ==> Join(ps) == ps[0] + "," + Join(ps[1..]);
        assert Join(qs) == [v[0]] + Join(ps);
      }
    }
  }

  /** A line that is one command and reads back. */
  predicate Printable(kind: Object, name: string, attr: string, resource: Option<string>, first: bool, piece: string) {
    var line := Line(kind, name, attr, resource, first, piece);
    && Readable(kind, attr, resource, first, piece)
    && QmgrSplit.CutFrom(line, 0) == |line|
    && !Contains(line, "loglevel")
  }

  predicate AllPrintable(kind: Object, name: string, attr: string, resource: Option<string>, first: bool, ps: seq<string>) {
    ps == [] ||
    (Printable(kind, name, attr, resource, first, ps[0]) && AllPrintable(kind, name, attr, resource, false, ps[1..]))
  }

  function KeyOf(kind: Object, name: string, attr: string, resource: Option<string>): Key {
    (kind, if kind == Server then "" else name, attr, resource)
  }

  /** Feeding one line back does to the state what the piece stands for. */
  lemma LineReplays(tabs: Tables, kind: Object, name: string, attr: string, resource: Option<string>, first: bool, piece: string, st: State)
    requires PlainTokens(tabs, kind, name, attr, resource) && Printable(kind, name, attr, resource, first, piece)
    ensures var line := Line(kind, name, attr, resource, first, piece);
            RunCommands(tabs, QmgrSplit.Returned(line), st) ==
              Assigned(st, KeyOf(kind, name, attr, resource), Some(OpOf(first)), piece)
  {
    hide Line, Readable, PlainTokens, Read, Contains, QmgrSplit.CutFrom, QmgrSplit.Returned;
    var line := Line(kind, name, attr, resource, first, piece);
    OnePiece(line);
    LineReads(tabs, kind, name, attr, resource, first, piece);
    OneRun(tabs, line, st);
    var a := Attr(attr, resource, Some(OpOf(first)), piece);
    OneAttr(st, kind, if kind == Server then "" else name, a);
  }

  lemma OneRun(tabs: Tables, line: string, st: State)
    ensures RunCommands(tabs, [line], st) == Apply(st, Read(tabs, line))
  {
    hide Read, Apply;
    assert [line][1..] == [];
  }

  lemma OneAttr(st: State, kind: Object, names: string, a: Attr)
    ensures Execute(st, kind, names, [a]) == Assigned(st, (kind, names, a.name, a.resource), a.op, a.value)
  {
    assert [a][1..] == [];
  }

  lemma {:induction false} ReplayRest(tabs: Tables, kind: Object, name: string, attr: string, resource: Option<string>,
                                      ps: seq<string>, st: State)
    requires PlainTokens(tabs, kind, name, attr, resource) && AllPrintable(kind, name, attr, resource, false, ps)
    requires KeyOf(kind, name, attr, resource) in st
    ensures var key := KeyOf(kind, name, attr, resource);
            Replay(tabs, LinesOf(kind, name, attr, resource, false, ps), st) ==
              if ps == [] then st else st[key := st[key] + "," + Join(ps)]
    decreases |ps|
  {
    hide Printable, PlainTokens, Line, RunCommands, QmgrSplit.Returned;
    if ps != [] {
      var key := KeyOf(kind, name, attr, resource);
      LineReplays(tabs, kind, name, attr, resource, false, ps[0], st);
      var lines := LinesOf(kind, name, attr, resource, false, ps);
      var next := st[key := st[key] + "," + ps[0]];
      assert lines[1..] == LinesOf(kind, name, attr, resource, false, ps[1..]);
      ReplayRest(tabs, kind, name, attr, resource, ps[1..], next);
      if |ps| > 1 {
        assert st[key] + "," + ps[0] + "," + Join(ps[1..]) == st[key] + "," + (ps[0] + "," + Join(ps[1..]));
        assert next[key := st[key] + "," + Join(ps)] == st[key := st[key] + "," + Join(ps)];
      }
    }
  }

  /** Feeding back the lines printed for a value sets the attribute to it, whatever it was, and changes nothing else. */
  lemma PrintReplays(tabs: Tables, kind: Object, name: string, a: Status, st: State)
    requires a.value.Some? && PlainTokens(tabs, kind, name, a.name, a.resource)
    requires AllPrintable(kind, name, a.name, a.resource, true, Pieces(a.value.value))
    ensures Replay(tabs, Lines(tabs, kind, name, a), st) == st[KeyOf(kind, name, a.name, a.resource) := a.value.value]
  {
    Settable(tabs, kind, name, a.name, a.resource);
    hide Printable, PlainTokens, Line, RunCommands, QmgrSplit.Returned, UpToDot, LinesOf, Pieces, Replay, Join;
    JoinPieces(a.value.value);
    ReplayAll(tabs, kind, name, a.name, a.resource, Pieces(a.value.value), st);
  }

  lemma ReplayAll(tabs: Tables, kind: Object, name: string, attr: string, resource: Option<string>, ps: seq<string>, st: State)
    requires PlainTokens(tabs, kind, name, attr, resource) && ps != [] && AllPrintable(kind, name, attr, resource, true, ps)
    ensures Replay(tabs, LinesOf(kind, name, attr, resource, true, ps), st) == st[KeyOf(kind, name, attr, resource) := Join(ps)]
  {
    hide Printable, PlainTokens, Line, RunCommands, QmgrSplit.Returned;
    var key := KeyOf(kind, name, attr, resource);
    var lines := LinesOf(kind, name, attr, resource, true, ps);
    LineReplays(tabs, kind, name, attr, resource, true, ps[0], st);
    var next := st[key := ps[0]];
    assert lines[1..] == LinesOf(kind, name, attr, resource, false, ps[1..]);
    ReplayRest(tabs, kind, name, attr, resource, ps[1..], next);
    assert |ps| > 1 ==> next[key := ps[0] + "," + Join(ps[1..])] == st[key := ps[0] + "," + Join(ps[1..])];
  }

  lemma Settable(tabs: Tables, kind: Object, name: string, attr: string, resource: Option<string>)
    requires PlainTokens(tabs, kind, name, attr, resource)
    ensures (kind, UpToDot(attr)) in tabs.settable
  {
    DotEnds(attr, "");
    assert attr + "" == attr;
  }

  /** A line passes get_request in one piece when it holds no `;` and no `#`. */
  lemma LineIsOneCommand(line: string)
    requires ';' !in line && '#' !in line
    ensures QmgrSplit.CutFrom(line, 0) == |line| && QmgrSplit.Returned(line) == [line] == QmgrSplit.Commands(line)
  {
    assert QmgrSplit.CutFrom(line, 0) == |line|;
    assert line[..|line|] == line;
  }

  /** An attribute without a value prints as a line that cannot be read back. */
  lemma NoValueFails(tabs: Tables, kind: Object, name: string, attr: string, resource: Option<string>)
    requires PlainTokens(tabs, kind, name, attr, resource)
    requires !Contains("set " + (Subject(kind, name) + Target(attr, resource)), "loglevel")
    ensures Read(tabs, "set " + (Subject(kind, name) + Target(attr, resource))) == Wrong(4)
  {
    NotRewritten("set " + (Subject(kind, name) + Target(attr, resource)));
    hide ReadPlain, Subject, Target, Plain, Contains, Rewritten;
    NoValuePlain(tabs, kind, name, attr, resource);
  }

  lemma NoValuePlain(tabs: Tables, kind: Object, name: string, attr: string, resource: Option<string>)
    requires Plain(attr) && '.' !in attr && ',' !in attr && (resource.Some? ==> Plain(resource.value))
    requires (kind, attr) in tabs.settable && |Target(attr, resource)| < MAX_REQ_WORD_LEN
    requires kind != Server ==> Plain(name) && |name| < MAX_REQ_WORD_LEN && !IsAttr(tabs, kind, name) && CheckList(kind, name) == 0
    ensures ReadPlain(tabs, "set " + (Subject(kind, name) + Target(attr, resource))) == Wrong(4)
  {
    hide *;
    var target := Target(attr, resource);
    var r := "set " + (Subject(kind, name) + target);
    TargetPlain(attr, resource);
    PlainNonempty(target);
    NoSpace();
    if kind == Server {
      AttrIs(tabs, Server, attr, target);
      ServerNoValueText(name, target);
      BareFails("", attr, resource);
      ServerNoValue(tabs, r, target);
    } else {
      SubjectIs(kind, name);
      Regroup(KindWord(kind), name, target);
      BareFails(" ", attr, resource);
      PlainNonempty(name);
      ObjectNoValue(tabs, kind, r, name, " " + target);
    }
  }

  lemma AttrIs(tabs: Tables, kind: Object, attr: string, word: string)
    requires (kind, attr) in tabs.settable && UpToDot(word) == attr
    ensures IsAttr(tabs, kind, word)
  {
  }

  lemma SubjectIs(kind: Object, name: string)
    requires kind != Server
    ensures Subject(kind, name) == (KindWord(kind) + " ") + (name + " ")
    ensures Plain(KindWord(kind)) && |KindWord(kind)| < MAX_REQ_WORD_LEN
  {
  }

  lemma ServerNoValueText(name: string, target: string)
    ensures var r := "set " + (Subject(Server, name) + target);
            r == "set " + ("server " + (target + "")) && |r| == 11 + |target| && r[11..] == "" + target
  {
  }

  lemma ServerNoValue(tabs: Tables, r: string, target: string)
    requires Plain(target) && target != "" && |target| < MAX_REQ_WORD_LEN && IsAttr(tabs, Server, target)
    requires r == "set " + ("server " + (target + "")) && |r| == 11 + |target| && r[11..] == "" + target
    requires Parse("" + target, Set).Rejected?
    ensures ReadPlain(tabs, r) == Wrong(4)
  {
    ServerWords(r, target, "");
    assert KindWord(Server) == "server";
    hide Plain, SplitWords, IsAttr, Parse, ReadPlain, KindWord;
    ReadWords(tabs, Server, r, target, "");
  }

  lemma ObjectNoValue(tabs: Tables, kind: Object, r: string, name: string, y: string)
    requires kind != Server && Plain(KindWord(kind)) && |KindWord(kind)| < MAX_REQ_WORD_LEN
    requires Plain(name) && name != "" && |name| < MAX_REQ_WORD_LEN && !IsAttr(tabs, kind, name) && CheckList(kind, name) == 0
    requires y != "" && y[0] == ' ' && r == "set " + ((KindWord(kind) + " ") + (name + y))
    requires |r| == 5 + |KindWord(kind)| + |name| + |y| && r[5 + |KindWord(kind)| + |name|..] == y
    requires Parse(y, Set).Rejected?
    ensures ReadPlain(tabs, r) == Wrong(4)
  {
    hide Plain, SplitWords, IsAttr, CheckList, Parse, ReadPlain, KindWord;
    ObjectWords(r, KindWord(kind), name, y);
    ReadWords(tabs, kind, r, name, y);
  }

  lemma BareFails(lead: string, attr: string, resource: Option<string>)
    requires Plain(attr) && '.' !in attr && ',' !in attr && (resource.Some? ==> Plain(resource.value))
    requires AllSpace(lead)
    ensures Parse(lead + Target(attr, resource), Set).Rejected?
  {
    var t := attr + (ResourceString(resource) + "");
    assert t == Target(attr, resource);
    assert At("", 0) == '\0';
    if resource.None? {
      PlainNameWord(attr, '\0');
      PlainName(attr, "", Set);
      assert attr + "" == t;
    } else {
      PlainNameWord(attr, '.');
      PlainResourceWord(resource.value, '\0');
      NameWithResource(attr, resource.value, "", Set);
      assert attr + ("." + (resource.value + "")) == t;
    }
    assert t[0] == attr[0];
    LeadSkipped(lead, t, Set);
    TrimOver(lead, t);
  }
}
