/**
  The attribute lists qmgr accepts, written down as a grammar, and the proof that the parser of
  src/cmds/qmgr.c:330-589 accepts exactly these texts and reads each of them as what it spells.
 */
module QmgrGrammar {
  import opened Common
  import opened QmgrAttributes

  /** `=`, or `+` or `-` with the character that the parser skips after it. */
  datatype OpText = OpText(op: Operator, second: char)

  datatype ValueText = Quoted(q: char, text: string) | Raw(text: string)

  datatype Ending = Bare | Given(op: OpText, gap: string, value: ValueText, after: string)

  /** One attribute as written, with all its white space. */
  datatype Piece = Piece(lead: string, name: string, resource: Option<string>, mid: string, end: Ending)

  function OpString(o: OpText): string {
    match o.op
    case Assign => "="
    case Increase => ['+', o.second]
    case Decrease => ['-', o.second]
  }

  function ValueString(v: ValueText): string {
    match v
    case Quoted(q, text) => [q] + (text + [q])
    case Raw(text) => text
  }

  function EndString(e: Ending): string {
    match e
    case Bare => ""
    case Given(op, gap, value, after) => OpString(op) + (gap + (ValueString(value) + after))
  }

  function ResourceString(r: Option<string>): string {
    if r.None? then "" else "." + r.value
  }

  /** The text of `p` in front of `tail`. */
  function PieceString(p: Piece, tail: string): string {
    p.lead + (p.name + (ResourceString(p.resource) + (p.mid + (EndString(p.end) + tail))))
  }

  function Render(ps: seq<Piece>): string
    requires ps != []
  {
    if |ps| == 1 then PieceString(ps[0], "") else PieceString(ps[0], "," + Render(ps[1..]))
  }

  function Meaning(p: Piece): Attr {
    match p.end
    case Bare => Attr(p.name, p.resource, None, "")
    case Given(op, _, value, _) => Attr(p.name, p.resource, Some(op.op), value.text)
  }

  /** The meanings, last first, in front of `acc`: the order in which the code links them. */
  function Linked(ps: seq<Piece>, acc: seq<Attr>): seq<Attr> {
    if ps == [] then acc else Linked(ps[1..], [Meaning(ps[0])] + acc)
  }

  // -- which pieces are well formed --

  /** No character of `w` ends a name; `next` is the character written after `w`. */
  predicate NameWord(w: string, next: char) {
    w == "" ||
    (w[0] != '.' && w[0] != ',' && !Space(w[0]) && !OperPair(w[0], if |w| > 1 then w[1] else next) &&
     NameWord(w[1..], next))
  }

  predicate ResourceWord(w: string, next: char) {
    w == "" ||
    (!Space(w[0]) && !OperPair(w[0], if |w| > 1 then w[1] else next) && ResourceWord(w[1..], next))
  }

  predicate RawWord(w: string) {
    (forall c :: c in w ==> !Space(c) && c != ',') && (w != "" ==> !Quote(w[0]))
  }

  predicate GoodEnd(e: Ending, mid: string, last: bool, cmd: Command) {
    match e
    case Bare => last ==> cmd != Create && cmd != Set
    case Given(op, gap, value, after) =>
      && cmd != Unset
      && (mid == "" && op.op != Assign ==> op.second == '=')
      && AllSpace(gap) && AllSpace(after)
      && match value
         case Quoted(q, text) => Quote(q) && q !in text
         case Raw(text) => RawWord(text) && (text == "" ==> after == "" && !last)
  }

  predicate GoodPiece(p: Piece, last: bool, cmd: Command) {
    var after := p.mid + (EndString(p.end) + (if last then "" else ","));
    && AllSpace(p.lead) && AllSpace(p.mid)
    && p.name != "" && NameWord(p.name, At(ResourceString(p.resource) + after, 0))
    && (p.resource.Some? ==> p.resource.value != "" && ResourceWord(p.resource.value, At(after, 0)))
    && (p.resource.Some? && p.end.Bare? && !last ==> p.mid != "")
    && GoodEnd(p.end, p.mid, last, cmd)
  }

  predicate GoodPieces(ps: seq<Piece>, cmd: Command) {
    ps != [] && GoodPiece(ps[0], |ps| == 1, cmd) && (|ps| > 1 ==> GoodPieces(ps[1..], cmd))
  }

  // -- scanning over a token --

  lemma {:induction false} NameOver(w: string, x: string)
    requires NameWord(w, At(x, 0)) && NameLen(x) == 0
    ensures NameLen(w + x) == |w|
  {
    if w == "" {
      assert w + x == x;
    } else {
      assert (w + x)[1..] == w[1..] + x && At(w + x, 1) == if |w| > 1 then w[1] else At(x, 0);
      NameOver(w[1..], x);
    }
  }

  lemma {:induction false} ResourceOver(w: string, x: string)
    requires ResourceWord(w, At(x, 0)) && ResourceLen(x) == 0
    ensures ResourceLen(w + x) == |w|
  {
    if w == "" {
      assert w + x == x;
    } else {
      assert (w + x)[1..] == w[1..] + x && At(w + x, 1) == if |w| > 1 then w[1] else At(x, 0);
      ResourceOver(w[1..], x);
    }
  }

  lemma {:induction false} RawOver(w: string, x: string)
    requires (forall c :: c in w ==> !Space(c) && c != ',') && RawLen(x) == 0
    ensures RawLen(w + x) == |w|
  {
    if w == "" {
      assert w + x == x;
    } else {
      assert w[0] in w && (w + x)[1..] == w[1..] + x;
      RawOver(w[1..], x);
    }
  }

  lemma Cut(a: string, b: string)
    ensures (a + b)[..|a|] == a && (a + b)[|a|..] == b
  {
  }

  // -- every well-formed text is read as what it spells --

  /** What comes back from an item followed by nothing, or by a comma and `rest`. */
  function Expect(a: Attr, last: bool, rest: string): Item {
    if last then Last(a) else More(a, rest)
  }

  function Tail(last: bool, rest: string): string {
    if last then "" else "," + rest
  }

  lemma EndRead(a: Attr, after: string, last: bool, rest: string)
    requires AllSpace(after)
    ensures ReadEnd(a, after + Tail(last, rest)) == Expect(a, last, rest)
  {
    TrimOver(after, Tail(last, rest));
  }

  lemma RawRead(name: string, res: Option<string>, op: Operator, text: string, after: string,
                last: bool, rest: string, cmd: Command)
    requires cmd != Unset && RawWord(text) && AllSpace(after) && (text == "" ==> after == "" && !last)
    ensures var x := text + (after + Tail(last, rest));
            && x != "" && !Space(x[0])
            && ReadValue(name, res, op, x, cmd) == Expect(Attr(name, res, Some(op), text), last, rest)
  {
    var y := after + Tail(last, rest);
    var x := text + y;
    assert text != "" ==> x[0] == text[0] && text[0] in text;
    assert text == "" ==> x == "," + rest;
    assert after != "" ==> y[0] == after[0] && after[0] in after;
    assert after == "" ==> y == Tail(last, rest);
    assert Trim(x) == x;
    RawOver(text, y);
    Cut(text, y);
    EndRead(Attr(name, res, Some(op), text), after, last, rest);
  }

  lemma QuotedRead(name: string, res: Option<string>, op: Operator, q: char, text: string, after: string,
                   last: bool, rest: string, cmd: Command)
    requires cmd != Unset && Quote(q) && q !in text && AllSpace(after)
    ensures var x := ([q] + (text + [q])) + (after + Tail(last, rest));
            && !Space(x[0])
            && ReadValue(name, res, op, x, cmd) == Expect(Attr(name, res, Some(op), text), last, rest)
  {
    var y := after + Tail(last, rest);
    var x := ([q] + (text + [q])) + y;
    assert Trim(x) == x && x[1..] == text + ([q] + y);
    QuoteOver(text, q, y);
    Cut(text, [q] + y);
    assert x[1..][|text| + 1..] == y;
    EndRead(Attr(name, res, Some(op), text), after, last, rest);
  }

  lemma GivenRead(name: string, res: Option<string>, e: Ending, mid: string, last: bool, rest: string, cmd: Command)
    requires e.Given? && GoodEnd(e, mid, last, cmd)
    ensures var x := e.gap + (ValueString(e.value) + (e.after + Tail(last, rest)));
            ReadValue(name, res, e.op.op, x, cmd) ==
            Expect(Attr(name, res, Some(e.op.op), e.value.text), last, rest)
  {
    hide ReadEnd, RawLen, QuoteLen;
    var v := ValueString(e.value) + (e.after + Tail(last, rest));
    match e.value {
      case Quoted(q, text) => QuotedRead(name, res, e.op.op, q, text, e.after, last, rest, cmd);
      case Raw(text) => RawRead(name, res, e.op.op, text, e.after, last, rest, cmd);
    }
    TrimOver(e.gap, v);
    assert Trim(v) == v;
  }

  lemma BareRead(name: string, res: Option<string>, mid: string, last: bool, rest: string, cmd: Command)
    requires AllSpace(mid) && (last ==> cmd != Create && cmd != Set)
    ensures ReadOp(name, res, mid + Tail(last, rest), cmd) == Expect(Attr(name, res, None, ""), last, rest)
  {
    TrimOver(mid, Tail(last, rest));
  }

  /** After white space and an operator, the value is read. */
  lemma OperatorRead(name: string, res: Option<string>, mid: string, o: OpText, y: string, cmd: Command)
    requires AllSpace(mid)
    ensures ReadOp(name, res, mid + (OpString(o) + y), cmd) == ReadValue(name, res, o.op, y, cmd)
  {
    hide ReadValue, Trim;
    TrimOver(mid, OpString(o) + y);
    Cut(OpString(o), y);
  }

  lemma OpRead(name: string, res: Option<string>, mid: string, e: Ending, last: bool, rest: string, cmd: Command)
    requires AllSpace(mid) && GoodEnd(e, mid, last, cmd)
    ensures ReadOp(name, res, mid + (EndString(e) + Tail(last, rest)), cmd) ==
            Expect(Meaning(Piece("", name, res, mid, e)), last, rest)
  {
    hide ReadOp, ReadValue, AllSpace, Tail, OpString, ValueString;
    var tail := Tail(last, rest);
    match e {
      case Bare =>
        assert EndString(e) + tail == tail;
        BareRead(name, res, mid, last, rest, cmd);
      case Given(op, gap, value, after) =>
        var y := gap + (ValueString(value) + (after + tail));
        assert EndString(e) + tail == OpString(op) + y;
        OperatorRead(name, res, mid, op, y, cmd);
        GivenRead(name, res, e, mid, last, rest, cmd);
    }
  }

  /** The first character after a token ends it. */
  lemma EndStops(mid: string, e: Ending, last: bool, rest: string, cmd: Command)
    requires AllSpace(mid) && GoodEnd(e, mid, last, cmd)
    ensures var x := mid + (EndString(e) + Tail(last, rest));
            && NameLen(x) == 0
            && (mid != "" || last || e.Given? ==> ResourceLen(x) == 0)
            && At(x, 0) == At(mid + (EndString(e) + (if last then "" else ",")), 0)
            && At(x, 0) != '.'
  {
    var x := mid + (EndString(e) + Tail(last, rest));
    if mid != "" {
      assert x[0] == mid[0] && mid[0] in mid;
    } else if e.Given? {
      var o := OpString(e.op);
      assert x[0] == o[0] && (|o| > 1 ==> x[1] == o[1]);
    } else {
      assert x == Tail(last, rest);
    }
  }

  lemma PlainName(name: string, y: string, cmd: Command)
    requires name != "" && NameWord(name, At(y, 0)) && NameLen(y) == 0 && At(y, 0) != '.'
    ensures !Space(name[0])
    ensures Trim(name + y) == name + y && ReadItem(name + y, cmd) == ReadOp(name, None, y, cmd)
  {
    NameOver(name, y);
    Cut(name, y);
    assert At(name + y, |name|) == At(y, 0);
    hide NameLen, ReadOp;
    assert (name + y)[0] == name[0];
  }

  lemma NameWithResource(name: string, res: string, y: string, cmd: Command)
    requires name != "" && NameWord(name, '.') && res != "" && ResourceWord(res, At(y, 0)) && ResourceLen(y) == 0
    ensures var t := name + ("." + (res + y));
            && !Space(name[0])
            && Trim(t) == t && ReadItem(t, cmd) == ReadOp(name, Some(res), y, cmd)
  {
    var z := "." + (res + y);
    var t := name + z;
    NameOver(name, z);
    Cut(name, z);
    ResourceOver(res, y);
    Cut(res, y);
    hide NameLen, ResourceLen, ReadOp;
    assert t[0] == name[0] && t[|name|] == '.';
    assert t[|name| + 1..] == res + y;
  }

  /** One well-formed piece, in front of nothing or of a comma and anything. */
  lemma ItemComplete(p: Piece, last: bool, rest: string, cmd: Command)
    requires GoodPiece(p, last, cmd)
    ensures ReadItem(PieceString(p, Tail(last, rest)), cmd) == Expect(Meaning(p), last, rest)
  {
    hide AllSpace, GoodEnd, NameWord, ResourceWord, NameLen, ResourceLen, ReadOp, ReadItem, EndString, Tail, Trim;
    var y := p.mid + (EndString(p.end) + Tail(last, rest));
    var t := p.name + (ResourceString(p.resource) + y);
    EndStops(p.mid, p.end, last, rest, cmd);
    OpRead(p.name, p.resource, p.mid, p.end, last, rest, cmd);
    if p.resource.None? {
      assert ResourceString(p.resource) + y == y;
      PlainName(p.name, y, cmd);
    } else {
      assert ResourceString(p.resource) + y == "." + (p.resource.value + y);
      NameWithResource(p.name, p.resource.value, y, cmd);
    }
    LeadSkipped(p.lead, t, cmd);
  }

  lemma LeadSkipped(ws: string, t: string, cmd: Command)
    requires AllSpace(ws) && t != "" && !Space(t[0])
    ensures ReadItem(ws + t, cmd) == ReadItem(t, cmd)
  {
    TrimOver(ws, t);
    TrimOver("", t);
    assert "" + t == t;
    ItemSkipsSpace(ws + t, cmd);
  }

  /** Every well-formed list is accepted and read as the list of its meanings, last first. */
  lemma {:induction false} ItemsComplete(s: string, ps: seq<Piece>, cmd: Command, acc: seq<Attr>)
    requires GoodPieces(ps, cmd)
    ensures ReadItems(s, Render(ps), cmd, acc) == Accepted(Linked(ps, acc))
    decreases |ps|
  {
    hide GoodPiece, ReadItem, PieceString, Meaning;
    var p := ps[0];
    if |ps| == 1 {
      ItemComplete(p, true, "", cmd);
      assert Linked(ps[1..], [Meaning(p)] + acc) == [Meaning(p)] + acc;
    } else {
      ItemComplete(p, false, Render(ps[1..]), cmd);
      ItemsComplete(s, ps[1..], cmd, [Meaning(p)] + acc);
    }
  }

  // -- every accepted text is well formed --

  lemma {:induction false} NameIsWord(t: string)
    ensures var n := NameLen(t); NameWord(t[..n], At(t, n)) && NameLen(t[n..]) == 0
  {
    var n := NameLen(t);
    if n > 0 {
      NameIsWord(t[1..]);
      assert t[..n][1..] == t[1..][..n - 1] && t[n..] == t[1..][n - 1..] && At(t, n) == At(t[1..], n - 1);
      assert n > 1 ==> t[..n][1] == t[1];
    }
  }

  lemma {:induction false} ResourceIsWord(t: string)
    ensures var n := ResourceLen(t); ResourceWord(t[..n], At(t, n)) && ResourceLen(t[n..]) == 0
  {
    var n := ResourceLen(t);
    if n > 0 {
      ResourceIsWord(t[1..]);
      assert t[..n][1..] == t[1..][..n - 1] && t[n..] == t[1..][n - 1..] && At(t, n) == At(t[1..], n - 1);
      assert n > 1 ==> t[..n][1] == t[1];
    }
  }

  lemma {:induction false} RawIsWord(t: string)
    ensures var n := RawLen(t);
            && (forall c :: c in t[..n] ==> !Space(c) && c != ',')
            && (n < |t| ==> Space(t[n]) || t[n] == ',')
  {
    var n := RawLen(t);
    if n > 0 {
      RawIsWord(t[1..]);
      assert t[..n] == [t[0]] + t[1..][..n - 1];
    }
  }

  predicate Good(r: Item) {
    r.More? || r.Last?
  }

  function RestOf(r: Item): string {
    if r.More? then r.rest else ""
  }

  lemma EndSound(a: Attr, t: string) returns (after: string)
    requires Good(ReadEnd(a, t))
    ensures var r := ReadEnd(a, t);
            && AllSpace(after) && t == after + Tail(r.Last?, RestOf(r)) && r.attr == a
            && (t != "" && t[0] == ',' ==> after == "" && r.More?)
  {
    after := TrimSplit(t);
    var x := Trim(t);
    assert x != "" ==> x == [x[0]] + x[1..];
    if after != "" {
      assert t[0] == after[0] && after[0] in after;
    }
  }

  lemma QuotedSound(name: string, res: Option<string>, op: Operator, x: string, cmd: Command)
    returns (value: ValueText, after: string)
    requires cmd != Unset && x != "" && Quote(x[0]) && Trim(x) == x && Good(ReadValue(name, res, op, x, cmd))
    ensures var r := ReadValue(name, res, op, x, cmd);
            && value.Quoted? && Quote(value.q) && value.q !in value.text && AllSpace(after)
            && x == ValueString(value) + (after + Tail(r.Last?, RestOf(r)))
            && r.attr == Attr(name, res, Some(op), value.text)
  {
    hide Trim, AllSpace, ReadEnd, Tail, QuoteLen;
    var q, w := x[0], x[1..];
    var k := QuoteLen(w, q);
    QuoteIsText(w, q);
    after := EndSound(Attr(name, res, Some(op), w[..k]), w[k + 1..]);
    value := Quoted(q, w[..k]);
    assert x == ([q] + (w[..k] + [q])) + w[k + 1..];
  }

  lemma RawSound(name: string, res: Option<string>, op: Operator, x: string, cmd: Command)
    returns (value: ValueText, after: string)
    requires cmd != Unset && x != "" && !Quote(x[0]) && Trim(x) == x && Good(ReadValue(name, res, op, x, cmd))
    ensures var r := ReadValue(name, res, op, x, cmd);
            && value.Raw? && RawWord(value.text) && AllSpace(after)
            && (value.text == "" ==> after == "" && !r.Last?)
            && x == ValueString(value) + (after + Tail(r.Last?, RestOf(r)))
            && r.attr == Attr(name, res, Some(op), value.text)
  {
    hide Trim, AllSpace, ReadEnd, Tail, RawLen;
    var k := RawLen(x);
    RawIsWord(x);
    after := EndSound(Attr(name, res, Some(op), x[..k]), x[k..]);
    value := Raw(x[..k]);
    assert x == x[..k] + x[k..];
  }

  lemma ValueSkipsSpace(name: string, res: Option<string>, op: Operator, t: string, cmd: Command)
    requires cmd != Unset
    ensures Trim(Trim(t)) == Trim(t)
    ensures ReadValue(name, res, op, t, cmd) == ReadValue(name, res, op, Trim(t), cmd)
  {
    hide QuoteLen, RawLen, ReadEnd, Trim;
    TrimTwice(t);
  }

  lemma ValueSound(name: string, res: Option<string>, op: Operator, t: string, cmd: Command) returns (e: Ending)
    requires Good(ReadValue(name, res, op, t, cmd))
    ensures var r := ReadValue(name, res, op, t, cmd);
            && e.Given? && e.op == OpText(op, '=') && GoodEnd(e, "", r.Last?, cmd)
            && t == e.gap + (ValueString(e.value) + (e.after + Tail(r.Last?, RestOf(r))))
            && r.attr == Attr(name, res, Some(op), e.value.text)
  {
    ValueGiven(name, res, op, t, cmd);
    hide Trim, AllSpace, ReadValue, Tail, ValueString, RawWord;
    var gap := TrimSplit(t);
    var x := Trim(t);
    ValueSkipsSpace(name, res, op, t, cmd);
    var value, after;
    if Quote(x[0]) {
      value, after := QuotedSound(name, res, op, x, cmd);
    } else {
      value, after := RawSound(name, res, op, x, cmd);
    }
    e := Given(OpText(op, '='), gap, value, after);
  }

  lemma ValueGiven(name: string, res: Option<string>, op: Operator, t: string, cmd: Command)
    requires Good(ReadValue(name, res, op, t, cmd))
    ensures cmd != Unset && Trim(t) != ""
  {
  }

  lemma OpSound(name: string, res: Option<string>, t: string, cmd: Command) returns (mid: string, e: Ending)
    requires Good(ReadOp(name, res, t, cmd))
    requires if res.None? then NameLen(t) == 0 else ResourceLen(t) == 0
    ensures var r := ReadOp(name, res, t, cmd);
            && AllSpace(mid) && GoodEnd(e, mid, r.Last?, cmd)
            && t == mid + (EndString(e) + Tail(r.Last?, RestOf(r)))
            && r.attr == Meaning(Piece("", name, res, mid, e))
            && (res.Some? && e.Bare? && r.More? ==> mid != "")
  {
    hide Trim, AllSpace, ReadValue, Tail, ValueString, GoodEnd;
    mid := TrimSplit(t);
    var x := Trim(t);
    var r := ReadOp(name, res, t, cmd);
    if x == "" || x[0] == ',' {
      e := Bare;
      BareTail(x, r);
      BareGood(mid, r.Last?, cmd);
      assert mid == "" ==> t == x;
    } else {
      assert mid == "" ==> t == x;
      e := GivenSound(name, res, mid, x, cmd);
      GivenRead1(name, res, t, x, cmd);
    }
  }

  lemma BareGood(mid: string, last: bool, cmd: Command)
    requires last ==> cmd != Create && cmd != Set
    ensures GoodEnd(Bare, mid, last, cmd)
  {
  }

  /** The operator at the head of `x`, and its length. */
  function OpAt(x: string): (Operator, nat)
    requires x != ""
  {
    if x[0] == '=' then (Assign, 1) else if x[0] == '+' then (Increase, 2) else (Decrease, 2)
  }

  lemma GivenRead1(name: string, res: Option<string>, t: string, x: string, cmd: Command)
    requires x == Trim(t) && x != "" && x[0] != ',' && Good(ReadOp(name, res, t, cmd))
    ensures (x[0] == '=' || x[0] == '+' || x[0] == '-') && OpAt(x).1 <= |x|
    ensures ReadOp(name, res, t, cmd) == ReadValue(name, res, OpAt(x).0, x[OpAt(x).1..], cmd)
  {
    hide Trim, ReadValue;
  }

  lemma GivenSound(name: string, res: Option<string>, mid: string, x: string, cmd: Command) returns (e: Ending)
    requires x != "" && (x[0] == '=' || x[0] == '+' || x[0] == '-') && OpAt(x).1 <= |x|
    requires Good(ReadValue(name, res, OpAt(x).0, x[OpAt(x).1..], cmd))
    requires mid == "" ==> NameLen(x) == 0 || ResourceLen(x) == 0
    ensures var r := ReadValue(name, res, OpAt(x).0, x[OpAt(x).1..], cmd);
            && e.Given? && GoodEnd(e, mid, r.Last?, cmd)
            && x == EndString(e) + Tail(r.Last?, RestOf(r))
            && r.attr == Meaning(Piece("", name, res, mid, e))
  {
    var (op, k) := OpAt(x);
    StopIsOper(x);
    hide *;
    var e0 := ValueSound(name, res, op, x[k..], cmd);
    e := e0.(op := OpText(op, if k == 1 then '=' else x[1]));
    var r := ReadValue(name, res, op, x[k..], cmd);
    GivenText(e, x, k, Tail(r.Last?, RestOf(r)));
    GivenGood(e0, e, mid, r.Last?, cmd);
    GivenMeaning(name, res, mid, e);
  }

  lemma StopIsOper(x: string)
    requires x != "" && (x[0] == '=' || x[0] == '+' || x[0] == '-')
    ensures (NameLen(x) == 0 || ResourceLen(x) == 0) && OpAt(x).1 == 2 && |x| > 1 ==> x[1] == '='
  {
  }

  lemma GivenText(e: Ending, x: string, k: nat, tail: string)
    requires x != "" && (x[0] == '=' || x[0] == '+' || x[0] == '-') && k == OpAt(x).1 <= |x| && e.Given?
    requires e.op == OpText(OpAt(x).0, if k == 1 then '=' else x[1])
    requires x[k..] == e.gap + (ValueString(e.value) + (e.after + tail))
    ensures x == EndString(e) + tail
  {
    var o, v := OpString(e.op), ValueString(e.value);
    assert o == x[..k] && x == x[..k] + x[k..];
    hide ValueString, OpString;
    assert (o + (e.gap + (v + e.after))) + tail == o + (e.gap + (v + (e.after + tail)));
  }

  lemma GivenGood(e0: Ending, e: Ending, mid: string, last: bool, cmd: Command)
    requires e0.Given? && e.Given? && GoodEnd(e0, "", last, cmd) && e == e0.(op := e.op)
    requires mid == "" && e.op.op != Assign ==> e.op.second == '='
    ensures GoodEnd(e, mid, last, cmd)
  {
  }

  lemma GivenMeaning(name: string, res: Option<string>, mid: string, e: Ending)
    requires e.Given?
    ensures Meaning(Piece("", name, res, mid, e)) == Attr(name, res, Some(e.op.op), e.value.text)
  {
  }

  lemma BareTail(x: string, r: Item)
    requires x == "" ==> r.Last?
    requires x != "" ==> r.More? && x == "," + r.rest
    ensures x == EndString(Bare) + Tail(r.Last?, RestOf(r))
  {
  }

  lemma PlainSound(x: string, cmd: Command) returns (p: Piece)
    requires Trim(x) == x && Good(ReadItem(x, cmd)) && At(x, NameLen(x)) != '.'
    ensures var r := ReadItem(x, cmd);
            && p.lead == "" && p.resource.None? && GoodPiece(p, r.Last?, cmd) && Meaning(p) == r.attr
            && x == p.name + (ResourceString(p.resource) + (p.mid + (EndString(p.end) + Tail(r.Last?, RestOf(r)))))
  {
    hide Trim, NameLen, NameWord, ReadOp, EndString, Tail, GoodEnd;
    var r, n := ReadItem(x, cmd), NameLen(x);
    NameIsWord(x);
    var mid, e := OpSound(x[..n], None, x[n..], cmd);
    p := Piece("", x[..n], None, mid, e);
    EndStops(mid, e, r.Last?, RestOf(r), cmd);
    assert At(x, n) == At(x[n..], 0) && x == x[..n] + x[n..];
    assert ResourceString(p.resource) + x[n..] == x[n..];
    var after := mid + (EndString(e) + (if r.Last? then "" else ","));
    assert ResourceString(p.resource) + after == after;
  }

  lemma DottedItem(x: string, cmd: Command)
    requires Trim(x) == x && Good(ReadItem(x, cmd)) && At(x, NameLen(x)) == '.'
    ensures var n := NameLen(x);
            0 < n < |x| && x[n] == '.' &&
            var v := x[n + 1..];
            var k := ResourceLen(v);
            k > 0 && ReadItem(x, cmd) == ReadOp(x[..n], Some(v[..k]), v[k..], cmd)
  {
    hide Trim, NameLen, ResourceLen, ReadOp;
  }

  lemma ResourceSound(x: string, cmd: Command) returns (p: Piece)
    requires Trim(x) == x && Good(ReadItem(x, cmd)) && At(x, NameLen(x)) == '.'
    ensures var r := ReadItem(x, cmd);
            && p.lead == "" && p.resource.Some? && GoodPiece(p, r.Last?, cmd) && Meaning(p) == r.attr
            && x == p.name + (ResourceString(p.resource) + (p.mid + (EndString(p.end) + Tail(r.Last?, RestOf(r)))))
  {
    hide Trim, NameLen, NameWord, ResourceLen, ResourceWord, ReadOp, EndString, Tail, GoodEnd, ReadItem;
    DottedItem(x, cmd);
    var r, n := ReadItem(x, cmd), NameLen(x);
    NameIsWord(x);
    var v := x[n + 1..];
    var k := ResourceLen(v);
    ResourceIsWord(v);
    var mid, e := OpSound(x[..n], Some(v[..k]), v[k..], cmd);
    p := Piece("", x[..n], Some(v[..k]), mid, e);
    EndStops(mid, e, r.Last?, RestOf(r), cmd);
    assert At(v, k) == At(v[k..], 0);
    ResourceText(x, n, k);
  }

  lemma ResourceText(x: string, n: nat, k: nat)
    requires n < |x| && x[n] == '.' && n + 1 + k <= |x|
    ensures var v := x[n + 1..];
            x == x[..n] + (ResourceString(Some(v[..k])) + v[k..])
  {
    var v := x[n + 1..];
    assert ResourceString(Some(v[..k])) + v[k..] == "." + v;
  }

  lemma ItemSound(t: string, cmd: Command) returns (p: Piece)
    requires Good(ReadItem(t, cmd))
    ensures var r := ReadItem(t, cmd);
            && GoodPiece(p, r.Last?, cmd) && Meaning(p) == r.attr
            && t == PieceString(p, Tail(r.Last?, RestOf(r)))
  {
    ItemSkipsSpace(t, cmd);
    hide Trim, ReadItem, EndString, Tail, GoodEnd, NameLen, NameWord, ResourceWord;
    var lead := TrimSplit(t);
    var x := Trim(t);
    if At(x, NameLen(x)) == '.' {
      p := ResourceSound(x, cmd);
    } else {
      p := PlainSound(x, cmd);
    }
    p := p.(lead := lead);
  }

  lemma ItemSkipsSpace(t: string, cmd: Command)
    ensures Trim(Trim(t)) == Trim(t)
    ensures ReadItem(t, cmd) == ReadItem(Trim(t), cmd)
  {
    hide NameLen, ResourceLen, ReadOp, Trim;
    TrimTwice(t);
  }

  lemma TrimTwice(t: string)
    ensures Trim(Trim(t)) == Trim(t)
  {
  }

  lemma {:induction false} ItemsSound(s: string, t: string, cmd: Command, acc: seq<Attr>) returns (ps: seq<Piece>)
    requires ReadItems(s, t, cmd, acc).Accepted?
    ensures GoodPieces(ps, cmd) && Render(ps) == t
    ensures ReadItems(s, t, cmd, acc).list == Linked(ps, acc)
    decreases |t|
  {
    hide GoodPiece, ReadItem, PieceString, Meaning;
    var p := ItemSound(t, cmd);
    var r := ReadItem(t, cmd);
    if r.Last? {
      ps := [p];
      assert ps[1..] == [];
    } else {
      var more := ItemsSound(s, r.rest, cmd, [r.attr] + acc);
      ps := [p] + more;
      assert ps[1..] == more;
    }
  }

  /** `s` is written according to the grammar. */
  ghost predicate WellWritten(s: string, cmd: Command) {
    exists ps :: GoodPieces(ps, cmd) && Render(ps) == s
  }

  /**
    The return code is 0 exactly for blank texts and well-written lists; each list, however it
    is spelled, is read as the meanings of its pieces, linked last first.
   */
  lemma AcceptsExactly(s: string, cmd: Command)
    ensures Parse(s, cmd).Accepted? <==> Trim(s) == "" || WellWritten(s, cmd)
    ensures Trim(s) == "" ==> Parse(s, cmd) == Accepted([]) && !WellWritten(s, cmd)
    ensures forall ps :: GoodPieces(ps, cmd) && Render(ps) == s ==> Parse(s, cmd) == Accepted(Linked(ps, []))
  {
    BlankIsBad(s, cmd);
    hide GoodPiece, Render, Linked, ReadItems;
    forall ps | GoodPieces(ps, cmd) && Render(ps) == s
      ensures Trim(s) != "" && Parse(s, cmd) == Accepted(Linked(ps, []))
    {
      ItemsComplete(s, ps, cmd, []);
    }
    if Trim(s) != "" && Parse(s, cmd).Accepted? {
      var ps := ItemsSound(s, s, cmd, []);
      assert WellWritten(s, cmd);
    }
  }

  lemma BlankIsBad(s: string, cmd: Command)
    ensures Trim(s) == "" ==> ReadItems(s, s, cmd, []).Rejected?
  {
  }

  /** A syntax error never yields 0: the offset is a position in the text, counted from 1. */
  lemma {:induction false} ErrorOffset(s: string, t: string, cmd: Command, acc: seq<Attr>)
    requires |t| <= |s| && ReadItems(s, t, cmd, acc).Rejected?
    ensures 1 <= ReadItems(s, t, cmd, acc).offset <= |s| + 1
    decreases |t|
  {
    hide ReadItem;
    var r := ReadItem(t, cmd);
    if r.More? {
      ErrorOffset(s, r.rest, cmd, [r.attr] + acc);
    }
  }
}
