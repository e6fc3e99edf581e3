/**
  The requests on which qmgr's parse follows a bad pointer or its text search throws
  (src/cmds/qmgr.c:2241-2267, 2300-2491).
 */
module QmgrFaults {
  import opened Common
  import opened QmgrAttributes
  import opened QmgrGrammar
  import opened QmgrParse
  import opened QmgrPrint
  import opened QmgrOffEnd

  // -- the rewriting of loglevel --

  predicate SetsLoglevel(r: string) {
    Contains(r, "s s loglevel") || Contains(r, "set server loglevel") ||
    Contains(r, "set s loglevel") || Contains(r, "s server loglevel")
  }

  predicate PrintsLoglevel(r: string) {
    r == "p s loglevel" || r == "print server loglevel" || r == "print s loglevel" || r == "p server loglevel"
  }

  predicate LacksEquals(r: string) {
    !PrintsLoglevel(r) && SetsLoglevel(r) && '=' !in r
  }

  lemma {:induction false} FindChar(r: string, c: char, p: nat)
    requires p <= |r|
    ensures Find(r, [c], p) == |r| <==> c !in r[p..]
    decreases |r| - p
  {
    if p < |r| {
      FindChar(r, c, p + 1);
      assert r[p..] == [r[p]] + r[p + 1..];
      assert [c] <= r[p..] <==> r[p] == c;
    }
  }

  /** The search for '=' throws exactly when loglevel is set without one. */
  lemma RewriteThrows(r: string)
    ensures Rewritten(r).None? <==> LacksEquals(r)
  {
    hide Contains;
    FindChar(r, '=', 0);
    assert r[0..] == r && ['='] == "=";
    hide Find;
  }

  // -- what stands before the attribute list --

  /** Command, kind of object and length of what precedes the attributes; none if parse stops before them. */
  datatype Heading = Heading(cmd: Command, kind: Object, len: nat) | NoHeading

  function HeadingOf(tabs: Tables, r: string): Heading {
    var w := SplitWords(r);
    var len := if w.Words? then |r| - |w.rest| else 1;
    if len == 0 || CommandOf(Word(w, 0)).None? || Word(w, 1) == "" || ObjectOf(Word(w, 1)).None? then NoHeading else
    var cmd, kind, name := CommandOf(Word(w, 0)).value, ObjectOf(Word(w, 1)).value, Word(w, 2);
    if name == "" then Heading(cmd, kind, len)
    else if IsAttr(tabs, kind, name) then (if |name| <= len then Heading(cmd, kind, len - |name|) else NoHeading)
    else if CheckList(kind, name) != 0 then NoHeading
    else Heading(cmd, kind, len)
  }

  lemma {:induction false} TakeWordsFit(t: string, list: seq<string>)
    requires |list| <= MAX_REQ_WORDS
    ensures var w := TakeWords(t, list);
            && (w.WordTooLong? ==> |w.list| < MAX_REQ_WORDS && t != "")
            && (w.Words? && |w.list| > |list| ==> |w.list[|w.list| - 1]| <= |t| - |w.rest|)
            && (w.Words? && |w.list| <= |list| ==> w.list == list)
    decreases MAX_REQ_WORDS - |list|
  {
    hide Trim, ResourceLen;
    if t != "" && |list| < MAX_REQ_WORDS {
      var u := Trim(t);
      var n := ResourceLen(u);
      if n < MAX_REQ_WORD_LEN {
        TakeWordsFit(u[n..], list + [u[..n]]);
      }
    }
  }

  lemma WordsFit(r: string)
    ensures var w := SplitWords(r);
            && (w.WordTooLong? ==> Word(w, 2) == "" && |r| >= 1)
            && (w.Words? ==> |Word(w, 2)| <= |r| - |w.rest|)
  {
    TakeWordsFit(r, []);
    hide TakeWords;
  }

  /** Past the heading only the attribute list decides. */
  lemma HeadingReads(tabs: Tables, r: string)
    ensures var h := HeadingOf(tabs, r);
            if h.NoHeading? then ReadPlain(tabs, r) != Fault && !ReadPlain(tabs, r).Request?
            else h.len <= |r| && exists names :: ReadPlain(tabs, r) == Finish(h.cmd, h.kind, names, r, h.len)
  {
    WordsFit(r);
    hide SplitWords, CommandOf, ObjectOf, IsAttr, CheckList, Finish;
    var w := SplitWords(r);
    var len := if w.Words? then |r| - |w.rest| else 1;
    if len > 0 && CommandOf(Word(w, 0)).Some? && Word(w, 1) != "" && ObjectOf(Word(w, 1)).Some? {
      var cmd, kind, name := CommandOf(Word(w, 0)).value, ObjectOf(Word(w, 1)).value, Word(w, 2);
      assert ReadPlain(tabs, r) == ReadNamed(tabs, cmd, kind, name, r, len);
    }
  }

  // -- the attribute list --

  /** A limit of a queue whose resource is missing. */
  predicate BareLimit(a: Attr) {
    && ("resources_max" <= a.name || "resources_min" <= a.name)
    && a.resource.None? && (a.op == None || a.op == Some(Assign))
  }

  lemma FinishFaults(cmd: Command, kind: Object, names: string, r: string, len: nat)
    requires len <= |r|
    ensures var v := Parse(r[len..], cmd);
            Finish(cmd, kind, names, r, len) == Fault <==>
              v == OffEnd || (cmd == Set && kind == Queue && v.Accepted? && v.list != [] && BareLimit(v.list[0]))
  {
    hide Parse;
  }

  /** The attribute list is cut short after a sign, or sets a queue's last attribute to a limit without a resource. */
  ghost predicate ListFaults(tabs: Tables, text: string) {
    var h := HeadingOf(tabs, text);
    h.Heading? && h.len <= |text| &&
    var list := text[h.len..];
    (h.cmd != Unset && EndsCutShort(list, h.cmd)) || (h.cmd == Set && h.kind == Queue && EndsInBareLimit(list))
  }

  ghost predicate EndsInBareLimit(list: string) {
    exists ps :: GoodPieces(ps, Set) && Render(ps) == list && BareLimit(Meaning(ps[|ps| - 1]))
  }

  lemma {:induction false} LinkedLast(ps: seq<Piece>, acc: seq<Attr>)
    requires ps != []
    ensures |Linked(ps, acc)| > 0 && Linked(ps, acc)[0] == Meaning(ps[|ps| - 1])
    decreases |ps|
  {
    if |ps| > 1 {
      LinkedLast(ps[1..], [Meaning(ps[0])] + acc);
    } else {
      assert Linked(ps[1..], [Meaning(ps[0])] + acc) == [Meaning(ps[0])] + acc;
    }
  }

  lemma BareLimitList(list: string)
    ensures var v := Parse(list, Set);
            v.Accepted? && v.list != [] && BareLimit(v.list[0]) <==> EndsInBareLimit(list)
  {
    AcceptsExactly(list, Set);
    hide Parse, BareLimit, Render, GoodPiece, Meaning, Linked;
    var v := Parse(list, Set);
    if v.Accepted? && v.list != [] && BareLimit(v.list[0]) {
      var ps :| GoodPieces(ps, Set) && Render(ps) == list;
      LinkedLast(ps, []);
    }
    if EndsInBareLimit(list) {
      var ps :| GoodPieces(ps, Set) && Render(ps) == list && BareLimit(Meaning(ps[|ps| - 1]));
      LinkedLast(ps, []);
    }
  }

  /** A request faults exactly when it sets loglevel without '=', or its attribute list faults. */
  lemma FaultsExactly(tabs: Tables, r: string)
    ensures Read(tabs, r) == Fault <==>
            LacksEquals(r) || (Rewritten(r).Some? && ListFaults(tabs, Rewritten(r).value))
  {
    RewriteThrows(r);
    hide Rewritten, ReadPlain, ListFaults, LacksEquals;
    if Rewritten(r).Some? {
      PlainFaults(tabs, Rewritten(r).value);
    }
  }

  lemma PlainFaults(tabs: Tables, text: string)
    ensures ReadPlain(tabs, text) == Fault <==> ListFaults(tabs, text)
  {
    hide ReadPlain, HeadingOf, EndsCutShort, EndsInBareLimit, Parse, BareLimit, Finish;
    HeadingReads(tabs, text);
    var h := HeadingOf(tabs, text);
    if h.Heading? {
      var names :| ReadPlain(tabs, text) == Finish(h.cmd, h.kind, names, text, h.len);
      FinishFaults(h.cmd, h.kind, names, text, h.len);
      RunsOffExactly(text[h.len..], h.cmd);
      BareLimitList(text[h.len..]);
    }
  }

  /** Assigning a raw value to a queue's limit without a resource faults, as in `set queue q resources_max = 5`. */
  lemma BareLimitFaults(tabs: Tables, name: string, attr: string, piece: string)
    requires PlainTokens(tabs, Queue, name, attr, None) && piece != "" && RawWord(piece)
    requires "resources_max" <= attr || "resources_min" <= attr
    requires !Contains(Line(Queue, name, attr, None, true, piece), "loglevel")
    ensures Read(tabs, Line(Queue, name, attr, None, true, piece)) == Fault
  {
    NotRewritten(Line(Queue, name, attr, None, true, piece));
    hide ReadPlain, Line, Plain, RawWord, Contains, Rewritten, PlainTokens;
    BareLimitPlain(tabs, name, attr, piece);
  }

  lemma BareLimitPlain(tabs: Tables, name: string, attr: string, piece: string)
    requires PlainTokens(tabs, Queue, name, attr, None) && piece != "" && RawWord(piece)
    requires "resources_max" <= attr || "resources_min" <= attr
    ensures ReadPlain(tabs, Line(Queue, name, attr, None, true, piece)) == Fault
  {
    hide Plain, Line, RawWord, Finish, SplitWords, IsAttr, CheckList, ReadPlain, Body, Target, AllSpace, KindWord, Parse;
    var r, w := Line(Queue, name, attr, None, true, piece), KindWord(Queue);
    var y := " " + Body(attr, None, true, piece);
    ObjectText(Queue, name, attr, None, true, piece);
    ObjectWords(r, w, name, y);
    PlainNonempty(name);
    ReadWords(tabs, Queue, r, name, y);
    NoSpace();
    BodyReads(" ", attr, None, true, piece);
    FinishFaults(Set, Queue, name, r, |r| - |y|);
  }

  lemma HasG(r: string, i: nat)
    requires i <= |r| && "loglevel" <= r[i..]
    ensures 'g' in r
  {
    var t := r[i..];
    assert t[..8] == "loglevel" && t[2] == t[..8][2] == 'g';
    assert r[i + 2] == t[2];
  }

  lemma NoLoglevel(r: string)
    requires 'g' !in r
    ensures !Contains(r, "loglevel")
  {
    forall i | 0 <= i <= |r| ensures !("loglevel" <= r[i..]) {
      if "loglevel" <= r[i..] {
        HasG(r, i);
      }
    }
  }

  lemma ExampleLine()
    ensures Line(Queue, "q", "resources_max", None, true, "5") == "set queue q resources_max = 5"
    ensures Target("resources_max", None) == "resources_max"
  {
    assert "resources_max" + "" == "resources_max";
    assert "resources_max" + (" = " + "5") == "resources_max = 5";
    assert "queue " + ("q" + " ") == "queue q ";
    assert "queue q " + "resources_max = 5" == "queue q resources_max = 5";
  }

  lemma ExampleTokens(tabs: Tables)
    requires (Queue, "resources_max") in tabs.settable && !IsAttr(tabs, Queue, "q")
    ensures PlainTokens(tabs, Queue, "q", "resources_max", None)
  {
    hide Line, IsAttr, CheckList, Target;
    ShortName();
    ExampleLine();
    PlainWords();
  }

  lemma PlainWords()
    ensures Plain("resources_max") && '.' !in "resources_max" && ',' !in "resources_max" && Plain("q")
  {
  }

  lemma ShortName()
    ensures CheckList(Queue, "q") == 0
  {
    assert NextOf("q", 1, true) == 1 && NextOf("q", 0, true) == 1;
  }

  /** For qmgr's tables, where resources_max can be set on a queue and q is not an attribute. */
  lemma FaultExample(tabs: Tables)
    requires (Queue, "resources_max") in tabs.settable && !IsAttr(tabs, Queue, "q")
    ensures Read(tabs, "set queue q resources_max = 5") == Fault
  {
    ExampleTokens(tabs);
    ExampleLine();
    NoLoglevel("set queue q resources_max = 5");
    assert RawWord("5");
    hide *;
    BareLimitFaults(tabs, "q", "resources_max", "5");
  }
}
