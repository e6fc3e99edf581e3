/** Parsing what the printer prints: which trees come back, and as what. */
module MxmlRoundTrip {
  import opened Common
  import opened MxmlTree
  import opened MxmlParse

  /** The names that survive: see `NamesExact` for why each clause is needed. */
  predicate GoodName(n: string) {
    && 0 < |n| < MMAX_LINE
    && ' ' !in n && '>' !in n
    && n[0] != '/' && n[0] != '?' && n[0] != '!'
    && n[|n| - 1] != '/'
  }

  predicate GoodNames(e: Node)
    decreases e, 1
  {
    e.Elem? ==> GoodName(NameOf(e)) && GoodKidNames(e.kids)
  }

  predicate GoodKidNames(kids: seq<Node>)
    decreases kids, 0
  {
    kids == [] || (GoodNames(kids[0]) && GoodKidNames(kids[1..]))
  }

  /** No raw '<', and, leading white space aside, short enough for the parser's buffer. */
  predicate GoodVals(e: Node)
    decreases e, 1
  {
    e.Elem? ==> '<' !in ValOf(e) && |Trim(ValOf(e))| <= MMAX_XBUFFER && GoodKidVals(e.kids)
  }

  predicate GoodKidVals(kids: seq<Node>)
    decreases kids, 0
  {
    kids == [] || (GoodVals(kids[0]) && GoodKidVals(kids[1..]))
  }

  function ReceivedVal(v: string): Option<string> {
    if Trim(v) == "" then None else Some(Restore(Trim(v)))
  }

  /** The tree the parser makes of the printed text. */
  function Received(e: Node): Node
    decreases e, 1
  {
    if e.Null? then Null else Elem(Some(NameOf(e)), ReceivedVal(ValOf(e)), ReceivedKids(e.kids))
  }

  function ReceivedKids(kids: seq<Node>): seq<Node>
    decreases kids, 0
  {
    if kids == [] then [] else
    (if kids[0].Null? then [] else [Received(kids[0])]) + ReceivedKids(kids[1..])
  }

  // -- where the pieces of a printed element lie --

  lemma Split(s: string, p: nat, a: string, b: string)
    ensures StartsWith(s, p, a + b) <==> StartsWith(s, p, a) && StartsWith(s, p + |a|, b)
  {
    if p + |a| + |b| <= |s| {
      var w := s[p..p + |a| + |b|];
      assert w[..|a|] == s[p..p + |a|] && w[|a|..] == s[p + |a|..p + |a| + |b|];
      assert (a + b)[..|a|] == a && (a + b)[|a|..] == b;
      assert w == w[..|a|] + w[|a|..];
    }
  }

  lemma CharAt(s: string, p: nat, w: string, i: nat)
    requires StartsWith(s, p, w)
    ensures p + |w| <= |s|
    ensures i < |w| ==> s[p + i] == w[i]
  {
    if i < |w| {
      assert s[p + i] == s[p..p + |w|][i];
    }
  }

  lemma Pieces(s: string, p: nat, e: Node)
    requires e.Elem? && StartsWith(s, p, Print(e))
    ensures var n, v, k := NameOf(e), ValOf(e), PrintKids(e.kids);
            var b := p + |n| + 2;
            && |Print(e)| == 2 * |n| + |v| + |k| + 5
            && b + |v| + |k| + |n| + 3 <= |s|
            && s[p] == '<' && StartsWith(s, p + 1, n) && s[p + 1 + |n|] == '>'
            && StartsWith(s, b, v)
            && StartsWith(s, b + |v|, k)
            && s[b + |v| + |k|] == '<' && s[b + |v| + |k| + 1] == '/'
            && s[b + |v|] == '<'
  {
    hide *;
    PrintIs(e);
    KidsStartWithTag(e.kids);
    PiecesOf(s, p, NameOf(e), ValOf(e), PrintKids(e.kids));
  }

  lemma PrintIs(e: Node)
    requires e.Elem?
    ensures var n, v, k := NameOf(e), ValOf(e), PrintKids(e.kids);
            Print(e) == "<" + (n + (">" + (v + (k + ("</" + n + ">")))))
  {
    hide NameOf, ValOf, PrintKids;
  }

  lemma PiecesOf(s: string, p: nat, n: string, v: string, k: string)
    requires StartsWith(s, p, "<" + (n + (">" + (v + (k + ("</" + n + ">"))))))
    requires k != "" ==> k[0] == '<'
    ensures var b := p + |n| + 2;
            && b + |v| + |k| + |n| + 3 <= |s|
            && s[p] == '<' && StartsWith(s, p + 1, n) && s[p + 1 + |n|] == '>'
            && StartsWith(s, b, v)
            && StartsWith(s, b + |v|, k)
            && s[b + |v| + |k|] == '<' && s[b + |v| + |k| + 1] == '/'
            && s[b + |v|] == '<'
  {
    hide StartsWith;
    var foot := "</" + n + ">";
    var b := p + |n| + 2;
    Split(s, p, "<", n + (">" + (v + (k + foot))));
    CharAt(s, p, "<", 0);
    Split(s, p + 1, n, ">" + (v + (k + foot)));
    Split(s, p + 1 + |n|, ">", v + (k + foot));
    CharAt(s, p + 1 + |n|, ">", 0);
    Split(s, b, v, k + foot);
    Split(s, b + |v|, k, foot);
    CharAt(s, b + |v| + |k|, foot, 0);
    CharAt(s, b + |v| + |k|, foot, 1);
    CharAt(s, b + |v|, k, 0);
  }

  lemma {:induction false} KidsStartWithTag(kids: seq<Node>)
    ensures PrintKids(kids) != "" ==> PrintKids(kids)[0] == '<'
  {
    if kids != [] {
      KidsStartWithTag(kids[1..]);
    }
  }

  // -- the scans over those pieces --

  lemma {:induction false} ScanNameOver(s: string, p: nat, n: string, i: nat)
    requires StartsWith(s, p, n) && i <= |n| < MMAX_LINE && p + |n| < |s| && s[p + |n|] == '>'
    requires ' ' !in n && '>' !in n && (n != "" ==> n[|n| - 1] != '/')
    ensures ScanName(s, p + i, i) == OpenName(p + |n|)
    decreases |n| - i
  {
    if i < |n| {
      assert s[p + i] == s[p..p + |n|][i] == n[i];
      assert i + 1 < |n| ==> s[p + i + 1] == s[p..p + |n|][i + 1] == n[i + 1];
      ScanNameOver(s, p, n, i + 1);
    }
  }

  lemma {:induction false} SkipWhiteOver(s: string, p: nat, v: string)
    requires StartsWith(s, p, v) && p + |v| < |s| && s[p + |v|] == '<'
    ensures SkipWhite(s, p) == p + |v| - |Trim(v)|
    decreases |v|
  {
    if v != "" {
      assert s[p] == s[p..p + |v|][0] == v[0];
      if Space(v[0]) {
        assert s[p + 1..p + |v|] == s[p..p + |v|][1..] == v[1..];
        SkipWhiteOver(s, p + 1, v[1..]);
      }
    }
  }

  lemma {:induction false} ScanValOver(s: string, p: nat, v: string, i: nat)
    requires StartsWith(s, p, v) && i <= |v| <= MMAX_XBUFFER && '<' !in v
    requires p + |v| < |s| && s[p + |v|] == '<'
    ensures ScanVal(s, p + i, i) == Some(p + |v|)
    decreases |v| - i
  {
    if i < |v| {
      assert s[p + i] == s[p..p + |v|][i] == v[i];
      ScanValOver(s, p, v, i + 1);
    }
  }

  /** The opening tag is read as such, and parsing goes on after it. */
  lemma OpeningTag(s: string, p: nat, e: Node)
    requires e.Elem? && StartsWith(s, p, Print(e)) && GoodName(NameOf(e))
    ensures var n := NameOf(e); Parse(s, p) == Body(s, n, SkipWhite(s, p + |n| + 2))
  {
    hide *;
    var n := NameOf(e);
    Pieces(s, p, e);
    GoodStart(n);
    CharAt(s, p + 1, n, 0);
    ScanNameOver(s, p + 1, n, 0);
    NamePiece(s, p + 1, n);
    ParseTag(s, p, p + 1 + |n|);
  }

  lemma GoodStart(n: string)
    requires GoodName(n)
    ensures 0 < |n| < MMAX_LINE && ' ' !in n && '>' !in n && n[|n| - 1] != '/'
    ensures n[0] != '/' && n[0] != '?' && n[0] != '!'
  {
  }

  lemma ParseTag(s: string, p: nat, u: nat)
    requires p + 1 < u < |s| && s[p] == '<' && s[p + 1] != '/' && s[p + 1] != '?' && s[p + 1] != '!'
    requires ScanName(s, p + 1, 0) == OpenName(u) && s[u] == '>'
    ensures Parse(s, p) == Body(s, s[p + 1..u], SkipWhite(s, u + 1))
  {
    hide ScanName, Body, StrChr, SkipMeta, SkipWhite, SkipAttrs, SkipBlanks;
    TagFound(s, p);
    NoAttrs(s, u);
  }

  /** At a tag that opens an element the search stops at once. */
  lemma TagFound(s: string, p: nat)
    requires p + 1 < |s| && s[p] == '<' && s[p + 1] != '/' && s[p + 1] != '?' && s[p + 1] != '!'
    ensures StrChr(s, p, '<') == Some(p) && SkipMeta(s, p) == Some(p) && SkipWhite(s, p) == p
  {
  }

  lemma NoAttrs(s: string, u: nat)
    requires u < |s| && s[u] == '>'
    ensures SkipAttrs(s, SkipBlanks(s, u)) == Opened(u)
  {
  }

  lemma NamePiece(s: string, p: nat, n: string)
    requires StartsWith(s, p, n)
    ensures p + |n| <= |s| && s[p..p + |n|] == n
  {
  }

  /** The value is read stripped and restored, up to the children. */
  lemma ValueRead(s: string, p: nat, e: Node)
    requires e.Elem? && StartsWith(s, p, Print(e)) && GoodVals(e)
    ensures var n, v := NameOf(e), ValOf(e);
            var b := p + |n| + 2;
            var w := SkipWhite(s, b);
            && w <= b + |v| < |s|
            && (if At(s, w) == '<' then Some(w) else ScanVal(s, w, 0)) == Some(b + |v|)
            && (if At(s, w) == '<' then None else Some(Restore(s[w..b + |v|]))) == ReceivedVal(v)
  {
    hide Print, StartsWith, SkipWhite, ScanVal, ReceivedVal, Restore;
    var n, v := NameOf(e), ValOf(e);
    Pieces(s, p, e);
    ValueReadAt(s, p + |n| + 2, v);
  }

  lemma ValueReadAt(s: string, b: nat, v: string)
    requires StartsWith(s, b, v) && '<' !in v && |Trim(v)| <= MMAX_XBUFFER
    requires b + |v| < |s| && s[b + |v|] == '<'
    ensures var w := SkipWhite(s, b);
            && w <= b + |v|
            && (if At(s, w) == '<' then Some(w) else ScanVal(s, w, 0)) == Some(b + |v|)
            && (if At(s, w) == '<' then None else Some(Restore(s[w..b + |v|]))) == ReceivedVal(v)
  {
    hide *;
    SkipWhiteOver(s, b, v);
    TrimPiece(s, b, v);
    ReadTrimmed(s, b + |v| - |Trim(v)|, v, Trim(v));
  }

  lemma {:induction false} TrimSuffix(v: string)
    ensures v[|v| - |Trim(v)|..] == Trim(v)
  {
    if v != "" && Space(v[0]) {
      TrimSuffix(v[1..]);
      assert v[1..][|v| - 1 - |Trim(v)|..] == v[|v| - |Trim(v)|..];
    }
  }

  lemma TrimPiece(s: string, b: nat, v: string)
    requires StartsWith(s, b, v)
    ensures StartsWith(s, b + |v| - |Trim(v)|, Trim(v))
    ensures forall c :: c in Trim(v) ==> c in v
  {
    TrimSuffix(v);
    hide Trim;
    var r := Trim(v);
    assert s[b..b + |v|][|v| - |r|..] == s[b + |v| - |r|..b + |v|];
    assert v == v[..|v| - |r|] + r;
  }

  lemma ReadTrimmed(s: string, w: nat, v: string, r: string)
    requires r == Trim(v) && StartsWith(s, w, r) && '<' !in r && |r| <= MMAX_XBUFFER
    requires w + |r| < |s| && s[w + |r|] == '<'
    ensures (if At(s, w) == '<' then Some(w) else ScanVal(s, w, 0)) == Some(w + |r|)
    ensures (if At(s, w) == '<' then None else Some(Restore(s[w..w + |r|]))) == ReceivedVal(v)
  {
    hide Trim, ScanVal, Restore;
    if r != "" {
      CharAt(s, w, r, 0);
      assert r[0] in r;
      ScanValOver(s, w, r, 0);
    }
  }

  lemma ClosingTag(s: string, p: nat, e: Node)
    requires e.Elem? && StartsWith(s, p, Print(e)) && NameOf(e) != ""
    ensures var d := p + |NameOf(e)| + 2 + |ValOf(e)| + |PrintKids(e.kids)|;
            && d + 1 < |s| && At(s, d) == '<' && At(s, d + 1) == '/'
            && Foot(s, NameOf(e), d) == Some(p + |Print(e)|)
  {
    hide Print, PrintKids, NameOf, ValOf, StartsWith;
    Pieces(s, p, e);
  }

  /** With good names, parsing the printed text yields the received tree and stops right behind it. */
  lemma {:induction false} ParsePrint(s: string, p: nat, e: Node)
    requires e.Elem? && StartsWith(s, p, Print(e)) && GoodNames(e) && GoodVals(e)
    ensures Parse(s, p) == Parsed(Received(e), p + |Print(e)|)
    decreases e, 1
  {
    hide Parse, Body, ScanKids, Foot, SkipWhite, ScanVal, Print, PrintKids, StartsWith, ReceivedVal, Restore;
    Pieces(s, p, e);
    OpeningTag(s, p, e);
    ValueRead(s, p, e);
    ClosingTag(s, p, e);
    var c := p + |NameOf(e)| + 2 + |ValOf(e)|;
    ParseKids(s, c, e.kids, []);
    assert [] + ReceivedKids(e.kids) == ReceivedKids(e.kids);
    BodyOf(s, NameOf(e), SkipWhite(s, p + |NameOf(e)| + 2), c, ValOf(e));
  }

  lemma BodyOf(s: string, name: string, w: nat, c: nat, v: string)
    requires w <= c <= |s|
    requires (if At(s, w) == '<' then Some(w) else ScanVal(s, w, 0)) == Some(c)
    requires (if At(s, w) == '<' then None else Some(Restore(s[w..c]))) == ReceivedVal(v)
    requires name != "" && ScanKids(s, c, []).Stopped? && Foot(s, name, ScanKids(s, c, []).at).Some?
    ensures var k := ScanKids(s, c, []);
            Body(s, name, w) == Parsed(Elem(Some(name), ReceivedVal(v), k.kids), Foot(s, name, k.at).value)
  {
    hide ScanKids, Foot, ScanVal, Restore, ReceivedVal;
  }

  lemma KidRead(s: string, p: nat, acc: seq<Node>)
    requires p + 1 < |s| && s[p + 1] != '/'
    requires Parse(s, p).Parsed? && Parse(s, p).tail < |s|
    ensures ScanKids(s, p, acc) == ScanKids(s, Parse(s, p).tail, acc + [Parse(s, p).node])
  {
    hide Parse;
  }

  lemma NoMoreKids(s: string, p: nat, acc: seq<Node>)
    requires p + 1 < |s| && s[p + 1] == '/'
    ensures ScanKids(s, p, acc) == Stopped(p, acc)
  {
  }

  lemma {:induction false} ParseKids(s: string, p: nat, kids: seq<Node>, acc: seq<Node>)
    requires StartsWith(s, p, PrintKids(kids)) && GoodKidNames(kids) && GoodKidVals(kids)
    requires var d := p + |PrintKids(kids)|; d + 1 < |s| && s[d] == '<' && s[d + 1] == '/'
    ensures ScanKids(s, p, acc) == Stopped(p + |PrintKids(kids)|, acc + ReceivedKids(kids))
    decreases kids, 0
  {
    hide Parse, ScanKids, Print, PrintKids, StartsWith, Received, ReceivedKids,
         GoodNames, GoodKidNames, GoodVals, GoodKidVals;
    KidsUnfold(kids);
    if kids == [] {
      NoMoreKids(s, p, acc);
      assert acc + ReceivedKids(kids) == acc;
    } else {
      var k := kids[0];
      GoodUnfold(kids);
      Split(s, p, Print(k), PrintKids(kids[1..]));
      if k.Null? {
        ParseKids(s, p, kids[1..], acc);
      } else {
        ParsePrint(s, p, k);
        Pieces(s, p, k);
        CharAt(s, p + 1, NameOf(k), 0);
        KidRead(s, p, acc);
        ParseKids(s, p + |Print(k)|, kids[1..], acc + [Received(k)]);
        assert acc + [Received(k)] + ReceivedKids(kids[1..]) == acc + ReceivedKids(kids);
      }
    }
  }

  lemma KidsUnfold(kids: seq<Node>)
    ensures kids == [] ==> PrintKids(kids) == "" && ReceivedKids(kids) == []
    ensures kids != [] ==> PrintKids(kids) == Print(kids[0]) + PrintKids(kids[1..])
    ensures kids != [] && kids[0].Null? ==> Print(kids[0]) == "" && ReceivedKids(kids) == ReceivedKids(kids[1..])
    ensures kids != [] && kids[0].Elem? ==> ReceivedKids(kids) == [Received(kids[0])] + ReceivedKids(kids[1..])
  {
    hide Received, NameOf, ValOf;
  }

  lemma GoodUnfold(kids: seq<Node>)
    requires kids != []
    ensures GoodKidNames(kids) <==> GoodNames(kids[0]) && GoodKidNames(kids[1..])
    ensures GoodKidVals(kids) <==> GoodVals(kids[0]) && GoodKidVals(kids[1..])
    ensures kids[0].Elem? && GoodNames(kids[0]) ==> GoodName(NameOf(kids[0]))
  {
    hide GoodName, NameOf, ValOf;
  }

  // -- every clause of GoodName is needed --

  /** The names the parser can produce at all. */
  lemma ParsedNames(s: string, p: nat)
    requires p <= |s| && Parse(s, p).Parsed? && Parse(s, p).node.name.Some?
    ensures var n := Parse(s, p).node.name.value;
            && 0 < |n| < MMAX_LINE && ' ' !in n && '>' !in n
            && n[0] != '?' && n[0] != '!'
  {
    hide Body, StrChr, SkipMeta, SkipAttrs, SkipBlanks, ScanName, SkipWhite;
    var m := SkipMeta(s, StrChr(s, p, '<').value).value;
    assert SkipWhite(s, m) == m by { NotWhite(s, m); }
    var u := ScanName(s, m + 1, 0).end;
    assert Parse(s, p).node.name == MakeName(s[m + 1..u]);
  }

  lemma NotWhite(s: string, p: nat)
    requires p < |s| && (s[p] == '<' || s[p] == '!')
    ensures SkipWhite(s, p) == p
  {
  }

  /** A trailing '/' makes the tag look closed. */
  lemma {:induction false} ScanNameSlash(s: string, p: nat, n: string, i: nat)
    requires StartsWith(s, p, n) && i < |n| < MMAX_LINE && p + |n| < |s| && s[p + |n|] == '>'
    requires ' ' !in n && '>' !in n && n[|n| - 1] == '/'
    ensures ScanName(s, p + i, i) == ClosedName(p + |n| - 1)
    decreases |n| - i
  {
    CharAt(s, p, n, i);
    CharAt(s, p, n, i + 1);
    if i + 1 < |n| {
      ScanNameSlash(s, p, n, i + 1);
    }
  }

  lemma ParseSlash(s: string, p: nat, u: nat)
    requires p + 1 <= u && u + 2 <= |s| && s[p] == '<' && s[p + 1] != '/' && s[p + 1] != '?' && s[p + 1] != '!'
    requires ScanName(s, p + 1, 0) == ClosedName(u)
    ensures Parse(s, p) == Parsed(Elem(MakeName(s[p + 1..u]), None, []), u + 2)
  {
    hide ScanName, StrChr, SkipMeta, SkipWhite, SkipAttrs, SkipBlanks;
    TagFound(s, p);
  }

  lemma TagSlash(s: string, p: nat)
    requires p + 1 < |s| && s[p] == '<' && s[p + 1] == '/'
    ensures Parse(s, p) == Rejected
  {
    assert StrChr(s, p, '<') == Some(p);
  }

  /** If the name of a printed element comes back, it was a good name. */
  lemma RootNameExact(s: string, p: nat, e: Node)
    requires e.Elem? && StartsWith(s, p, Print(e))
    requires p <= |s| && Parse(s, p).Parsed? && Parse(s, p).node.name == Some(NameOf(e))
    ensures GoodName(NameOf(e))
  {
    hide Parse, Print, StartsWith, NameOf, ScanName;
    var n := NameOf(e);
    ParsedNames(s, p);
    Pieces(s, p, e);
    CharAt(s, p + 1, n, 0);
    if n[0] == '/' {
      TagSlash(s, p);
    } else if n[|n| - 1] == '/' {
      ScanNameSlash(s, p + 1, n, 0);
      ParseSlash(s, p, p + |n|);
    }
  }

  lemma {:induction false} ScanKidsExtends(s: string, p: nat, acc: seq<Node>)
    requires p <= |s| && ScanKids(s, p, acc).Stopped?
    ensures acc <= ScanKids(s, p, acc).kids
    decreases |s| - p
  {
    hide Parse;
    if p < |s| && At(s, p + 1) != '/' && Parse(s, p).Parsed? {
      ScanKidsExtends(s, Parse(s, p).tail, acc + [Parse(s, p).node]);
    }
  }

  /** If the received tree comes back, every name in the tree was good. */
  lemma {:induction false} NamesExact(s: string, p: nat, e: Node)
    requires e.Elem? && StartsWith(s, p, Print(e)) && GoodVals(e)
    requires p <= |s| && Parse(s, p).Parsed? && Parse(s, p).node == Received(e)
    ensures GoodNames(e)
    decreases e, 1
  {
    hide Parse, Body, ScanKids, Foot, SkipWhite, ScanVal, Print, PrintKids, StartsWith, ReceivedVal, Restore;
    hide Received, ReceivedKids, GoodVals, GoodKidVals, NameOf, ValOf;
    ReceivedParts(e);
    Pieces(s, p, e);
    RootNameExact(s, p, e);
    OpeningTag(s, p, e);
    ValueRead(s, p, e);
    var c := p + |NameOf(e)| + 2 + |ValOf(e)|;
    BodyKids(s, NameOf(e), SkipWhite(s, p + |NameOf(e)| + 2), c);
    assert [] + ReceivedKids(e.kids) == ReceivedKids(e.kids);
    KidNamesExact(s, c, e.kids, []);
  }

  lemma ReceivedParts(e: Node)
    requires e.Elem?
    ensures Received(e).Elem? && Received(e).name == Some(NameOf(e)) && Received(e).kids == ReceivedKids(e.kids)
    ensures GoodVals(e) ==> GoodKidVals(e.kids)
  {
    hide ReceivedVal, NameOf, ValOf;
  }

  lemma BodyKids(s: string, name: string, w: nat, c: nat)
    requires w <= c <= |s| && Body(s, name, w).Parsed?
    requires (if At(s, w) == '<' then Some(w) else ScanVal(s, w, 0)) == Some(c)
    ensures ScanKids(s, c, []).Stopped? && ScanKids(s, c, []).kids == Body(s, name, w).node.kids
  {
    hide ScanKids, Foot, ScanVal, Restore;
  }

  lemma {:induction false} KidNamesExact(s: string, p: nat, kids: seq<Node>, acc: seq<Node>)
    requires StartsWith(s, p, PrintKids(kids)) && GoodKidVals(kids)
    requires var d := p + |PrintKids(kids)|; d + 1 < |s| && s[d] == '<' && s[d + 1] == '/'
    requires ScanKids(s, p, acc).Stopped? && ScanKids(s, p, acc).kids == acc + ReceivedKids(kids)
    ensures GoodKidNames(kids)
    decreases kids, 0
  {
    hide Parse, ScanKids, Print, PrintKids, StartsWith, Received, ReceivedKids, GoodNames, GoodVals, GoodKidVals;
    KidsUnfold(kids);
    if kids != [] {
      var k := kids[0];
      GoodUnfold(kids);
      Split(s, p, Print(k), PrintKids(kids[1..]));
      if k.Null? {
        NullNamesGood(k);
        KidNamesExact(s, p, kids[1..], acc);
      } else {
        KidTaken(s, p, acc);
        var kid, tail := Parse(s, p).node, Parse(s, p).tail;
        ScanKidsExtends(s, tail, acc + [kid]);
        assert (acc + [kid])[|acc|] == (acc + ReceivedKids(kids))[|acc|] == Received(k);
        NamesExact(s, p, k);
        ParsePrint(s, p, k);
        assert acc + [kid] + ReceivedKids(kids[1..]) == acc + ReceivedKids(kids);
        KidNamesExact(s, tail, kids[1..], acc + [kid]);
      }
    }
  }

  lemma NullNamesGood(e: Node)
    requires e.Null?
    ensures GoodNames(e)
  {
  }

  /** When the scan ends with more children than it had, the next child parsed. */
  lemma KidTaken(s: string, p: nat, acc: seq<Node>)
    requires p <= |s| && ScanKids(s, p, acc).Stopped? && |ScanKids(s, p, acc).kids| > |acc|
    ensures p < |s| && Parse(s, p).Parsed? && Parse(s, p).tail < |s|
    ensures ScanKids(s, p, acc) == ScanKids(s, Parse(s, p).tail, acc + [Parse(s, p).node])
  {
    hide Parse;
  }

  // -- and so is the bound on values --

  /** Values as MXMLSetVal leaves them. */
  predicate NoTags(e: Node)
    decreases e, 1
  {
    e.Elem? ==> '<' !in ValOf(e) && NoKidTags(e.kids)
  }

  predicate NoKidTags(kids: seq<Node>)
    decreases kids, 0
  {
    kids == [] || (NoTags(kids[0]) && NoKidTags(kids[1..]))
  }

  predicate ShortVals(e: Node)
    decreases e, 1
  {
    e.Elem? ==> |Trim(ValOf(e))| <= MMAX_XBUFFER && ShortKidVals(e.kids)
  }

  predicate ShortKidVals(kids: seq<Node>)
    decreases kids, 0
  {
    kids == [] || (ShortVals(kids[0]) && ShortKidVals(kids[1..]))
  }

  lemma {:induction false} GoodValsAre(e: Node)
    ensures GoodVals(e) <==> NoTags(e) && ShortVals(e)
    decreases e, 1
  {
    if e.Elem? {
      GoodKidValsAre(e.kids);
      hide Trim;
    }
  }

  lemma {:induction false} GoodKidValsAre(kids: seq<Node>)
    ensures GoodKidVals(kids) <==> NoKidTags(kids) && ShortKidVals(kids)
    decreases kids, 0
  {
    if kids != [] {
      GoodValsAre(kids[0]);
      GoodKidValsAre(kids[1..]);
      hide GoodVals, NoTags, ShortVals;
    }
  }

  /** No value of the tree is longer than the parser's buffer. */
  predicate Bounded(e: Node)
    decreases e, 1
  {
    e.Elem? ==> |ValOf(e)| <= MMAX_XBUFFER && forall k :: k in e.kids ==> Bounded(k)
  }

  lemma {:induction false} ScanValBound(s: string, p: nat, n: nat)
    requires p <= |s| && n <= MMAX_XBUFFER && ScanVal(s, p, n).Some?
    ensures n + ScanVal(s, p, n).value - p <= MMAX_XBUFFER
    decreases |s| - p
  {
    if n < MMAX_XBUFFER && p < |s| && s[p] != '<' {
      ScanValBound(s, p + 1, n + 1);
    }
  }

  /** Whatever the text, the parser makes only bounded trees. */
  lemma {:induction false} ParsedBounded(s: string, p: nat)
    requires p <= |s| && Parse(s, p).Parsed?
    ensures Bounded(Parse(s, p).node)
    decreases |s| - p, 0
  {
    hide Body, StrChr, SkipMeta, SkipAttrs, SkipBlanks, ScanName, SkipWhite;
    var t := SkipWhite(s, SkipMeta(s, StrChr(s, p, '<').value).value);
    var n := ScanName(s, t + 1, 0);
    if n.OpenName? {
      var a := SkipAttrs(s, SkipBlanks(s, n.end));
      if a.Opened? {
        BodyBounded(s, s[t + 1..n.end], SkipWhite(s, a.at + 1));
      }
    }
  }

  lemma {:induction false} BodyBounded(s: string, name: string, p: nat)
    requires p <= |s| && Body(s, name, p).Parsed?
    ensures Bounded(Body(s, name, p).node)
    decreases |s| - p, 2
  {
    hide ScanKids, Foot, ScanVal, Restore;
    if At(s, p) != '<' {
      ScanValBound(s, p, 0);
    }
    var end := if At(s, p) == '<' then p else ScanVal(s, p, 0).value;
    KidsBounded(s, end, []);
  }

  lemma {:induction false} KidsBounded(s: string, p: nat, acc: seq<Node>)
    requires p <= |s| && ScanKids(s, p, acc).Stopped? && forall k :: k in acc ==> Bounded(k)
    ensures forall k :: k in ScanKids(s, p, acc).kids ==> Bounded(k)
    decreases |s| - p, 1
  {
    hide Parse, Bounded;
    if p < |s| && At(s, p + 1) != '/' && Parse(s, p).Parsed? {
      ParsedBounded(s, p);
      KidsBounded(s, Parse(s, p).tail, acc + [Parse(s, p).node]);
    }
  }

  lemma {:induction false} BoundedShort(e: Node)
    requires Bounded(Received(e))
    ensures ShortVals(e)
    decreases e, 1
  {
    if e.Elem? {
      hide Trim, Restore;
      assert |ValOf(Received(e))| == |Trim(ValOf(e))|;
      BoundedKidsShort(e.kids);
    }
  }

  lemma {:induction false} BoundedKidsShort(kids: seq<Node>)
    requires forall k :: k in ReceivedKids(kids) ==> Bounded(k)
    ensures ShortKidVals(kids)
    decreases kids, 0
  {
    if kids != [] {
      hide Bounded, Received, ShortVals;
      KidsUnfold(kids);
      if kids[0].Elem? {
        assert Received(kids[0]) in ReceivedKids(kids);
        BoundedShort(kids[0]);
      } else {
        NullShort(kids[0]);
      }
      BoundedKidsShort(kids[1..]);
    }
  }

  lemma NullShort(e: Node)
    requires e.Null?
    ensures ShortVals(e)
  {
  }

  /**
    The round trip, exactly: the printed text parses to the received tree just when all names are
    good and all values, leading white space aside, fit the parser's buffer.
   */
  lemma RoundTrip(e: Node, prefix: string, suffix: string)
    requires e.Elem? && NoTags(e)
    ensures var s := prefix + Print(e) + suffix;
            Parse(s, |prefix|) == Parsed(Received(e), |prefix| + |Print(e)|) <==> GoodNames(e) && ShortVals(e)
  {
    var s := prefix + Print(e) + suffix;
    assert StartsWith(s, |prefix|, Print(e)) by {
      hide Print;
      assert s[|prefix|..|prefix| + |Print(e)|] == Print(e);
    }
    hide Parse, Print, StartsWith, GoodVals, NoTags, ShortVals, GoodNames, Received;
    GoodValsAre(e);
    if GoodNames(e) && ShortVals(e) {
      ParsePrint(s, |prefix|, e);
    } else if Parse(s, |prefix|) == Parsed(Received(e), |prefix| + |Print(e)|) {
      ParsedBounded(s, |prefix|);
      BoundedShort(e);
      NamesExact(s, |prefix|, e);
    }
  }

  // -- what happens to values --

  /** The tree itself, up to what the printer cannot show: a NULL name, an empty value, NULL children. */
  function Normal(e: Node): Node
    decreases e, 1
  {
    if e.Null? then Null else
    Elem(Some(NameOf(e)), if ValOf(e) == "" then None else Some(ValOf(e)), NormalKids(e.kids))
  }

  function NormalKids(kids: seq<Node>): seq<Node>
    decreases kids, 0
  {
    if kids == [] then [] else
    (if kids[0].Null? then [] else [Normal(kids[0])]) + NormalKids(kids[1..])
  }

  /** No leading white space, no byte 14. */
  predicate PlainVal(v: string) {
    v == "" || (!Space(v[0]) && 14 as char !in v)
  }

  predicate PlainVals(e: Node)
    decreases e, 1
  {
    e.Elem? ==> PlainVal(ValOf(e)) && PlainKidVals(e.kids)
  }

  predicate PlainKidVals(kids: seq<Node>)
    decreases kids, 0
  {
    kids == [] || (PlainVals(kids[0]) && PlainKidVals(kids[1..]))
  }

  lemma PlainValExact(v: string)
    ensures ReceivedVal(v) == (if v == "" then None else Some(v)) <==> PlainVal(v)
  {
    if v != "" && !Space(v[0]) {
      assert Trim(v) == v;
      if 14 as char in v {
        var i :| 0 <= i < |v| && v[i] == 14 as char;
        assert Restore(v)[i] != v[i];
      } else {
        assert Restore(v) == v;
      }
    } else if v != "" {
      assert |Trim(v)| < |v|;
    }
  }

  /** The received tree is the tree itself exactly when every value is plain. */
  lemma {:induction false} ReceivedExact(e: Node)
    ensures Received(e) == Normal(e) <==> PlainVals(e)
    decreases e, 1
  {
    if e.Elem? {
      hide ReceivedVal, PlainVal;
      PlainValExact(ValOf(e));
      ReceivedKidsExact(e.kids);
    }
  }

  lemma {:induction false} ReceivedKidsExact(kids: seq<Node>)
    ensures |ReceivedKids(kids)| == |NormalKids(kids)|
    ensures ReceivedKids(kids) == NormalKids(kids) <==> PlainKidVals(kids)
    decreases kids, 0
  {
    if kids != [] {
      ReceivedExact(kids[0]);
      ReceivedKidsExact(kids[1..]);
      hide Received, Normal;
      var r, n := ReceivedKids(kids), NormalKids(kids);
      if kids[0].Elem? {
        assert r[0] == Received(kids[0]) && r[1..] == ReceivedKids(kids[1..]);
        assert n[0] == Normal(kids[0]) && n[1..] == NormalKids(kids[1..]);
      } else {
        assert r == ReceivedKids(kids[1..]) && n == NormalKids(kids[1..]);
        NullPlain(kids[0]);
      }
    }
  }

  lemma NullPlain(e: Node)
    requires e.Null?
    ensures PlainVals(e) && Received(e) == Normal(e)
  {
  }
}

/** MXMLSetVal's escaping (src/cmds/MXML.c:492-666) and what the receiver can make of it. */
module MxmlEscape {
  import opened Common
  import opened MxmlTree
  import opened MxmlParse
  import opened MxmlRoundTrip

  function Entity(c: char): (r: string)
    ensures 1 <= |r| <= 6
  {
    match c
    case '<' => "&lt;"
    case '>' => "&gt;"
    case '&' => "&amp;"
    case '"' => "&quot;"
    case '\'' => "&apos;"
    case _ => [c]
  }

  function Escape(t: string): string {
    if t == "" then "" else Entity(t[0]) + Escape(t[1..])
  }

  /** The predefined entities of section 4.6 of XML 1.0, read back; anything else stands for itself. */
  function Unescape(s: string): string {
    if s == "" then ""
    else if "&lt;" <= s then "<" + Unescape(s[4..])
    else if "&gt;" <= s then ">" + Unescape(s[4..])
    else if "&amp;" <= s then "&" + Unescape(s[5..])
    else if "&quot;" <= s then "\"" + Unescape(s[6..])
    else if "&apos;" <= s then "'" + Unescape(s[6..])
    else [s[0]] + Unescape(s[1..])
  }

  lemma NoPrefix(w: string, s: string, i: nat)
    requires i < |w| && i < |s| && w[i] != s[i]
    ensures !(w <= s)
  {
  }

  lemma UnescapeEntity(c: char, s: string)
    ensures Unescape(Entity(c) + s) == [c] + Unescape(s)
  {
    var w := Entity(c);
    var x := w + s;
    assert x[|w|..] == s && w <= x && x[0] == w[0];
    if w == [c] {
      NoPrefix("&lt;", x, 0);
      NoPrefix("&gt;", x, 0);
      NoPrefix("&amp;", x, 0);
      NoPrefix("&quot;", x, 0);
      NoPrefix("&apos;", x, 0);
    } else {
      assert x[1] == w[1] && x[2] == w[2];
      if c != '<' { NoPrefix("&lt;", x, 1); }
      if c != '>' { NoPrefix("&gt;", x, 1); }
      if c != '&' { NoPrefix("&amp;", x, if c == '\'' then 2 else 1); }
      if c != '"' { NoPrefix("&quot;", x, 1); }
    }
  }

  /** Escaped text reads back as the text. */
  lemma {:induction false} UnescapeEscape(t: string)
    ensures Unescape(Escape(t)) == t
  {
    if t != "" {
      UnescapeEntity(t[0], Escape(t[1..]));
      UnescapeEscape(t[1..]);
    }
  }

  /** Byte 14 is not escaped, so restoring after escaping is restoring before. */
  lemma {:induction false} UnescapeRestored(t: string)
    ensures Unescape(Restore(Escape(t))) == Restore(t)
  {
    if t == "" {
      assert Restore(t) == "" && Restore(Escape(t)) == "";
    } else {
      var c, w, r := t[0], Entity(t[0]), Escape(t[1..]);
      UnescapeRestored(t[1..]);
      assert Escape(t) == w + r;
      hide Unescape, Restore, Entity, Escape;
      RestoreCat(w, r);
      RestoreCat([c], t[1..]);
      RestoreEntity(c);
      assert t == [c] + t[1..];
      if c == 14 as char {
        UnescapeRaw(Restore(r));
      } else {
        UnescapeEntity(c, Restore(r));
      }
    }
  }

  lemma RestoreCat(a: string, b: string)
    ensures Restore(a + b) == Restore(a) + Restore(b)
  {
  }

  lemma RestoreEntity(c: char)
    ensures c == 14 as char ==> Restore(Entity(c)) == "<" && Restore([c]) == "<"
    ensures c != 14 as char ==> Restore(Entity(c)) == Entity(c) && Restore([c]) == [c]
  {
  }

  /** A raw '<' stands for itself. */
  lemma UnescapeRaw(s: string)
    ensures Unescape("<" + s) == "<" + Unescape(s)
  {
    var x := "<" + s;
    NoPrefix("&lt;", x, 0);
    NoPrefix("&gt;", x, 0);
    NoPrefix("&amp;", x, 0);
    NoPrefix("&quot;", x, 0);
    NoPrefix("&apos;", x, 0);
    assert x[1..] == s;
  }

  lemma TrimHead(v: string)
    requires v != ""
    ensures Trim(v) == if Space(v[0]) then Trim(v[1..]) else v
  {
  }

  lemma {:induction false} TrimEscape(t: string)
    ensures Trim(Escape(t)) == Escape(Trim(t))
    ensures t != "" ==> Escape(t) != ""
  {
    if t == "" {
      assert Trim("") == "";
    } else {
      hide *;
      var c, w, r := t[0], Entity(t[0]), Escape(t[1..]);
      EntityHead(c);
      EscapeCons(t);
      assert Space(c) ==> (w + r)[1..] == r;
      TrimEscape(t[1..]);
      TrimHead(t);
      TrimHead(w + r);
    }
  }

  lemma EscapeCons(t: string)
    requires t != ""
    ensures Escape(t) == Entity(t[0]) + Escape(t[1..])
  {
  }

  lemma EntityHead(c: char)
    ensures Space(Entity(c)[0]) <==> Space(c)
    ensures Space(c) ==> Entity(c) == [c]
  {
  }

  predicate NoMarkup(t: string) {
    forall i :: 0 <= i < |t| ==> t[i] != '<' && t[i] != '>' && t[i] != '"' && t[i] != '\''
  }

  lemma EntityClean(c: char)
    ensures NoMarkup(Entity(c))
  {
  }

  /** MXMLSetVal leaves no raw '<', '>' or quote. */
  lemma {:induction false} EscapeHasNoTag(t: string)
    ensures NoMarkup(Escape(t)) && '<' !in Escape(t)
  {
    if t != "" {
      EscapeHasNoTag(t[1..]);
      EntityClean(t[0]);
      hide Entity;
    }
  }

  /** It changes no text without the five characters it replaces. */
  lemma {:induction false} EscapePlain(t: string)
    requires NoMarkup(t) && '&' !in t
    ensures Escape(t) == t
  {
    if t != "" {
      EscapePlain(t[1..]);
      assert t == [t[0]] + t[1..] && t[0] != '&';
    }
  }

  /**
    The text a receiver reads, for any text given to MXMLSetVal: leading white space is lost and
    byte 14 turns into '<'; nothing else changes.
   */
  lemma ReceivedText(t: string)
    ensures var r := ReceivedVal(Escape(t));
            (if r.None? then "" else Unescape(r.value)) == Restore(Trim(t))
  {
    TrimEscape(t);
    TrimEscape(Trim(t));
    UnescapeRestored(Trim(t));
  }

  /** MXMLSetVal (string format): escape into a buffer that grows by MMAX_LINE when space runs short. */
  method SetVal(text: string) returns (val: string)
    ensures val == Escape(text)
  {
    hide Entity;
    var outbuf := new char[MMAX_LINE];
    var len, i := 0, 0;
    assert text[0..] == text;
    while i < |text|
      invariant 0 <= i <= |text|
      invariant fresh(outbuf) && 0 <= len < outbuf.Length
      invariant outbuf[..len] + Escape(text[i..]) == Escape(text)
    {
      ghost var done := outbuf[..len];
      if len + 7 >= outbuf.Length {
        outbuf := Realloc(outbuf, outbuf.Length + MMAX_LINE);
      }
      var w := Entity(text[i]);
      assert Escape(text[i..]) == w + Escape(text[i + 1..]) by { assert text[i..][1..] == text[i + 1..]; }
      Append(outbuf, len, w);
      len := len + |w|;
      assert outbuf[..len] == done + w;
      i := i + 1;
    }
    outbuf[len] := '\0';
    assert text[i..] == "";
    val := outbuf[..len];
  }

  method Realloc(a: array<char>, size: nat) returns (b: array<char>)
    requires a.Length <= size
    ensures fresh(b) && b.Length == size && forall j :: 0 <= j < a.Length ==> b[j] == a[j]
  {
    b := new char[size];
    for i := 0 to a.Length
      invariant forall j :: 0 <= j < i ==> b[j] == a[j]
    {
      b[i] := a[i];
    }
  }

  method Append(a: array<char>, at: nat, w: string)
    requires at + |w| <= a.Length
    modifies a
    ensures a[..at + |w|] == old(a[..at]) + w
  {
    for i := 0 to |w|
      invariant forall j :: 0 <= j < at ==> a[j] == old(a[j])
      invariant forall j :: 0 <= j < i ==> a[at + j] == w[j]
    {
      a[at + i] := w[i];
    }
  }
}

/** Whole trees of escaped texts: printed, parsed and un-escaped. */
module MxmlMessage {
  import opened Common
  import opened MxmlTree
  import opened MxmlParse
  import opened MxmlRoundTrip
  import opened MxmlEscape

  function OnVal(v: Option<string>, f: string -> string): Option<string> {
    if v.None? then None else Some(f(v.value))
  }

  /** The tree whose values MXMLSetVal made from the texts of `e`. */
  function Escaped(e: Node): Node
    decreases e, 1
  {
    if e.Null? then Null else Elem(e.name, OnVal(e.val, Escape), EscapedKids(e.kids))
  }

  function EscapedKids(kids: seq<Node>): (r: seq<Node>)
    ensures |r| == |kids|
    decreases kids, 0
  {
    if kids == [] then [] else [Escaped(kids[0])] + EscapedKids(kids[1..])
  }

  function Unescaped(e: Node): Node
    decreases e, 1
  {
    if e.Null? then Null else Elem(e.name, OnVal(e.val, Unescape), UnescapedKids(e.kids))
  }

  function UnescapedKids(kids: seq<Node>): (r: seq<Node>)
    ensures |r| == |kids|
    decreases kids, 0
  {
    if kids == [] then [] else [Unescaped(kids[0])] + UnescapedKids(kids[1..])
  }

  /** Every escaped text, leading white space aside, fits the parser's value buffer. */
  predicate Short(e: Node)
    decreases e, 1
  {
    e.Elem? ==> |Trim(Escape(ValOf(e)))| <= MMAX_XBUFFER && ShortKids(e.kids)
  }

  predicate ShortKids(kids: seq<Node>)
    decreases kids, 0
  {
    kids == [] || (Short(kids[0]) && ShortKids(kids[1..]))
  }

  lemma ReceivedEscaped(t: string)
    ensures OnVal(ReceivedVal(Escape(t)), Unescape) == ReceivedVal(t)
  {
    TrimEscape(t);
    TrimEscape(Trim(t));
    UnescapeRestored(Trim(t));
    assert Escape("") == "";
  }

  lemma EscapedParts(e: Node)
    requires e.Elem?
    ensures ValOf(Escaped(e)) == Escape(ValOf(e)) && NameOf(Escaped(e)) == NameOf(e)
  {
  }

  lemma {:induction false} EscapedGood(e: Node)
    ensures GoodNames(Escaped(e)) <==> GoodNames(e)
    ensures NoTags(Escaped(e)) && (ShortVals(Escaped(e)) <==> Short(e))
    decreases e, 1
  {
    if e.Elem? {
      hide GoodName, Escape, Trim;
      EscapedParts(e);
      EscapeHasNoTag(ValOf(e));
      EscapedKidsGood(e.kids);
    }
  }

  lemma {:induction false} EscapedKidsGood(kids: seq<Node>)
    ensures GoodKidNames(EscapedKids(kids)) <==> GoodKidNames(kids)
    ensures NoKidTags(EscapedKids(kids)) && (ShortKidVals(EscapedKids(kids)) <==> ShortKids(kids))
    decreases kids, 0
  {
    if kids != [] {
      EscapedGood(kids[0]);
      EscapedKidsGood(kids[1..]);
      hide Escaped, GoodNames, NoTags, ShortVals, Short;
      var r := EscapedKids(kids);
      assert r[0] == Escaped(kids[0]) && r[1..] == EscapedKids(kids[1..]);
    }
  }

  /** Escaping before and un-escaping after leave what the receiver sees of the plain texts. */
  lemma {:induction false} EscapingInvisible(e: Node)
    ensures Unescaped(Received(Escaped(e))) == Received(e)
    decreases e, 1
  {
    if e.Elem? {
      hide ReceivedVal, Escape, Unescape;
      EscapedParts(e);
      ReceivedEscaped(ValOf(e));
      EscapingInvisibleKids(e.kids);
    }
  }

  lemma {:induction false} EscapingInvisibleKids(kids: seq<Node>)
    ensures UnescapedKids(ReceivedKids(EscapedKids(kids))) == ReceivedKids(kids)
    decreases kids, 0
  {
    if kids != [] {
      var r := EscapedKids(kids);
      EscapingInvisible(kids[0]);
      EscapingInvisibleKids(kids[1..]);
      assert r[0] == Escaped(kids[0]) && r[1..] == EscapedKids(kids[1..]);
      assert Escaped(kids[0]).Null? <==> kids[0].Null?;
      hide Escaped, Received, Unescaped;
      var q := ReceivedKids(r);
      if kids[0].Elem? {
        assert q == [Received(r[0])] + ReceivedKids(r[1..]);
        assert q[0] == Received(r[0]) && q[1..] == ReceivedKids(r[1..]);
      } else {
        assert q == ReceivedKids(r[1..]);
      }
    }
  }

  /**
    A tree of texts, escaped, printed between any prefix and suffix, parsed and un-escaped: it is
    received in full, with the parser stopping at the suffix, just when its names are good and its
    escaped texts fit; and then the texts come back as given just when none starts with white space
    or holds byte 14.
   */
  lemma Delivered(e: Node, prefix: string, suffix: string)
    requires e.Elem?
    ensures var text := Print(Escaped(e));
            var got := Parse(prefix + text + suffix, |prefix|);
            && (got == Parsed(Received(Escaped(e)), |prefix| + |text|) <==> GoodNames(e) && Short(e))
            && (GoodNames(e) && Short(e) ==> (Unescaped(got.node) == Normal(e) <==> PlainVals(e)))
  {
    EscapedGood(e);
    RoundTrip(Escaped(e), prefix, suffix);
    EscapingInvisible(e);
    ReceivedExact(e);
    hide *;
  }
}
