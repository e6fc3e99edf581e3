/**
  The input lines of qmgr as they are written: commands of bare characters and quoted runs, separated
  by `;` and white space, and perhaps a comment behind the last one (src/cmds/qmgr.c:1928-2033).
  Every line is written so, and splitting it gives back its commands.
 */
module QmgrLine {
  import opened Common
  import opened QmgrSplit
  import opened QmgrLoss

  datatype Bit = Bare(c: char) | Quoted(q: char, body: string)
  datatype Part = Part(bits: seq<Bit>, gap: string)

  /** How a line ends: with its last command, a comment, a quote left open, or a `;` and white space. */
  datatype End = Plain | Comment(text: string) | Unclosed(q: char, body: string) | Blank(gap: string)
  datatype Line = Line(parts: seq<Part>, last: seq<Bit>, end: End)

  predicate Delimits(q: char, body: string) {
    (q == '"' || q == '\'') && q !in body
  }

  predicate GoodBit(b: Bit) {
    match b
    case Bare(c) => c != '"' && c != '\'' && c != ';' && c != '#'
    case Quoted(q, body) => Delimits(q, body)
  }

  predicate GoodBits(bs: seq<Bit>) {
    forall i :: 0 <= i < |bs| ==> GoodBit(bs[i])
  }

  function BitText(b: Bit): string {
    match b
    case Bare(c) => [c]
    case Quoted(q, body) => [q] + body + [q]
  }

  function BitsText(bs: seq<Bit>): string {
    if bs == [] then "" else BitText(bs[0]) + BitsText(bs[1..])
  }

  function EndText(e: End): string {
    match e
    case Plain => ""
    case Comment(text) => "#" + text
    case Unclosed(q, body) => [q] + body
    case Blank(gap) => ";" + gap
  }

  function LineText(l: Line): string
    decreases |l.parts|
  {
    if l.parts == [] then BitsText(l.last) + EndText(l.end)
    else BitsText(l.parts[0].bits) + (";" + l.parts[0].gap + LineText(Line(l.parts[1..], l.last, l.end)))
  }

  predicate GoodEnd(e: End) {
    match e
    case Unclosed(q, body) => Delimits(q, body)
    case Blank(gap) => AllSpace(gap)
    case _ => true
  }

  /** White space after a `;` belongs to the gap. */
  predicate GoodLine(l: Line)
    decreases |l.parts|
  {
    if l.parts == [] then GoodBits(l.last) && GoodEnd(l.end)
    else
      var tail := Line(l.parts[1..], l.last, l.end);
      && GoodBits(l.parts[0].bits) && AllSpace(l.parts[0].gap)
      && LineText(tail) != "" && !Space(LineText(tail)[0]) && GoodLine(tail)
  }

  /** The commands as written: an open quote belongs to the last one, and a comment to none. */
  function LineCommands(l: Line): (cs: seq<string>)
    ensures |cs| == |l.parts| + 1
    decreases |l.parts|
  {
    if l.parts == [] then [BitsText(l.last) + if l.end.Unclosed? then EndText(l.end) else ""]
    else [BitsText(l.parts[0].bits)] + LineCommands(Line(l.parts[1..], l.last, l.end))
  }

  // -- quotes and separators in a written command --

  lemma {:induction false} InsideQuotes(s: string, a: nat, n: nat)
    requires a + n <= |s| && Quoting(s, a) != '\0' && forall j :: a <= j < a + n ==> s[j] != Quoting(s, a)
    ensures forall j :: a <= j <= a + n ==> Quoting(s, j) == Quoting(s, a)
  {
    if n > 0 {
      InsideQuotes(s, a, n - 1);
      assert Quoting(s, a + n - 1) == Quoting(s, a);
    }
  }

  lemma QuoteOpens(s: string, a: nat, q: char, body: string)
    requires Delimits(q, body) && a + 1 + |body| <= |s| && Quoting(s, a) == '\0'
    requires s[a] == q && s[a + 1..a + 1 + |body|] == body
    ensures forall j :: a <= j < a + 1 + |body| ==> !EndsAt(s, j)
    ensures Quoting(s, a + 1 + |body|) == q
  {
    assert Quoting(s, a + 1) == q;
    forall j | a + 1 <= j < a + 1 + |body| ensures s[j] != q {
      assert s[j] == s[a + 1..a + 1 + |body|][j - a - 1];
    }
    InsideQuotes(s, a + 1, |body|);
  }

  predicate Occurs(s: string, a: nat, t: string) {
    a + |t| <= |s| && s[a..a + |t|] == t
  }

  lemma OccursSplit(s: string, a: nat, x: string, y: string)
    requires Occurs(s, a, x + y)
    ensures Occurs(s, a, x) && Occurs(s, a + |x|, y)
  {
    var t := x + y;
    assert s[a..a + |x|] == s[a..a + |t|][..|x|];
    assert s[a + |x|..a + |t|] == s[a..a + |t|][|x|..];
  }

  /** A text at position `a`, outside quotes, that closes its quotes and has no end inside it. */
  predicate Scanned(s: string, a: nat, n: nat) {
    && a + n <= |s| && Quoting(s, a) == '\0' && Quoting(s, a + n) == '\0'
    && forall j :: a <= j < a + n ==> !EndsAt(s, j)
  }

  lemma BitScanned(s: string, a: nat, b: Bit)
    requires GoodBit(b) && Occurs(s, a, BitText(b)) && Quoting(s, a) == '\0'
    ensures Scanned(s, a, |BitText(b)|)
  {
    if b.Quoted? {
      var q, n := b.q, |b.body|;
      OccursSplit(s, a, [q] + b.body, [q]);
      OccursSplit(s, a, [q], b.body);
      assert s[a] == s[a..a + 1][0] && s[a + 1 + n] == s[a + 1 + n..a + 2 + n][0];
      QuoteOpens(s, a, q, b.body);
    } else {
      assert s[a] == s[a..a + 1][0];
    }
  }

  lemma BothScanned(s: string, a: nat, m: nat, n: nat)
    requires Scanned(s, a, m) && Scanned(s, a + m, n)
    ensures Scanned(s, a, m + n)
  {
    hide Quoting, EndsAt;
  }

  lemma NoneScanned(s: string, a: nat)
    requires a <= |s| && Quoting(s, a) == '\0'
    ensures Scanned(s, a, 0)
  {
    hide Quoting, EndsAt;
  }

  lemma BitsStep(bs: seq<Bit>)
    requires GoodBits(bs)
    ensures BitsText(bs) == if bs == [] then "" else BitText(bs[0]) + BitsText(bs[1..])
    ensures bs != [] ==> GoodBit(bs[0]) && GoodBits(bs[1..])
  {
    hide GoodBit, BitText;
  }

  lemma {:induction false} BitsScanned(s: string, a: nat, bs: seq<Bit>)
    requires GoodBits(bs) && Occurs(s, a, BitsText(bs)) && a <= |s| && Quoting(s, a) == '\0'
    ensures Scanned(s, a, |BitsText(bs)|)
    decreases |bs|
  {
    hide *;
    BitsStep(bs);
    if bs == [] {
      NoneScanned(s, a);
    } else {
      var x, y := BitText(bs[0]), BitsText(bs[1..]);
      OccursSplit(s, a, x, y);
      BitScanned(s, a, bs[0]);
      BitsScanned(s, a + |x|, bs[1..]);
      BothScanned(s, a, |x|, |y|);
    }
  }

  /** A written command ends where the text behind it says so. */
  lemma CutAfter(bs: seq<Bit>, x: string)
    requires GoodBits(bs) && (x == "" || x[0] == ';' || x[0] == '#')
    ensures CutFrom(BitsText(bs) + x, 0) == |BitsText(bs)|
  {
    var t := BitsText(bs);
    var s := t + x;
    assert s[0..|t|] == t;
    BitsScanned(s, 0, bs);
    assert x != "" ==> s[|t|] == x[0];
    CutIs(s, |t|);
  }

  lemma CutUnclosed(bs: seq<Bit>, q: char, body: string)
    requires GoodBits(bs) && Delimits(q, body)
    ensures var s := BitsText(bs) + ([q] + body); CutFrom(s, 0) == |s|
  {
    var t := BitsText(bs);
    var s := t + ([q] + body);
    assert s[0..|t|] == t && s[|t|] == q && s[|t| + 1..|t| + 1 + |body|] == body;
    BitsScanned(s, 0, bs);
    QuoteOpens(s, |t|, q, body);
    CutIs(s, |s|);
  }

  lemma RestAfter(s: string, a: string, gap: string, x: string)
    requires s == a + (";" + gap + x) && CutFrom(s, 0) == |a| && AllSpace(gap) && (x == "" || !Space(x[0]))
    ensures Rest(s) == x && s[..|a|] == a
  {
    hide CutFrom;
    assert s[|a|] == ';' && s[|a| + 1..] == gap + x;
    TrimOver(gap, x);
    hide Trim;
  }

  /** The last command of a line. */
  lemma LastCommand(l: Line)
    requires GoodLine(l) && l.parts == []
    ensures var s := LineText(l); Rest(s) == "" && [s[..CutFrom(s, 0)]] == LineCommands(l)
  {
    var a, x := BitsText(l.last), EndText(l.end);
    var s := LineText(l);
    assert s == a + x && a + "" == a;
    match l.end {
      case Unclosed(q, body) =>
        CutUnclosed(l.last, q, body);
        assert s[..|s|] == s;
      case Blank(gap) =>
        CutAfter(l.last, x);
        assert s == a + (";" + gap + "");
        RestAfter(s, a, gap, "");
      case Plain =>
        CutAfter(l.last, x);
        assert s[..|a|] == a;
      case Comment(text) =>
        CutAfter(l.last, x);
        assert s[..|a|] == a && s[|a|] == '#';
    }
  }

  /** The first of several. */
  lemma FirstCommand(l: Line)
    requires GoodLine(l) && l.parts != []
    ensures var s, tail := LineText(l), Line(l.parts[1..], l.last, l.end);
            GoodLine(tail) && Rest(s) == LineText(tail) != "" && [s[..CutFrom(s, 0)]] + LineCommands(tail) == LineCommands(l)
  {
    var p, tail := l.parts[0], Line(l.parts[1..], l.last, l.end);
    var x := ";" + p.gap + LineText(tail);
    assert x[0] == ';';
    CutAfter(p.bits, x);
    RestAfter(LineText(l), BitsText(p.bits), p.gap, LineText(tail));
  }

  /** Splitting a line gives the commands it was written from. */
  lemma {:induction false} CommandsOfLine(l: Line)
    requires GoodLine(l)
    ensures Commands(LineText(l)) == LineCommands(l)
    decreases |l.parts|
  {
    hide CutFrom, Rest, LineText, GoodLine, LineCommands, Returned, Kept;
    CommandsStep(LineText(l));
    if l.parts == [] {
      LastCommand(l);
    } else {
      FirstCommand(l);
      CommandsOfLine(Line(l.parts[1..], l.last, l.end));
    }
  }

  /** At every `;` what follows the white space is less than half of what there is of the line. */
  predicate Halving(l: Line)
    decreases |l.parts|
  {
    l.parts != [] ==>
      var tail := Line(l.parts[1..], l.last, l.end);
      2 * |LineText(tail)| < |LineText(l)| && Halving(tail)
  }

  /** The calls return the commands of a line with one command, or of one that halves. */
  lemma {:induction false} ReturnedOfLine(l: Line)
    requires GoodLine(l) && Halving(l)
    ensures Returned(LineText(l)) == LineCommands(l)
    decreases |l.parts|
  {
    hide CutFrom, Rest, LineText, GoodLine, LineCommands, Commands, Kept;
    CommandsStep(LineText(l));
    if l.parts == [] {
      LastCommand(l);
    } else {
      FirstCommand(l);
      KeptExact(LineText(l));
      ReturnedOfLine(Line(l.parts[1..], l.last, l.end));
    }
  }

  /** The first command of a line is open only when it is the last and its quote is left open. */
  lemma ClosedLine(l: Line)
    requires GoodLine(l) && (l.parts != [] || !l.end.Unclosed?)
    ensures !Open(LineText(l))
  {
    var s := LineText(l);
    if l.parts != [] {
      FirstCommand(l);
      assert CutFrom(s, 0) < |s|;
    } else {
      var a, x := BitsText(l.last), EndText(l.end);
      CutAfter(l.last, x);
      if l.end.Plain? {
        assert s == a && s[0..|a|] == a;
        BitsScanned(s, 0, l.last);
      }
    }
  }

  /** Calling get_request until the buffer is empty returns the commands the line was written from. */
  method DrainWritten(b: LineBuffer, ghost l: Line) returns (r: Option<seq<string>>)
    requires b.Valid() && b.Text() == LineText(l) && GoodLine(l) && Halving(l)
    requires l.parts != [] || !l.end.Unclosed?
    modifies b, b.line
    ensures r == Some(LineCommands(l))
  {
    hide *;
    ClosedLine(l);
    ReturnedOfLine(l);
    r := DrainLine(b);
  }

  // -- every line is written so --

  predicate Stops(x: string) {
    x == "" || x[0] == ';' || x[0] == '#' || Delimits(x[0], x[1..])
  }

  lemma NoQuote(t: string, q: char)
    ensures QuoteLen(t, q) < |t| || q !in t
  {
    QuoteIsText(t, q);
    assert t[..|t|] == t;
  }

  lemma FirstBit(s: string) returns (b: Bit, n: nat)
    requires !Stops(s)
    ensures 0 < n <= |s| && GoodBit(b) && BitText(b) == s[..n]
  {
    b, n := Bare(s[0]), 1;
    if s[0] == '"' || s[0] == '\'' {
      var m := QuoteLen(s[1..], s[0]);
      QuoteIsText(s[1..], s[0]);
      NoQuote(s[1..], s[0]);
      b, n := Quoted(s[0], s[1..][..m]), m + 2;
      assert s[..n] == [s[0]] + s[1..][..m] + [s[m + 1]];
    }
  }

  lemma BitsAfter(b: Bit, more: seq<Bit>)
    requires GoodBit(b) && GoodBits(more)
    ensures GoodBits([b] + more) && BitsText([b] + more) == BitText(b) + BitsText(more)
  {
    var bs := [b] + more;
    assert bs[0] == b && bs[1..] == more;
    hide GoodBit, BitText;
  }

  lemma ThreeTexts(s: string, n: nat, a: string, b: string, x: string)
    requires n <= |s| && s[..n] == a && s[n..] == b + x
    ensures s == a + b + x
  {
    assert s == s[..n] + s[n..];
  }

  lemma {:induction false} ReadBits(s: string) returns (bs: seq<Bit>, x: string)
    ensures GoodBits(bs) && s == BitsText(bs) + x && Stops(x)
    decreases |s|
  {
    bs, x := [], s;
    if !Stops(s) {
      var b, n := FirstBit(s);
      var more;
      more, x := ReadBits(s[n..]);
      hide *;
      bs := [b] + more;
      BitsAfter(b, more);
      ThreeTexts(s, n, BitText(b), BitsText(more), x);
    }
  }

  /** A line of one command. */
  lemma OnePart(bs: seq<Bit>, x: string) returns (l: Line)
    requires GoodBits(bs) && Stops(x) && (x != "" && x[0] == ';' ==> AllSpace(x[1..]))
    ensures GoodLine(l) && LineText(l) == BitsText(bs) + x
  {
    var end := if x == "" then Plain else if x[0] == '#' then Comment(x[1..])
               else if x[0] == ';' then Blank(x[1..]) else Unclosed(x[0], x[1..]);
    assert x != "" ==> x == [x[0]] + x[1..];
    assert EndText(end) == x;
    l := Line([], bs, end);
  }

  lemma LineAfter(bs: seq<Bit>, gap: string, tail: Line) returns (l: Line)
    requires GoodBits(bs) && AllSpace(gap) && GoodLine(tail) && LineText(tail) != "" && !Space(LineText(tail)[0])
    ensures GoodLine(l) && LineText(l) == BitsText(bs) + (";" + gap + LineText(tail))
  {
    l := Line([Part(bs, gap)] + tail.parts, tail.last, tail.end);
    hide GoodBits, BitsText, AllSpace;
    assert l.parts[1..] == tail.parts;
    assert Line(l.parts[1..], l.last, l.end) == tail;
  }

  lemma {:induction false} EveryLineIsWritten(s: string) returns (l: Line)
    ensures GoodLine(l) && LineText(l) == s
    decreases |s|
  {
    var bs, x := ReadBits(s);
    hide GoodLine, LineText, GoodBits, BitsText, Stops, Trim;
    if x != "" && x[0] == ';' {
      var gap := TrimSplit(x[1..]);
      var more := Trim(x[1..]);
      assert x == ";" + x[1..] == ";" + gap + more && gap + "" == gap;
      if more != "" {
        var tail := EveryLineIsWritten(more);
        l := LineAfter(bs, gap, tail);
        return;
      }
    }
    l := OnePart(bs, x);
  }
}
