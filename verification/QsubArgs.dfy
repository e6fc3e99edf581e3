/**
  qsub's own command lines: make_argv splits a line as a shell does (src/cmds/qsub_functions.c:1511-1641).
 */
module QsubArgs {
  import opened Common

  /** Unmatched: a quote is not closed and qsub exits.  OffEnd: a final backslash; the terminator is stepped over. */
  datatype Args = Args(words: seq<string>) | Unmatched | OffEnd

  datatype Scan = Got(word: string, rest: string) | NoQuote | NoChar

  // -- what a line means --

  function Glue(w: string, s: Scan): Scan {
    if s.Got? then Got(w + s.word, s.rest) else s
  }

  /** The rest of a word, up to white space outside quotes. */
  function ReadWord(t: string): (s: Scan)
    ensures s.Got? ==> |s.word| + |s.rest| <= |t| && (s.rest == "" || Space(s.rest[0]))
    ensures s.Got? && t != "" && !Space(t[0]) ==> |s.rest| < |t|
  {
    if t == "" || Space(t[0]) then Got("", t)
    else if Quote(t[0]) then
      var w := t[1..];
      var k := QuoteLen(w, t[0]);
      if k == |w| then NoQuote else Glue(w[..k], ReadWord(w[k + 1..]))
    else if t[0] == '\\' then
      if |t| == 1 then NoChar else Glue([t[1]], ReadWord(t[2..]))
    else Glue([t[0]], ReadWord(t[1..]))
  }

  function Prepend(words: seq<string>, a: Args): Args {
    if a.Args? then Args(words + a.words) else a
  }

  /** The words of a line. */
  function Words(t: string): Args
    decreases |t|
  {
    var u := Trim(t);
    if u == "" then Args([]) else
    match ReadWord(u)
    case Got(w, rest) => Prepend([w], Words(rest))
    case NoQuote => Unmatched
    case NoChar => OffEnd
  }

  /** A word whose beginning `w` has been read, then the words behind it. */
  function After(w: string, s: Scan): Args {
    match s
    case Got(v, rest) => Prepend([w + v], Words(rest))
    case NoQuote => Unmatched
    case NoChar => OffEnd
  }

  // -- the code --

  lemma WordsTrim(t: string)
    ensures Words(Trim(t)) == Words(t)
  {
    assert Trim(Trim(t)) == Trim(t);
  }

  lemma WordsAfter(t: string)
    requires t != "" && !Space(t[0])
    ensures Words(t) == After("", ReadWord(t))
  {
    assert Trim(t) == t;
    var s := ReadWord(t);
    if s.Got? {
      assert "" + s.word == s.word;
    }
  }

  lemma AfterGlue(w: string, v: string, s: Scan)
    ensures After(w, Glue(v, s)) == After(w + v, s)
  {
    if s.Got? {
      assert w + (v + s.word) == (w + v) + s.word;
    }
  }

  lemma PrependTwo(a: seq<string>, w: string, r: Args)
    ensures Prepend(a, Prepend([w], r)) == Prepend(a + [w], r)
  {
    if r.Args? {
      assert a + ([w] + r.words) == (a + [w]) + r.words;
    }
  }

  /** One step of ReadWord at position `c` of the line. */
  lemma ReadQuote(line: string, c: nat, e: nat)
    requires c < |line| && Quote(line[c]) && e == c + 1 + QuoteLen(line[c + 1..], line[c])
    ensures ReadWord(line[c..]) == if e >= |line| then NoQuote else Glue(line[c + 1..e], ReadWord(line[e + 1..]))
  {
    hide QuoteLen;
    var t := line[c..];
    assert t[0] == line[c] && t[1..] == line[c + 1..];
    if e < |line| {
      assert t[1..][..e - c - 1] == line[c + 1..e] && t[1..][e - c..] == line[e + 1..];
    }
  }

  lemma ReadBackslash(line: string, c: nat)
    requires c < |line| && line[c] == '\\'
    ensures ReadWord(line[c..]) == if c + 1 == |line| then NoChar else Glue([line[c + 1]], ReadWord(line[c + 2..]))
  {
    var t := line[c..];
    assert t[0] == line[c];
    if c + 1 < |line| {
      assert t[1] == line[c + 1] && t[2..] == line[c + 2..];
    }
  }

  lemma ReadPlain(line: string, c: nat)
    requires c < |line| && !Quote(line[c]) && line[c] != '\\' && !Space(line[c])
    ensures ReadWord(line[c..]) == Glue([line[c]], ReadWord(line[c + 1..]))
  {
    var t := line[c..];
    assert t[0] == line[c] && t[1..] == line[c + 1..];
  }

  lemma ReadStop(line: string, c: nat)
    requires c <= |line| && (c == |line| || Space(line[c]))
    ensures ReadWord(line[c..]) == Got("", line[c..])
  {
    assert c < |line| ==> line[c..][0] == line[c];
  }

  /** What is still to come when the cursor is at `c` in a word that began at `l`. */
  ghost function Left(line: string, l: nat, c: nat, word: string): Args
    requires l <= c <= |line|
  {
    if c == l then Words(line[c..]) else After(word, ReadWord(line[c..]))
  }

  lemma LeftStarts(line: string, l: nat, c: nat)
    requires l == c < |line| && !Space(line[c])
    ensures Left(line, l, c, "") == After("", ReadWord(line[c..]))
  {
    assert line[c..][0] == line[c];
    WordsAfter(line[c..]);
  }

  /** The copying loop inside quotes. */
  method CopyQuoted(line: string, start: nat, q: char, buffer: array<char>, at: nat) returns (c: nat, b: nat)
    requires start <= |line| && at + |line| - start <= buffer.Length
    modifies buffer
    ensures c == start + QuoteLen(line[start..], q) && b == at + c - start
    ensures buffer[..b] == old(buffer[..at]) + line[start..c]
  {
    c, b := start, at;
    while c < |line| && line[c] != q
      invariant start <= c <= |line| && c + QuoteLen(line[c..], q) == start + QuoteLen(line[start..], q)
      invariant b == at + c - start && buffer[..b] == old(buffer[..at]) + line[start..c]
    {
      assert line[c..][0] == line[c] && line[c..][1..] == line[c + 1..];
      buffer[b] := line[c];
      assert buffer[..b + 1] == buffer[..b] + [line[c]];
      c, b := c + 1, b + 1;
    }
    assert c < |line| ==> line[c..][0] == line[c];
  }

  method Put(buffer: array<char>, b: nat, x: char)
    requires b < buffer.Length
    modifies buffer
    ensures buffer[..b + 1] == old(buffer[..b]) + [x]
  {
    buffer[b] := x;
  }

  /**
    make_argv.  The two assertions are the source's `len > 0` and that the word fits the `len + 1`
    bytes allocated for it.
   */
  method MakeArgv(line: string) returns (r: Args)
    ensures r == Prepend(["qsub"], Words(line))
  {
    hide Words, ReadWord, After, Trim, QuoteLen, Prepend, Glue;
    var buffer := new char[|line| + 1];
    var argv := ["qsub"];
    var l := SkipSpace(line, 0);
    assert line[0..] == line;
    WordsTrim(line);
    var c, b := l, 0;
    while c < |line|
      invariant l <= c <= |line| && 0 <= b <= c - l
      invariant c == l ==> b == 0 && (c < |line| ==> !Space(line[c]))
      invariant Prepend(argv, Left(line, l, c, buffer[..b])) == Prepend(["qsub"], Words(line))
      decreases |line| - c
    {
      ghost var word := buffer[..b];
      if c == l {
        LeftStarts(line, l, c);
      }
      if Quote(line[c]) {
        var q, from := line[c], c + 1;
        c, b := CopyQuoted(line, from, q, buffer, b);
        ReadQuote(line, from - 1, c);
        if c == |line| {
          FirstBad(argv, word);
          return Unmatched;
        }
        AfterGlue(word, line[from..c], ReadWord(line[c + 1..]));
        c := c + 1;
      } else if line[c] == '\\' {
        ReadBackslash(line, c);
        if c + 1 == |line| {
          FirstBad(argv, word);
          return OffEnd;
        }
        Put(buffer, b, line[c + 1]);
        AfterGlue(word, [line[c + 1]], ReadWord(line[c + 2..]));
        c, b := c + 2, b + 1;
      } else if Space(line[c]) {
        var len := c - l;
        assert len > 0;
        assert b <= len;
        WordEnds(line, l, c, word, argv);
        argv := argv + [buffer[..b]];
        c := SkipSpace(line, c);
        l, b := c, 0;
      } else {
        ReadPlain(line, c);
        Put(buffer, b, line[c]);
        AfterGlue(word, [line[c]], ReadWord(line[c + 1..]));
        c, b := c + 1, b + 1;
      }
    }
    if c != l {
      var len := c - l;
      assert len > 0;
      assert b <= len;
      WordEnds(line, l, c, buffer[..b], argv);
      argv := argv + [buffer[..b]];
    }
    NoneLeft(line, argv);
    return Args(argv);
  }

  lemma FirstBad(argv: seq<string>, word: string)
    ensures Prepend(argv, After(word, NoQuote)) == Unmatched && Prepend(argv, After(word, NoChar)) == OffEnd
  {
  }

  /** At white space, or at the end, the word is complete. */
  lemma WordEnds(line: string, l: nat, c: nat, word: string, argv: seq<string>)
    requires l < c <= |line| && (c == |line| || Space(line[c]))
    ensures Prepend(argv, Left(line, l, c, word)) == Prepend(argv + [word], Words(Trim(line[c..])))
  {
    ReadStop(line, c);
    WordsTrim(line[c..]);
    hide Words, ReadWord, Trim;
    assert word + "" == word;
    PrependTwo(argv, word, Words(line[c..]));
  }

  lemma NoneLeft(line: string, argv: seq<string>)
    ensures Prepend(argv, Words(line[|line|..])) == Args(argv)
    ensures Prepend(argv, Words(Trim(line[|line|..]))) == Args(argv)
  {
    assert line[|line|..] == "" && argv + [] == argv;
  }
}

/** Which lines make_argv accepts, and how any list of words can be written for it. */
module QsubQuoting {
  import opened Common
  import opened QsubArgs

  /** A plain character, a backslash and a character, or quoted text. */
  datatype Frag = Raw(c: char) | Escaped(c: char) | Quoted(q: char, text: string)

  predicate GoodFrag(f: Frag) {
    match f
    case Raw(c) => !Space(c) && !Quote(c) && c != '\\'
    case Escaped(_) => true
    case Quoted(q, text) => Quote(q) && q !in text
  }

  function Show(f: Frag): (s: string)
    ensures s != ""
  {
    match f
    case Raw(c) => [c]
    case Escaped(c) => ['\\', c]
    case Quoted(q, text) => [q] + text + [q]
  }

  function Value(f: Frag): string {
    match f
    case Raw(c) => [c]
    case Escaped(c) => [c]
    case Quoted(_, text) => text
  }

  function ShowWord(fs: seq<Frag>): string {
    if fs == [] then "" else Show(fs[0]) + ShowWord(fs[1..])
  }

  function WordValue(fs: seq<Frag>): string {
    if fs == [] then "" else Value(fs[0]) + WordValue(fs[1..])
  }

  /** A word and the white space behind it. */
  datatype Piece = Piece(frags: seq<Frag>, gap: string)

  predicate GoodPiece(p: Piece) {
    p.frags != [] && (forall f :: f in p.frags ==> GoodFrag(f)) && AllSpace(p.gap)
  }

  predicate GoodLine(ps: seq<Piece>) {
    && (forall i :: 0 <= i < |ps| ==> GoodPiece(ps[i]))
    && (forall i :: 0 <= i < |ps| - 1 ==> ps[i].gap != "")
  }

  function ShowLine(ps: seq<Piece>): string {
    if ps == [] then "" else ShowWord(ps[0].frags) + ps[0].gap + ShowLine(ps[1..])
  }

  function Values(ps: seq<Piece>): (ws: seq<string>)
    ensures |ws| == |ps|
  {
    if ps == [] then [] else [WordValue(ps[0].frags)] + Values(ps[1..])
  }

  // -- written lines are read back --

  lemma ReadQuotedFrag(q: char, text: string, rest: string)
    requires Quote(q) && q !in text
    ensures ReadWord([q] + text + [q] + rest) == Glue(text, ReadWord(rest))
  {
    var t := [q] + text + [q] + rest;
    QuoteOver(text, q, rest);
    hide ReadWord, QuoteLen, Glue;
    var e := 1 + |text|;
    assert t[1..] == text + ([q] + rest);
    assert t[0..] == t && t[1..e] == text && t[e + 1..] == rest;
    ReadQuote(t, 0, e);
  }

  lemma ReadFrag(f: Frag, rest: string)
    requires GoodFrag(f)
    ensures ReadWord(Show(f) + rest) == Glue(Value(f), ReadWord(rest))
  {
    hide ReadWord, Glue;
    match f {
      case Raw(c) =>
        var t := [c] + rest;
        assert t[0..] == t && t[1..] == rest;
        ReadPlain(t, 0);
      case Escaped(c) =>
        var t := ['\\', c] + rest;
        assert t[0..] == t && t[2..] == rest;
        ReadBackslash(t, 0);
      case Quoted(q, text) =>
        ReadQuotedFrag(q, text, rest);
    }
  }

  lemma {:induction false} ReadShown(fs: seq<Frag>, rest: string)
    requires (forall f :: f in fs ==> GoodFrag(f)) && (rest == "" || Space(rest[0]))
    ensures ReadWord(ShowWord(fs) + rest) == Got(WordValue(fs), rest)
  {
    hide ReadWord, Show, Value, GoodFrag;
    if fs == [] {
      assert ShowWord(fs) + rest == rest && rest[0..] == rest;
      ReadStop(rest, 0);
    } else {
      ReadShown(fs[1..], rest);
      var more := ShowWord(fs[1..]) + rest;
      assert ShowWord(fs) + rest == Show(fs[0]) + more;
      ReadFrag(fs[0], more);
    }
  }

  lemma WordsBlank(gap: string, rest: string)
    requires AllSpace(gap)
    ensures Words(gap + rest) == Words(rest)
  {
    TrimOver(gap, rest);
    WordsTrim(gap + rest);
    WordsTrim(rest);
  }

  lemma ShownHead(fs: seq<Frag>, rest: string)
    requires fs != [] && forall f :: f in fs ==> GoodFrag(f)
    ensures var t := ShowWord(fs) + rest; t != "" && !Space(t[0])
  {
    assert GoodFrag(fs[0]);
    assert (ShowWord(fs) + rest)[0] == Show(fs[0])[0];
  }

  lemma LineParts(ps: seq<Piece>)
    requires ps != [] && GoodLine(ps)
    ensures GoodPiece(ps[0]) && GoodLine(ps[1..])
    ensures var rest := ps[0].gap + ShowLine(ps[1..]);
            ShowLine(ps) == ShowWord(ps[0].frags) + rest && (rest == "" || Space(rest[0]))
  {
    hide ShowWord;
    assert GoodPiece(ps[0]);
    if ps[0].gap == "" {
      assert ps[1..] == [];
    }
  }

  /** Every written line comes back as its words. */
  lemma {:induction false} Complete(lead: string, ps: seq<Piece>)
    requires AllSpace(lead) && GoodLine(ps)
    ensures Words(lead + ShowLine(ps)) == Args(Values(ps))
    decreases ps
  {
    WordsBlank(lead, ShowLine(ps));
    if ps == [] {
      assert ShowLine(ps) == "";
    } else {
      LineParts(ps);
      hide Words, ReadWord, ShowLine, ShowWord, WordValue, GoodLine;
      var p := ps[0];
      var rest := p.gap + ShowLine(ps[1..]);
      Complete(p.gap, ps[1..]);
      ReadShown(p.frags, rest);
      ShownHead(p.frags, rest);
      WordsAfter(ShowWord(p.frags) + rest);
      assert "" + WordValue(p.frags) == WordValue(p.frags);
    }
  }

  // -- every accepted line is a written line --

  lemma {:induction false} WordSound(t: string) returns (fs: seq<Frag>)
    requires ReadWord(t).Got?
    ensures forall f :: f in fs ==> GoodFrag(f)
    ensures t == ShowWord(fs) + ReadWord(t).rest && WordValue(fs) == ReadWord(t).word
    ensures t != "" && !Space(t[0]) ==> fs != []
    decreases |t|
  {
    hide ReadWord, Show, Value, GoodFrag, ShowWord, WordValue;
    if t == "" || Space(t[0]) {
      fs := [];
      NoFrags(t);
    } else {
      var f, rest := FirstFrag(t);
      var more := WordSound(rest);
      fs := WordCons(f, more);
      assert Show(f) + (ShowWord(more) + ReadWord(rest).rest) == (Show(f) + ShowWord(more)) + ReadWord(rest).rest;
    }
  }

  lemma NoFrags(t: string)
    requires t == "" || Space(t[0])
    ensures ReadWord(t) == Got("", t) && ShowWord([]) + t == t && WordValue([]) == ""
  {
    assert ShowWord([]) == "";
  }

  lemma WordCons(f: Frag, more: seq<Frag>) returns (fs: seq<Frag>)
    ensures fs == [f] + more && ShowWord(fs) == Show(f) + ShowWord(more) && WordValue(fs) == Value(f) + WordValue(more)
  {
    fs := [f] + more;
    assert fs[1..] == more;
  }

  lemma FirstFrag(t: string) returns (f: Frag, rest: string)
    requires ReadWord(t).Got? && t != "" && !Space(t[0])
    ensures GoodFrag(f) && t == Show(f) + rest && ReadWord(t) == Glue(Value(f), ReadWord(rest))
  {
    hide ReadWord, QuoteLen;
    assert t[0..] == t;
    if Quote(t[0]) {
      var ends;
      f, rest, ends := QuoteOrBreak(t);
    } else if t[0] == '\\' {
      ReadBackslash(t, 0);
      f, rest := Escaped(t[1]), t[2..];
    } else {
      ReadPlain(t, 0);
      f, rest := Raw(t[0]), t[1..];
    }
  }

  lemma WordsStep(t: string)
    requires Words(t).Args? && Trim(t) != ""
    ensures ReadWord(Trim(t)).Got?
    ensures var s := ReadWord(Trim(t)); |s.rest| < |t| && Words(s.rest).Args? && Words(t).words == [s.word] + Words(s.rest).words
  {
    hide ReadWord;
    var s := ReadWord(Trim(t));
    assert s.Got?;
  }

  lemma {:induction false} Sound(t: string) returns (lead: string, ps: seq<Piece>)
    requires Words(t).Args?
    ensures AllSpace(lead) && GoodLine(ps) && t == lead + ShowLine(ps) && Words(t).words == Values(ps)
    decreases |t|
  {
    var u := Trim(t);
    lead := TrimSplit(t);
    if u == "" {
      ps := [];
    } else {
      WordsStep(t);
      hide Words, ReadWord, Trim;
      var fs := WordSound(u);
      var gap, more := Sound(ReadWord(u).rest);
      ps := LineCons(fs, gap, more);
    }
  }

  lemma LineCons(fs: seq<Frag>, gap: string, more: seq<Piece>) returns (ps: seq<Piece>)
    requires GoodPiece(Piece(fs, gap)) && GoodLine(more)
    requires var rest := gap + ShowLine(more); rest == "" || Space(rest[0])
    ensures GoodLine(ps) && ShowLine(ps) == ShowWord(fs) + (gap + ShowLine(more))
    ensures Values(ps) == [WordValue(fs)] + Values(more)
  {
    ps := [Piece(fs, gap)] + more;
    assert ps[1..] == more;
    assert gap == "" ==> gap + ShowLine(more) == ShowLine(more);
    if more != [] {
      LineParts(more);
      ShownHead(more[0].frags, more[0].gap + ShowLine(more[1..]));
    }
  }

  /** make_argv succeeds on exactly the written lines, each of which determines its words. */
  lemma AcceptsExactly(t: string)
    ensures Words(t).Args? <==> exists lead, ps :: AllSpace(lead) && GoodLine(ps) && t == lead + ShowLine(ps)
  {
    if Words(t).Args? {
      var lead, ps := Sound(t);
    }
    if lead, ps :| AllSpace(lead) && GoodLine(ps) && t == lead + ShowLine(ps) {
      Complete(lead, ps);
    }
  }

  // -- how a line fails --

  /** What a line may break off with: a backslash, or a quote that is not closed. */
  datatype Break = Backslash | Opened(q: char, text: string)

  predicate GoodBreak(e: Break) {
    e.Opened? ==> Quote(e.q) && e.q !in e.text
  }

  function ShowBreak(e: Break): string {
    match e
    case Backslash => "\\"
    case Opened(q, text) => [q] + text
  }

  function Failure(e: Break): Args {
    if e.Backslash? then OffEnd else Unmatched
  }

  predicate AllGood(fs: seq<Frag>) {
    forall f :: f in fs ==> GoodFrag(f)
  }

  /** Words, each followed by white space. */
  predicate Gapped(ps: seq<Piece>) {
    forall i :: 0 <= i < |ps| ==> GoodPiece(ps[i]) && ps[i].gap != ""
  }

  /** Complete words, then fragments of a last one, then the break. */
  function ShowBroken(ps: seq<Piece>, fs: seq<Frag>, e: Break): string {
    if ps == [] then ShowWord(fs) + ShowBreak(e)
    else ShowWord(ps[0].frags) + (ps[0].gap + ShowBroken(ps[1..], fs, e))
  }

  lemma BreakRead(e: Break)
    requires GoodBreak(e)
    ensures ReadWord(ShowBreak(e)) == if e.Backslash? then NoChar else NoQuote
  {
    var t := ShowBreak(e);
    assert t[0..] == t;
    match e {
      case Backslash => ReadBackslash(t, 0);
      case Opened(q, text) =>
        assert t[1..] == text;
        QuoteToEnd(text, q);
        ReadQuote(t, 0, |t|);
    }
  }

  lemma {:induction false} QuoteToEnd(text: string, q: char)
    requires q !in text
    ensures QuoteLen(text, q) == |text|
  {
    if text != "" {
      QuoteToEnd(text[1..], q);
    }
  }

  lemma {:induction false} BrokenWord(fs: seq<Frag>, e: Break)
    requires AllGood(fs) && GoodBreak(e)
    ensures var t := ShowWord(fs) + ShowBreak(e);
            t != "" && !Space(t[0]) && ReadWord(t) == if e.Backslash? then NoChar else NoQuote
  {
    hide ReadWord, Show, Value, GoodFrag;
    if fs == [] {
      assert ShowWord(fs) + ShowBreak(e) == ShowBreak(e);
      BreakRead(e);
    } else {
      BrokenWord(fs[1..], e);
      var more := ShowWord(fs[1..]) + ShowBreak(e);
      assert ShowWord(fs) + ShowBreak(e) == Show(fs[0]) + more;
      ReadFrag(fs[0], more);
      ShownHead(fs, ShowBreak(e));
    }
  }

  lemma {:induction false} BrokenFails(lead: string, ps: seq<Piece>, fs: seq<Frag>, e: Break)
    requires AllSpace(lead) && Gapped(ps) && AllGood(fs) && GoodBreak(e)
    ensures Words(lead + ShowBroken(ps, fs, e)) == Failure(e)
    decreases ps
  {
    var t := ShowBroken(ps, fs, e);
    WordsBlank(lead, t);
    hide Words, ReadWord, ShowWord, WordValue;
    if ps == [] {
      BrokenWord(fs, e);
      WordsAfter(t);
    } else {
      var p := ps[0];
      var rest := p.gap + ShowBroken(ps[1..], fs, e);
      BrokenFails(p.gap, ps[1..], fs, e);
      assert rest[0] == p.gap[0] && p.gap[0] in p.gap;
      ReadShown(p.frags, rest);
      ShownHead(p.frags, rest);
      WordsAfter(t);
    }
  }

  /** The first fragment of a word that fails, or its break. */
  lemma FirstOrBreak(t: string) returns (f: Frag, rest: string, e: Break, ends: bool)
    requires !ReadWord(t).Got?
    ensures ends ==> GoodBreak(e) && t == ShowBreak(e) && ReadWord(t) == (if e.Backslash? then NoChar else NoQuote)
    ensures !ends ==> GoodFrag(f) && t == Show(f) + rest && ReadWord(t) == Glue(Value(f), ReadWord(rest))
  {
    assert t[0..] == t;
    SpaceIsGot(t);
    hide ReadWord, QuoteLen;
    f, rest, e, ends := Raw('a'), "", Backslash, false;
    if Quote(t[0]) {
      f, rest, ends := QuoteOrBreak(t);
      e := Opened(t[0], t[1..]);
    } else if t[0] == '\\' {
      ReadBackslash(t, 0);
      if |t| == 1 {
        ends := true;
      } else {
        f, rest := Escaped(t[1]), t[2..];
      }
    } else {
      ReadPlain(t, 0);
      f, rest := Raw(t[0]), t[1..];
    }
  }

  lemma QuoteOrBreak(t: string) returns (f: Frag, rest: string, ends: bool)
    requires t != "" && Quote(t[0])
    ensures ends ==> t[0] !in t[1..] && t == [t[0]] + t[1..] && ReadWord(t) == NoQuote
    ensures !ends ==> GoodFrag(f) && t == Show(f) + rest && ReadWord(t) == Glue(Value(f), ReadWord(rest))
  {
    hide ReadWord, QuoteLen;
    assert t[0..] == t;
    var k := 1 + QuoteLen(t[1..], t[0]);
    QuoteIsText(t[1..], t[0]);
    ReadQuote(t, 0, k);
    f, rest, ends := Raw('a'), "", k == |t|;
    if ends {
      assert t[1..][..k - 1] == t[1..];
    } else {
      assert t[1..][..k - 1] == t[1..k] && t[1..][k - 1] == t[k];
      f, rest := Quoted(t[0], t[1..k]), t[k + 1..];
      assert t == [t[0]] + t[1..k] + [t[k]] + rest;
    }
  }

  lemma SpaceIsGot(t: string)
    ensures t == "" || Space(t[0]) ==> ReadWord(t).Got?
  {
  }

  lemma {:induction false} BrokenWordSound(t: string) returns (fs: seq<Frag>, e: Break)
    requires !ReadWord(t).Got?
    ensures AllGood(fs) && GoodBreak(e) && t == ShowWord(fs) + ShowBreak(e)
    ensures ReadWord(t) == if e.Backslash? then NoChar else NoQuote
    decreases |t|
  {
    hide ReadWord, Show, Value, GoodFrag, ShowWord, WordValue;
    var f, rest, ends;
    f, rest, e, ends := FirstOrBreak(t);
    if ends {
      fs := [];
      NoFrags("");
      assert ShowWord([]) + "" == ShowWord([]) && "" + ShowBreak(e) == ShowBreak(e);
    } else {
      var more;
      more, e := BrokenWordSound(rest);
      fs := WordCons(f, more);
      assert Show(f) + (ShowWord(more) + ShowBreak(e)) == (Show(f) + ShowWord(more)) + ShowBreak(e);
    }
  }

  lemma BrokenStep(t: string)
    requires !Words(t).Args?
    ensures Trim(t) != ""
    ensures var s := ReadWord(Trim(t));
            if s.Got? then |s.rest| < |t| && Words(s.rest) == Words(t) && s.rest != ""
            else Words(t) == if s.NoChar? then OffEnd else Unmatched
  {
    hide ReadWord;
    assert Words("") == Args([]);
  }

  lemma {:induction false} BrokenSound(t: string) returns (lead: string, ps: seq<Piece>, fs: seq<Frag>, e: Break)
    requires !Words(t).Args?
    ensures AllSpace(lead) && Gapped(ps) && AllGood(fs) && GoodBreak(e) && t == lead + ShowBroken(ps, fs, e)
    ensures Words(t) == Failure(e)
    decreases |t|
  {
    BrokenStep(t);
    hide Words, ReadWord, Trim, ShowWord, WordValue;
    lead := TrimSplit(t);
    var u := Trim(t);
    var s := ReadWord(u);
    if s.Got? {
      var word := WordSound(u);
      var gap, more;
      gap, more, fs, e := BrokenSound(s.rest);
      BrokenHead(more, fs, e);
      var behind := ShowBroken(more, fs, e);
      assert "" + behind == behind;
      ps := [Piece(word, gap)] + more;
      assert ps[1..] == more;
    } else {
      fs, e := BrokenWordSound(u);
      ps := [];
    }
  }

  lemma BrokenHead(ps: seq<Piece>, fs: seq<Frag>, e: Break)
    requires Gapped(ps) && AllGood(fs) && GoodBreak(e)
    ensures var t := ShowBroken(ps, fs, e); t != "" && !Space(t[0])
  {
    hide ShowWord;
    if ps == [] {
      BrokenWord(fs, e);
    } else {
      assert GoodPiece(ps[0]);
      ShownHead(ps[0].frags, ps[0].gap + ShowBroken(ps[1..], fs, e));
    }
  }

  /** make_argv steps over the terminator on exactly the lines that break off after a backslash. */
  lemma OffEndExactly(t: string)
    ensures Words(t) == OffEnd <==>
            exists lead, ps, fs :: AllSpace(lead) && Gapped(ps) && AllGood(fs) && t == lead + ShowBroken(ps, fs, Backslash)
  {
    hide Words, ShowBroken, Gapped, AllGood;
    if Words(t) == OffEnd {
      var lead, ps, fs, e := BrokenSound(t);
    }
    if lead, ps, fs :| AllSpace(lead) && Gapped(ps) && AllGood(fs) && t == lead + ShowBroken(ps, fs, Backslash) {
      BrokenFails(lead, ps, fs, Backslash);
    }
  }

  /** It exits with an unmatched quote on exactly the lines that break off inside quotes. */
  lemma UnmatchedExactly(t: string)
    ensures Words(t) == Unmatched <==>
            exists lead, ps, fs, e: Break ::
              AllSpace(lead) && Gapped(ps) && AllGood(fs) && e.Opened? && GoodBreak(e) && t == lead + ShowBroken(ps, fs, e)
  {
    hide Words, ShowBroken, Gapped, AllGood;
    if Words(t) == Unmatched {
      var lead, ps, fs, e := BrokenSound(t);
    }
    if lead, ps, fs, e: Break :|
      AllSpace(lead) && Gapped(ps) && AllGood(fs) && e.Opened? && GoodBreak(e) && t == lead + ShowBroken(ps, fs, e) {
      BrokenFails(lead, ps, fs, e);
    }
  }

  // -- any words can be written --

  /** A word with every character escaped; the empty word is a pair of quotes. */
  function Written(w: string): seq<Frag> {
    if w == "" then [Quoted('"', "")] else seq(|w|, i requires 0 <= i < |w| => Escaped(w[i]))
  }

  function WrittenLine(ws: seq<string>): seq<Piece> {
    seq(|ws|, i requires 0 <= i < |ws| => Piece(Written(ws[i]), " "))
  }

  lemma {:induction false} WrittenValue(w: string)
    ensures WordValue(Written(w)) == w
  {
    if |w| == 1 {
      assert Written(w)[1..] == [] && WordValue([]) == "";
      assert WordValue(Written(w)) == [w[0]] + WordValue(Written(w)[1..]);
    } else if |w| > 1 {
      WrittenValue(w[1..]);
      assert Written(w)[1..] == Written(w[1..]);
      assert WordValue(Written(w)) == [w[0]] + WordValue(Written(w)[1..]);
    } else {
      assert WordValue(Written(w)) == "" + WordValue(Written(w)[1..]);
    }
  }

  lemma {:induction false} WrittenValues(ws: seq<string>)
    ensures Values(WrittenLine(ws)) == ws
  {
    if ws != [] {
      WrittenValue(ws[0]);
      WrittenValues(ws[1..]);
      assert WrittenLine(ws)[1..] == WrittenLine(ws[1..]);
      assert Values(WrittenLine(ws)) == [ws[0]] + ws[1..];
    }
  }

  lemma WrittenGood(w: string)
    ensures Written(w) != [] && forall f :: f in Written(w) ==> GoodFrag(f)
  {
  }

  /** Whatever the words, escaping them and joining them with blanks gives them back. */
  lemma AnyWords(ws: seq<string>)
    ensures Words(ShowLine(WrittenLine(ws))) == Args(ws)
  {
    var ps := WrittenLine(ws);
    hide Words, Values, Written;
    WrittenValues(ws);
    forall i | 0 <= i < |ps| ensures GoodPiece(ps[i]) {
      WrittenGood(ws[i]);
    }
    Complete("", ps);
    assert "" + ShowLine(ps) == ShowLine(ps);
  }
}
