/**
  Splitting an input line into commands: the second half of get_request
  (src/cmds/qmgr.c:1928-2033), which moves one command out of a static line buffer and shifts
  the rest of the line down.

  The shift is `strcpy(line, lp)` with overlapping regions, taken here as copying bytes in
  increasing order, and is followed by `i = strlen(lp)` on the shifted buffer: everything from
  `line[i]` on is then cleared.
 */
module QmgrSplit {
  import opened Common

  /** The quote open before position `i`, or NUL. */
  function Quoting(s: string, i: nat): char
    requires i <= |s|
  {
    if i == 0 then '\0' else
    var q := Quoting(s, i - 1);
    if q == '\0' then (if Quote(s[i - 1]) then s[i - 1] else '\0')
    else if s[i - 1] == q then '\0' else q
  }

  /** A command ends at an unquoted `;` or `#`. */
  predicate EndsAt(s: string, i: nat)
    requires i < |s|
  {
    Quoting(s, i) == '\0' && (s[i] == ';' || s[i] == '#')
  }

  /** The first end at or after `i`, or the end of the line. */
  function CutFrom(s: string, i: nat): (k: nat)
    requires i <= |s|
    ensures i <= k <= |s|
    ensures forall j :: i <= j < k ==> !EndsAt(s, j)
    ensures k < |s| ==> EndsAt(s, k)
    decreases |s| - i
  {
    if i == |s| || EndsAt(s, i) then i else CutFrom(s, i + 1)
  }

  /** What follows the first command: nothing after `#`, else the text after `;` and white space. */
  function Rest(s: string): (r: string)
    ensures |r| < |s| || r == ""
  {
    var k := CutFrom(s, 0);
    if k < |s| && s[k] == ';' then Trim(s[k + 1..]) else ""
  }

  /** The commands of a line. */
  function Commands(s: string): seq<string>
    decreases |s|
  {
    [s[..CutFrom(s, 0)]] + if Rest(s) == "" then [] else Commands(Rest(s))
  }

  /** What the shift leaves of the rest: all of it when it is shorter than what preceded it. */
  function Kept(s: string): (r: string)
    ensures |r| < |s| || r == ""
  {
    var rest := Rest(s);
    var k := |s| - |rest|;
    if |rest| < k then rest else rest[..|rest| - k]
  }

  /** The commands the code returns for a line. */
  function Returned(s: string): seq<string>
    decreases |s|
  {
    [s[..CutFrom(s, 0)]] + if Rest(s) == "" then [] else Returned(Kept(s))
  }

  /** Every rest fits in front of itself. */
  predicate Shrinking(s: string)
    decreases |s|
  {
    Rest(s) != "" ==> 2 * |Rest(s)| < |s| && Shrinking(Rest(s))
  }

  /** One step loses nothing exactly when the rest is less than half the line. */
  lemma KeptExact(s: string)
    requires Rest(s) != ""
    ensures Kept(s) == Rest(s) <==> 2 * |Rest(s)| < |s|
  {
  }

  /** On shrinking lines the code returns exactly the commands. */
  lemma {:induction false} ReturnedExact(s: string)
    requires Shrinking(s)
    ensures Returned(s) == Commands(s)
    decreases |s|
  {
    if Rest(s) != "" {
      KeptExact(s);
      ReturnedExact(Rest(s));
    }
  }

  /** Commands and separators make up the line; only white space after `;` and a comment are dropped. */
  lemma NothingElseLost(s: string)
    ensures var k := CutFrom(s, 0);
            k < |s| && s[k] == ';' ==>
              && |Rest(s)| + k + 1 <= |s|
              && s == s[..k] + ";" + s[k + 1..|s| - |Rest(s)|] + Rest(s)
              && forall c :: c in s[k + 1..|s| - |Rest(s)|] ==> Space(c)
  {
    hide CutFrom, Trim;
    var k := CutFrom(s, 0);
    if k < |s| && s[k] == ';' {
      var ws := TrimSplit(s[k + 1..]);
      Assembled(s, k, ws, Trim(s[k + 1..]));
    }
  }

  lemma Assembled(s: string, k: nat, ws: string, rest: string)
    requires k < |s| && s[k] == ';' && s[k + 1..] == ws + rest
    ensures s[k + 1..|s| - |rest|] == ws && s == s[..k] + ";" + ws + rest
  {
    assert |s| - |rest| == k + 1 + |ws|;
    assert s[k + 1..k + 1 + |ws|] == s[k + 1..][..|ws|] == ws;
    assert s == s[..k] + [s[k]] + s[k + 1..];
  }

  lemma {:induction false} QuotingPrefix(s: string, k: nat, i: nat)
    requires i <= k <= |s|
    ensures Quoting(s[..k], i) == Quoting(s, i)
  {
    if i > 0 {
      QuotingPrefix(s, k, i - 1);
    }
  }

  /** The line ends inside quotes before any separator. */
  predicate Open(s: string) {
    CutFrom(s, 0) == |s| && Quoting(s, |s|) != '\0'
  }

  /** No command contains an unquoted separator, and all but the last are closed. */
  lemma {:induction false} CommandsWhole(s: string)
    ensures forall c :: c in Commands(s) ==> CutFrom(c, 0) == |c|
    ensures forall i :: 0 <= i < |Commands(s)| - 1 ==> !Open(Commands(s)[i])
    decreases |s|
  {
    FirstWhole(s);
    hide CutFrom, Rest, Open;
    if Rest(s) != "" {
      CommandsWhole(Rest(s));
      var cs := Commands(s);
      assert cs == [s[..CutFrom(s, 0)]] + Commands(Rest(s));
      assert forall i :: 1 <= i < |cs| ==> cs[i] == Commands(Rest(s))[i - 1];
    }
  }

  lemma FirstWhole(s: string)
    ensures var c := s[..CutFrom(s, 0)]; CutFrom(c, 0) == |c| && (Rest(s) != "" ==> !Open(c))
  {
    var k := CutFrom(s, 0);
    var c := s[..k];
    forall j | 0 <= j < |c| ensures !EndsAt(c, j) {
      QuotingPrefix(s, k, j);
      assert !EndsAt(s, j);
    }
    if k < |s| {
      QuotingPrefix(s, k, k);
      assert EndsAt(s, k);
    }
    hide Quoting, Trim;
  }

  /** "l;p s" loses the end of its second command. */
  lemma TruncationExample()
    ensures Rest("l;p s") == "p s" && Kept("l;p s") == "p"
  {
    var s := "l;p s";
    assert Quoting(s, 0) == '\0' && Quoting(s, 1) == '\0';
    assert CutFrom(s, 1) == 1 && CutFrom(s, 0) == 1;
    assert s[2..] == "p s";
  }

  // -- the buffer as bytes --

  /** The text at position `i` of a buffer, up to the next NUL. */
  function TextFrom(b: seq<char>, i: nat): (s: string)
    requires i <= |b|
    ensures |s| <= |b| - i && s == b[i..i + |s|] && '\0' !in s
    ensures i + |s| < |b| ==> b[i + |s|] == '\0'
    decreases |b| - i
  {
    if i == |b| || b[i] == '\0' then "" else [b[i]] + TextFrom(b, i + 1)
  }

  predicate Stop(c: char) {
    c == ';' || c == '#' || c == '\0'
  }

  /**
    Where the scan stops, `q` being the open quote or NUL; the size of the buffer when it runs out of
    it.  A NUL inside quotes is stepped over and closes them.
   */
  function Scan(b: seq<char>, i: nat, q: char): (k: nat)
    requires i <= |b|
    ensures i <= k <= |b| && (k < |b| ==> Stop(b[k]))
    decreases |b| - i
  {
    if i == |b| then i
    else if q == '\0' then (if Stop(b[i]) then i else Scan(b, i + 1, if Quote(b[i]) then b[i] else '\0'))
    else Scan(b, i + 1, if b[i] == q || b[i] == '\0' then '\0' else q)
  }

  /** What follows the command that ends at `k`. */
  function Following(b: seq<char>, k: nat): string
    requires k < |b|
  {
    if b[k] == ';' then Trim(TextFrom(b, k + 1)) else ""
  }

  /** A text shifted down by `lp`, as far as it survives. */
  function Shifted(rest: string, lp: nat): (r: string)
    ensures |r| <= |rest|
  {
    if |rest| < lp then rest else rest[..|rest| - lp]
  }

  /** The text in the buffer after one call. */
  function NextText(b: seq<char>, k: nat): (r: string)
    requires k < |b|
  {
    if b[k] != ';' then "" else
    var t := TextFrom(b, k + 1);
    Shifted(Trim(t), k + 1 + |t| - |Trim(t)|)
  }

  /** The commands all calls on a buffer return; None when a scan runs out of it. */
  function Drained(b: seq<char>): Option<seq<string>> {
    var s, k := TextFrom(b, 0), Scan(b, 0, '\0');
    if k == |b| then None else
    var c := if k < |s| then s[..k] else s;
    Some(if Following(b, k) == "" then [c] else [c] + Returned(NextText(b, k)))
  }

  lemma {:induction false} ScanText(b: seq<char>, s: string, i: nat)
    requires i <= |s| < |b| && s == b[..|s|] && '\0' !in s && b[|s|] == '\0'
    ensures Scan(b, i, Quoting(s, i)) ==
            if CutFrom(s, i) < |s| then CutFrom(s, i)
            else if Quoting(s, |s|) == '\0' then |s|
            else Scan(b, |s| + 1, '\0')
    decreases |s| - i
  {
    if i < |s| {
      assert b[i] == s[i] && s[i] in s;
      ScanText(b, s, i + 1);
    }
  }

  lemma TextIs(b: seq<char>, s: string, i: nat)
    requires i + |s| < |b| && s == b[i..i + |s|] && '\0' !in s && b[i + |s|] == '\0'
    ensures TextFrom(b, i) == s
  {
    var t := TextFrom(b, i);
    assert forall j :: 0 <= j < |s| ==> b[i + j] == s[j] && s[j] in s;
    assert forall j :: 0 <= j < |t| ==> b[i + j] == t[j] && t[j] in t;
    assert |t| == |s|;
  }

  lemma SkipsInto(b: seq<char>, i: nat, k: nat)
    requires i <= |b| && i <= k <= i + |TextFrom(b, i)|
    ensures k <= |b| && TextFrom(b, k) == TextFrom(b, i)[k - i..]
    decreases k - i
  {
    if i < k {
      SkipsInto(b, i + 1, k);
    }
  }

  /** One call on a line whose first command is closed, or with a NUL to stop at behind the terminator. */
  lemma OneStep(b: seq<char>)
    requires var s := TextFrom(b, 0); |s| < |b| && (Open(s) ==> |s| + 1 < |b| && b[|s| + 1] == '\0')
    ensures var s, k := TextFrom(b, 0), Scan(b, 0, '\0');
            && k < |b| && (if k < |s| then s[..k] else s) == s[..CutFrom(s, 0)]
            && Following(b, k) == Rest(s) && (Rest(s) != "" ==> NextText(b, k) == Kept(s))
  {
    hide CutFrom, Quoting, Trim, TextFrom;
    var s := TextFrom(b, 0);
    assert b[0..|s|] == b[..|s|];
    QuotingStart(s);
    ScanText(b, s, 0);
    hide Scan;
    var k := CutFrom(s, 0);
    assert s[..|s|] == s;
    if k < |s| {
      assert b[k] == s[k];
      SkipsInto(b, 0, k + 1);
      assert TextFrom(b, k + 1) == s[k + 1..];
    }
  }

  /** Whatever lies behind the terminator, a line whose first command is closed is split as `Returned` says. */
  lemma DrainedClosed(b: seq<char>)
    requires var s := TextFrom(b, 0); |s| < |b| && !Open(s)
    ensures Drained(b) == Some(Returned(TextFrom(b, 0)))
  {
    hide CutFrom, Quoting, Trim, TextFrom, Scan, Returned, Rest, Kept, Following, NextText;
    OneStep(b);
    ReturnedStep(TextFrom(b, 0));
  }

  lemma QuotingStart(s: string)
    ensures Quoting(s, 0) == '\0'
  {
  }

  /**
    A line that ends inside quotes is returned whole, and the scan goes on behind the terminator:
    off the buffer, or to the first stop among the bytes left there.
   */
  lemma DrainedOpen(b: seq<char>)
    requires var s := TextFrom(b, 0); |s| < |b| && Open(s)
    ensures var s := TextFrom(b, 0);
            var k := Scan(b, |s| + 1, '\0');
            Drained(b) ==
              if k == |b| then None
              else Some(if Following(b, k) == "" then [s] else [s] + Returned(NextText(b, k)))
    ensures var s := TextFrom(b, 0); |s| + 1 < |b| && b[|s| + 1] == '\0' ==> Drained(b) == Some(Returned(s))
  {
    hide CutFrom, Quoting, Trim, TextFrom, Returned;
    var s := TextFrom(b, 0);
    assert b[0..|s|] == b[..|s|];
    QuotingStart(s);
    ScanText(b, s, 0);
    ReturnedStep(s);
    OpenHasNoRest(s);
    assert s[..|s|] == s;
  }

  lemma OpenHasNoRest(s: string)
    requires CutFrom(s, 0) == |s|
    ensures Rest(s) == ""
  {
  }

  lemma StaleBytes()
    ensures var b := "\"\0;p\0";
            TextFrom(b, 0) == "\"" && Scan(b, 0, '\0') == 2 && Following(b, 2) == "p" && NextText(b, 2) == "p"
  {
    var b := "\"\0;p\0";
    assert TextFrom(b, 1) == "" && TextFrom(b, 0) == "\"";
    assert Scan(b, 2, '\0') == 2 && Scan(b, 1, '"') == 2 && Scan(b, 0, '\0') == 2;
    assert TextFrom(b, 4) == "" && TextFrom(b, 3) == "p" && Trim("p") == "p";
  }

  lemma OneLetter()
    ensures Returned("p") == ["p"]
  {
    assert Quoting("p", 0) == '\0' && CutFrom("p", 1) == 1 && CutFrom("p", 0) == 1;
    assert "p"[..1] == "p" && ["p"] + [] == ["p"];
  }

  /** Behind an open quote the rest of an older, longer line becomes a command. */
  lemma StaleExample()
    ensures Drained("\"\0;p\0") == Some(["\"", "p"])
  {
    StaleBytes();
    OneLetter();
    hide TextFrom, Scan, Following, NextText, Returned;
    assert ["\""] + ["p"] == ["\"", "p"];
  }

  lemma ReturnedStep(t: string)
    ensures Rest(t) == "" ==> Returned(t) == [t[..CutFrom(t, 0)]]
    ensures Rest(t) != "" ==> Returned(t) == [t[..CutFrom(t, 0)]] + Returned(Kept(t)) && |Kept(t)| < |t|
  {
    hide CutFrom, Trim;
  }

  /** The static `line` and `empty` of get_request. */
  class LineBuffer {
    const line: array<char>
    var empty: bool
    ghost var len: nat

    /**
      A terminated text.  What lies behind the terminator is arbitrary, such as the end of a longer
      comment line that was skipped (src/cmds/qmgr.c:1884-1925); only the last byte is always NUL.
     */
    ghost predicate Valid()
      reads this, line
    {
      && len < line.Length && line[len] == '\0' && line[line.Length - 1] == '\0'
      && forall i :: 0 <= i < len ==> line[i] != '\0'
    }

    /** Nothing but NULs behind the text, and at least two of them. */
    ghost predicate Clean()
      reads this, line
    {
      len + 1 < line.Length && forall i :: len <= i < line.Length ==> line[i] == '\0'
    }

    ghost function Text(): string
      requires Valid()
      reads this, line
    {
      line[..len]
    }

    lemma Terminated()
      requires Valid()
      ensures len < line.Length
    {
    }

    lemma TextAtFront()
      requires Valid()
      ensures TextFrom(line[..], 0) == Text() && |Text()| == len
    {
      var b := line[..];
      assert forall c :: c in Text() ==> c != '\0';
      assert b[0..0 + len] == Text();
      TextIs(b, Text(), 0);
    }

    /** A clean buffer has a NUL to stop at behind the terminator. */
    lemma NulBehind()
      requires Valid() && Clean()
      ensures len + 1 < line.Length && line[..][len + 1] == '\0'
    {
    }

    /** A buffer into which the line `s` has been read, over whatever was in it. */
    constructor (s: string, stale: seq<char>)
      requires '\0' !in s
      ensures Valid() && Text() == s && !empty && fresh(line)
      ensures line[..] == s + ['\0'] + stale + ['\0']
    {
      var b := s + ['\0'] + stale + ['\0'];
      line := new char[|b|](i requires 0 <= i < |b| => b[i]);
      empty, len := false, |s|;
      new;
      assert line[..] == b;
      assert forall i :: 0 <= i < |s| ==> s[i] in s && line[i] == s[i];
      assert line[|b| - 1] == b[|b| - 1];
      assert line[..len] == s;
    }

    /** Copy one command; `at` is where the scan stopped, and `request` what has been copied up to its first NUL. */
    method CopyCommand() returns (request: string, at: nat)
      requires Valid()
      ensures at == Scan(line[..], 0, '\0')
      ensures request == TextFrom(line[..at], 0)
    {
      ghost var b := line[..];
      var raw: string := "";
      at := 0;
      while at < line.Length && line[at] != ';' && line[at] != '#' && line[at] != '\0'
        invariant at <= line.Length && raw == b[..at]
        invariant Scan(b, at, '\0') == Scan(b, 0, '\0')
        decreases line.Length - at
      {
        var quote := line[at];
        raw := raw + [quote];
        at := at + 1;
        if Quote(quote) {
          while at < line.Length && line[at] != quote && line[at] != '\0'
            invariant at <= line.Length && raw == b[..at]
            invariant Scan(b, at, quote) == Scan(b, 0, '\0')
            decreases line.Length - at
          {
            raw := raw + [line[at]];
            at := at + 1;
          }
          if at < line.Length {
            raw := raw + [line[at]];
            at := at + 1;
          }
        }
      }
      request := TextFrom(raw, 0);
    }

    /** strcpy(line, lp), copying bytes in increasing order: `n` bytes and their terminator. */
    method CopyDown(lp: nat, ghost end: nat) returns (n: nat)
      requires 0 < lp <= end < line.Length && line[end] == '\0' && forall i :: lp <= i < end ==> line[i] != '\0'
      modifies line
      ensures n == end - lp && line[n] == '\0'
      ensures forall i :: 0 <= i < n ==> line[i] == old(line[lp + i])
      ensures forall i :: n < i < line.Length ==> line[i] == old(line[i])
    {
      n := 0;
      while line[lp + n] != '\0'
        invariant lp + n <= end
        invariant forall i :: 0 <= i < n ==> line[i] == old(line[lp + i])
        invariant forall i :: n <= i < line.Length ==> line[i] == old(line[i])
        decreases end - n
      {
        line[n] := line[lp + n];
        n := n + 1;
      }
      line[n] := '\0';
    }

    method ClearFrom(start: nat)
      requires start <= line.Length
      modifies line
      ensures forall j :: 0 <= j < start ==> line[j] == old(line[j])
      ensures forall j :: start <= j < line.Length ==> line[j] == '\0'
    {
      for i := start to line.Length
        invariant forall j :: 0 <= j < start ==> line[j] == old(line[j])
        invariant forall j :: start <= j < i ==> line[j] == '\0'
      {
        line[i] := '\0';
      }
    }

    /** strlen(line + lp), where the NUL at `end` is the first. */
    method StrLenAt(lp: nat, ghost end: nat) returns (i: nat)
      requires lp <= end < line.Length && line[end] == '\0' && forall j :: lp <= j < end ==> line[j] != '\0'
      ensures i == end - lp
    {
      i := 0;
      while line[lp + i] != '\0'
        invariant lp + i <= end
        decreases end - i
      {
        i := i + 1;
      }
    }

    /** Move the text from `lp` on to the front, then clear from `strlen(lp)` on. */
    method Shift(lp: nat)
      requires Valid() && 0 < lp < line.Length && line[lp] != '\0'
      modifies line, this`len
      ensures Valid() && Clean()
      ensures Text() == Shifted(old(TextFrom(line[..], lp)), lp)
    {
      ghost var b, rest := line[..], TextFrom(line[..], lp);
      ghost var end := lp + |rest|;
      BeforeNul(b, lp);
      hide TextFrom;
      var n := CopyDown(lp, end);
      var i := StrLenAt(lp, if n < lp then end else n);
      ClearFrom(i);
      len := i;
      assert Text() == rest[..i];
    }

    /** get_request on a non-empty buffer; nothing is promised when the scan runs out of it. */
    method NextCommand() returns (request: string, over: bool)
      requires Valid()
      modifies line, this`len, this`empty
      ensures var b := old(line[..]);
              var k := Scan(b, 0, '\0');
              && (over <==> k == |b|)
              && (!over ==>
                    && Valid() && (!empty ==> Clean())
                    && request == (if k < old(len) then old(Text())[..k] else old(Text()))
                    && empty == (Following(b, k) == "")
                    && Text() == NextText(b, k) && (empty ==> len == 0))
    {
      hide TextFrom, Scan, Trim, Following, NextText;
      ghost var b, s := line[..], Text();
      TextAtFront();
      var at;
      request, at := CopyCommand();
      CopiedText(b, at);
      over := at == line.Length;
      if !over {
        Advance(at);
      }
    }

    /** The part after the copy: what follows the stop at `k` becomes the text. */
    method Advance(k: nat)
      requires Valid() && k < line.Length
      modifies line, this`len, this`empty
      ensures Valid() && (!empty ==> Clean()) && (empty ==> len == 0)
      ensures empty == (Following(old(line[..]), k) == "")
      ensures Text() == NextText(old(line[..]), k)
    {
      hide TextFrom, Trim;
      assert line[..][k] == line[k];
      empty := true;
      if line[k] == ';' {
        var lp := SkipFrom(k + 1);
        if line[lp] != '\0' {
          Shift(lp);
          empty := false;
          return;
        }
      }
      Clear();
    }

    /** while (White(*lp)) lp++ */
    method SkipFrom(start: nat) returns (lp: nat)
      requires Valid() && start < line.Length
      ensures var b := line[..];
              var t := TextFrom(b, start);
              lp == start + |t| - |Trim(t)| < line.Length && TextFrom(b, lp) == Trim(t) && (line[lp] != '\0' <==> Trim(t) != "")
    {
      hide TextFrom, Trim;
      ghost var b := line[..];
      assert b[line.Length - 1] == '\0';
      lp := start;
      while Space(line[lp])
        invariant start <= lp < line.Length
        invariant Trim(TextFrom(b, lp)) == Trim(TextFrom(b, start))
        invariant lp + |TextFrom(b, lp)| == start + |TextFrom(b, start)|
        decreases line.Length - lp
      {
        TextStep(b, lp);
        lp := lp + 1;
      }
      TextStep(b, lp);
    }

    method Clear()
      requires line.Length > 0
      modifies line, this`len
      ensures Valid() && Text() == ""
    {
      for i := 0 to line.Length
        invariant forall j :: 0 <= j < i ==> line[j] == '\0'
      {
        line[i] := '\0';
      }
      len := 0;
    }
  }

  lemma TextStep(b: seq<char>, i: nat)
    requires i < |b|
    ensures var t := TextFrom(b, i);
            if Space(b[i]) then
              i + 1 <= |b| && |t| == 1 + |TextFrom(b, i + 1)| && Trim(t) == Trim(TextFrom(b, i + 1))
            else Trim(t) == t && (b[i] == '\0' <==> t == "")
  {
    var t := TextFrom(b, i);
    if Space(b[i]) {
      assert t == [b[i]] + TextFrom(b, i + 1) && t[1..] == TextFrom(b, i + 1);
    }
  }

  lemma BeforeNul(b: seq<char>, lp: nat)
    requires lp < |b| && b[|b| - 1] == '\0' && b[lp] != '\0'
    ensures var end := lp + |TextFrom(b, lp)|;
            && lp < end < |b| && b[end] == '\0'
            && forall i :: lp <= i < end ==> b[i] == TextFrom(b, lp)[i - lp] && b[i] != '\0'
  {
    var t := TextFrom(b, lp);
    assert forall i :: 0 <= i < |t| ==> b[lp + i] == t[i] && t[i] in t;
  }

  /** What has been copied reads as the text, or as its part before the stop. */
  lemma CopiedText(b: seq<char>, k: nat)
    requires k <= |b|
    ensures var s := TextFrom(b, 0); TextFrom(b[..k], 0) == if k < |s| then s[..k] else s
  {
    var s := TextFrom(b, 0);
    assert b[0..|s|] == b[..|s|] == s;
    if k <= |s| {
      assert b[..k] == s[..k] && s[..|s|] == s;
      assert forall c :: c in s[..k] ==> c in s;
      AllText(b[..k]);
    } else {
      assert b[..k][0..|s|] == s && b[..k][|s|] == b[|s|];
      TextIs(b[..k], s, 0);
    }
  }

  lemma AllText(b: string)
    requires '\0' !in b
    ensures TextFrom(b, 0) == b
  {
    assert b[0..|b|] == b;
  }

  /** One call on a clean buffer. */
  method CleanCall(b: LineBuffer) returns (request: string)
    requires b.Valid() && b.Clean() && !b.empty
    modifies b, b.line
    ensures b.Valid() && request == old(b.Text())[..CutFrom(old(b.Text()), 0)]
    ensures b.empty == (Rest(old(b.Text())) == "")
    ensures !b.empty ==> b.Clean() && b.Text() == Kept(old(b.Text()))
  {
    hide *;
    b.TextAtFront();
    b.Terminated();
    b.NulBehind();
    OneStep(b.line[..]);
    var over;
    request, over := b.NextCommand();
  }

  /** The calls after the first, on a clean buffer. */
  method DrainRest(b: LineBuffer) returns (out: seq<string>)
    requires b.Valid() && b.Clean() && !b.empty
    modifies b, b.line
    ensures out == Returned(old(b.Text()))
  {
    hide *;
    ghost var s := b.Text();
    out := [];
    assert out + Returned(s) == Returned(s);
    while true
      invariant b.Valid() && b.Clean() && !b.empty
      invariant out + Returned(b.Text()) == Returned(s)
      decreases b.len
      modifies b, b.line
    {
      ReturnedStep(b.Text());
      b.TextAtFront();
      var request := CleanCall(b);
      if b.empty {
        out := out + [request];
        return;
      }
      b.TextAtFront();
      assert (out + [request]) + Returned(b.Text()) == out + ([request] + Returned(b.Text()));
      out := out + [request];
    }
  }

  lemma DrainedIs(b: seq<char>)
    ensures var s, k := TextFrom(b, 0), Scan(b, 0, '\0');
            && (k == |b| ==> Drained(b) == None)
            && (k < |b| ==>
                  var c := if k < |s| then s[..k] else s;
                  Drained(b) == Some(if Following(b, k) == "" then [c] else [c] + Returned(NextText(b, k))))
  {
    hide TextFrom, Scan, Following, NextText, Returned;
  }

  /** Calling get_request until the buffer is empty; None when a scan ran out of the buffer. */
  method DrainLine(b: LineBuffer) returns (r: Option<seq<string>>)
    requires b.Valid()
    modifies b, b.line
    ensures r == Drained(old(b.line[..]))
    ensures !Open(old(b.Text())) ==> r == Some(Returned(old(b.Text())))
  {
    hide *;
    ghost var was, s := b.line[..], b.Text();
    b.TextAtFront();
    b.Terminated();
    if !Open(s) {
      DrainedClosed(was);
    }
    DrainedIs(was);
    var request, over := b.NextCommand();
    if over {
      return None;
    }
    if b.empty {
      return Some([request]);
    }
    var rest := DrainRest(b);
    r := Some([request] + rest);
  }
}
