/** What the modules share: optional values, and C strings as sequences of characters. */
module Common {
  datatype Option<+T> = None | Some(value: T)

  /** The character at `p` of a NUL-terminated text whose characters before the terminator are `s`. */
  function At(s: string, p: nat): char {
    if p < |s| then s[p] else '\0'
  }

  /** isspace() */
  predicate Space(c: char) {
    c == ' ' || c == '\t' || c == '\n' || c == '\r' || c == 11 as char || c == 12 as char
  }

  predicate Digit(c: char) {
    '0' <= c <= '9'
  }

  // -- the scanning loops several parsers share --

  function Trim(t: string): (r: string)
    ensures |r| <= |t| && (r == "" || !Space(r[0]))
  {
    if t == "" || !Space(t[0]) then t else Trim(t[1..])
  }

  predicate Quote(c: char) {
    c == '"' || c == '\''
  }

  /** The characters before the next `q`, or all of them. */
  function QuoteLen(t: string, q: char): (n: nat)
    ensures n <= |t|
    ensures n < |t| ==> t[n] == q
  {
    if t == "" || t[0] == q then 0 else 1 + QuoteLen(t[1..], q)
  }

  method SkipSpace(s: string, start: nat) returns (c: nat)
    requires start <= |s|
    ensures start <= c <= |s| && s[c..] == Trim(s[start..])
  {
    c := start;
    while Space(At(s, c))
      invariant start <= c <= |s| && Trim(s[c..]) == Trim(s[start..])
      decreases |s| - c
    {
      assert s[c..][0] == s[c] && s[c..][1..] == s[c + 1..];
      c := c + 1;
    }
    assert c < |s| ==> s[c..][0] == s[c];
  }

  method ReadQuoted(s: string, start: nat, q: char) returns (c: nat)
    requires start <= |s|
    ensures c == start + QuoteLen(s[start..], q)
  {
    c := start;
    while c < |s| && s[c] != q
      invariant start <= c <= |s| && c + QuoteLen(s[c..], q) == start + QuoteLen(s[start..], q)
    {
      assert s[c..][0] == s[c] && s[c..][1..] == s[c + 1..];
      c := c + 1;
    }
    assert c < |s| ==> s[c..][0] == s[c];
  }

  predicate AllSpace(t: string) {
    forall c :: c in t ==> Space(c)
  }

  lemma {:induction false} TrimOver(ws: string, x: string)
    requires AllSpace(ws)
    ensures Trim(ws + x) == Trim(x)
    ensures x == "" || !Space(x[0]) ==> Trim(ws + x) == x
  {
    if ws == "" {
      assert ws + x == x;
    } else {
      assert ws[0] in ws && (ws + x)[1..] == ws[1..] + x;
      TrimOver(ws[1..], x);
    }
  }

  lemma {:induction false} TrimSplit(t: string) returns (ws: string)
    ensures t == ws + Trim(t) && AllSpace(ws)
  {
    if t == "" || !Space(t[0]) {
      ws := "";
    } else {
      var w := TrimSplit(t[1..]);
      ws := [t[0]] + w;
      assert t == [t[0]] + t[1..];
    }
  }

  lemma {:induction false} QuoteOver(w: string, q: char, x: string)
    requires q !in w
    ensures QuoteLen(w + ([q] + x), q) == |w|
  {
    if w == "" {
      assert w + ([q] + x) == [q] + x;
    } else {
      assert (w + ([q] + x))[1..] == w[1..] + ([q] + x);
      QuoteOver(w[1..], q, x);
    }
  }

  lemma {:induction false} QuoteIsText(t: string, q: char)
    ensures q !in t[..QuoteLen(t, q)]
  {
    var n := QuoteLen(t, q);
    if n > 0 {
      QuoteIsText(t[1..], q);
      assert t[..n] == [t[0]] + t[1..][..n - 1];
    }
  }
}
