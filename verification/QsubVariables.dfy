/**
  The variable list qsub sends: escaped values (src/cmds/common_cmds.c:34-65, 71-123) joined into one
  comma-separated list (src/cmds/qsub_functions.c:4268-4333).
 */
module QsubVariables {
  import opened Common

  // -- escaping a value --

  predicate Special(c: char) {
    c == '"' || c == '\'' || c == '\\' || c == '\n' || c == ','
  }

  function Escape(s: string): string {
    if s == "" then "" else (if Special(s[0]) then ['\\', s[0]] else [s[0]]) + Escape(s[1..])
  }

  function Specials(s: string): nat {
    if s == "" then 0 else (if Special(s[0]) then 1 else 0) + Specials(s[1..])
  }

  /** A backslash gives way to the character behind it. */
  function Unescape(t: string): string {
    if t == "" then ""
    else if t[0] == '\\' && |t| > 1 then [t[1]] + Unescape(t[2..])
    else [t[0]] + Unescape(t[1..])
  }

  lemma EscapeStep(s: string, i: nat)
    requires i < |s|
    ensures Escape(s[i..]) == (if Special(s[i]) then ['\\', s[i]] else [s[i]]) + Escape(s[i + 1..])
    ensures Specials(s[i..]) == (if Special(s[i]) then 1 else 0) + Specials(s[i + 1..])
  {
    assert s[i..][0] == s[i] && s[i..][1..] == s[i + 1..];
  }

  lemma {:induction false} EscapeLength(s: string)
    ensures |Escape(s)| == |s| + Specials(s)
    ensures Specials(s) == 0 ==> Escape(s) == s
  {
    if s != "" {
      EscapeLength(s[1..]);
    }
  }

  lemma UnescapeStep(c: char, t: string)
    ensures Special(c) ==> Unescape(['\\', c] + t) == [c] + Unescape(t)
    ensures !Special(c) ==> Unescape([c] + t) == [c] + Unescape(t)
  {
    if Special(c) {
      var u := ['\\', c] + t;
      assert u[0] == '\\' && u[1] == c && u[2..] == t;
    } else {
      var u := [c] + t;
      assert u[0] == c && u[1..] == t;
    }
  }

  lemma {:induction false} UnescapeEscape(s: string)
    ensures Unescape(Escape(s)) == s
  {
    if s != "" {
      UnescapeEscape(s[1..]);
      UnescapeStep(s[0], Escape(s[1..]));
    }
  }

  /** The characters that no backslash precedes, and no backslash that precedes one. */
  function Bare(t: string): string {
    if t == "" then ""
    else if t[0] == '\\' && |t| > 1 then Bare(t[2..])
    else [t[0]] + Bare(t[1..])
  }

  predicate Harmless(t: string) {
    '"' !in t && '\'' !in t && '\\' !in t && '\n' !in t && ',' !in t
  }

  lemma BareStep(c: char, t: string)
    ensures Bare(['\\', c] + t) == Bare(t)
    ensures c != '\\' ==> Bare([c] + t) == [c] + Bare(t)
  {
    var u, v := ['\\', c] + t, [c] + t;
    assert u[0] == '\\' && u[2..] == t && v[0] == c && v[1..] == t;
  }

  /** No quote, backslash, newline or comma is left without a backslash; a text without them is not changed. */
  lemma {:induction false} EscapeGuards(s: string)
    ensures Harmless(Bare(Escape(s)))
    ensures Escape(s) == s <==> Harmless(s)
  {
    if s != "" {
      EscapeGuards(s[1..]);
      BareStep(s[0], Escape(s[1..]));
      EscapeLength(s[1..]);
      assert s == [s[0]] + s[1..];
      assert !Special(s[0]) ==> Escape(s)[1..] == Escape(s[1..]);
    }
  }

  /** add_env_value_to_string: one pass, appending to `val`. */
  method AddEnvValueToString(val: string, s: string) returns (r: string)
    ensures r == val + Escape(s)
  {
    r := val;
    assert s[0..] == s;
    for i := 0 to |s|
      invariant r + Escape(s[i..]) == val + Escape(s)
    {
      hide Escape, Specials;
      EscapeStep(s, i);
      ghost var was, rest := r, Escape(s[i + 1..]);
      if Special(s[i]) {
        r := r + ['\\'];
      }
      r := r + [s[i]];
      assert r + rest == was + ((if Special(s[i]) then ['\\', s[i]] else [s[i]]) + rest);
    }
  }

  /** copy_env_value: count the special characters, allocate, then copy; the allocation is exact. */
  method CopyEnvValue(s: string) returns (value: array<char>)
    ensures fresh(value) && value.Length == |Escape(s)| + 1
    ensures value[..value.Length - 1] == Escape(s) && value[value.Length - 1] == '\0'
  {
    var count := 0;
    assert s[0..] == s;
    for i := 0 to |s|
      invariant 0 <= count && count + Specials(s[i..]) == Specials(s)
    {
      EscapeStep(s, i);
      if Special(s[i]) {
        count := count + 1;
      }
    }
    EscapeLength(s);
    value := new char[|s| + count + 1](_ => '\0');
    if count > 0 {
      CopyEscaped(s, value);
    } else {
      for i := 0 to |s|
        invariant forall j :: 0 <= j < i ==> value[j] == s[j]
        invariant value[|s|] == '\0'
      {
        value[i] := s[i];
      }
    }
  }

  method PutEscaped(value: array<char>, start: nat, c: char) returns (at: nat)
    requires start + (if Special(c) then 2 else 1) <= value.Length - 1
    modifies value
    ensures at == start + if Special(c) then 2 else 1
    ensures value[..at] == old(value[..start]) + if Special(c) then ['\\', c] else [c]
    ensures value[value.Length - 1] == old(value[value.Length - 1])
  {
    at := start;
    if Special(c) {
      value[at] := '\\';
      at := at + 1;
    }
    value[at] := c;
    at := at + 1;
  }

  method CopyEscaped(s: string, value: array<char>)
    requires value.Length == |Escape(s)| + 1 && value[value.Length - 1] == '\0'
    modifies value
    ensures value[..value.Length - 1] == Escape(s) && value[value.Length - 1] == '\0'
  {
    hide Escape, Specials;
    var at, i := 0, 0;
    assert s[0..] == s && value[..0] == [];
    while i < |s|
      invariant 0 <= i <= |s| && at + |Escape(s[i..])| == |Escape(s)| && 0 <= at
      invariant value[..at] + Escape(s[i..]) == Escape(s)
      invariant value[value.Length - 1] == '\0'
    {
      EscapeStep(s, i);
      ghost var done, put, rest := value[..at], if Special(s[i]) then ['\\', s[i]] else [s[i]], Escape(s[i + 1..]);
      at := PutEscaped(value, at, s[i]);
      assert (done + put) + rest == done + (put + rest);
      i := i + 1;
    }
    EscapeEnd(s, value[..at]);
  }

  lemma EscapeEnd(s: string, done: string)
    ensures Escape(s[|s|..]) == "" && done + Escape(s[|s|..]) == done
  {
    assert s[|s|..] == "";
  }

  // -- the list --

  /** An entry of the table; its value is stored escaped. */
  datatype Entry = Entry(name: string, value: string)

  function Pair(e: Entry): string {
    e.name + "=" + e.value
  }

  function Pairs(es: seq<Entry>): (r: seq<string>)
    ensures |r| == |es|
    ensures forall i :: 0 <= i < |es| ==> r[i] == Pair(es[i])
  {
    if es == [] then [] else [Pair(es[0])] + Pairs(es[1..])
  }

  function Join(ps: seq<string>): string {
    if ps == [] then "" else if |ps| == 1 then ps[0] else ps[0] + "," + Join(ps[1..])
  }

  function TextLength(es: seq<Entry>): nat {
    if es == [] then 0 else |es[0].name| + |es[0].value| + TextLength(es[1..])
  }

  /** The text of the loop from entry `i` on: a comma follows unless `i + 1` is `count`. */
  function Listing(es: seq<Entry>, i: nat, count: nat): string
    requires i <= |es|
    decreases |es| - i
  {
    if i == |es| then "" else Pair(es[i]) + (if i + 1 != count then "," else "") + Listing(es, i + 1, count)
  }

  /**
    add_variable_list on a table of entries: `v` is the value given with -v.  `size` is the number of
    bytes allocated, which the list and its terminator fill exactly, except that an empty table gets
    one byte too few.
   */
  method AddVariableList(v: Option<string>, es: seq<Entry>) returns (list: string, size: nat)
    ensures list == (if v.Some? then v.value + "," else "") + Join(Pairs(es))
    ensures |list| + 1 == size + if es == [] then 1 else 0
  {
    hide Listing, Join, Pairs, Pair, TextLength;
    size := if v.Some? then |v.value| + 1 else 0;
    var len := HashStrlen(es);
    var count := |es|;
    size := size + len + count * 2;
    list := if v.Some? then v.value + "," else "";
    ghost var head := list;
    for pos := 0 to |es|
      invariant list + Listing(es, pos, count) == head + Listing(es, 0, count)
    {
      ListingStep(es, pos, count, list);
      var e := es[pos];
      list := list + e.name;
      list := list + "=";
      if e.value != "" {
        list := list + e.value;
      }
      if pos + 1 != count {
        list := list + ",";
      }
    }
    ListingEnds(es, list);
  }

  /** One entry more; an empty value need not be appended. */
  lemma ListingStep(es: seq<Entry>, i: nat, count: nat, list: string)
    requires i < |es|
    ensures var e := es[i];
            var next := if e.value != "" then list + e.name + "=" + e.value else list + e.name + "=";
            list + Listing(es, i, count) ==
              (if i + 1 != count then next + "," else next) + Listing(es, i + 1, count)
  {
    var e, rest := es[i], Listing(es, i + 1, count);
    var next := list + e.name + "=" + e.value;
    assert e.value == "" ==> next == list + e.name + "=";
    assert next == list + Pair(e);
    assert list + ((Pair(e) + ",") + rest) == (next + ",") + rest;
    assert list + ((Pair(e) + "") + rest) == next + rest;
  }

  lemma ListingEnds(es: seq<Entry>, list: string)
    ensures list + Listing(es, |es|, |es|) == list
    ensures Listing(es, 0, |es|) == Join(Pairs(es))
    ensures |Join(Pairs(es))| + 1 == TextLength(es) + 2 * |es| + if es == [] then 1 else 0
  {
    ListingIsJoin(es, 0);
    assert es[0..] == es;
    assert list + "" == list;
  }

  method HashStrlen(es: seq<Entry>) returns (len: nat)
    ensures len == TextLength(es)
  {
    len := 0;
    assert es[0..] == es;
    for i := 0 to |es|
      invariant len + TextLength(es[i..]) == TextLength(es)
    {
      assert es[i..][0] == es[i] && es[i..][1..] == es[i + 1..];
      len := len + |es[i].name|;
      len := len + |es[i].value|;
    }
  }

  lemma {:induction false} ListingIsJoin(es: seq<Entry>, i: nat)
    requires i <= |es|
    ensures Listing(es, i, |es|) == Join(Pairs(es[i..]))
    ensures i < |es| ==> |Listing(es, i, |es|)| + 1 == TextLength(es[i..]) + 2 * (|es| - i)
    decreases |es| - i
  {
    if i < |es| {
      ListingIsJoin(es, i + 1);
      var r := es[i..];
      assert r[0] == es[i] && r[1..] == es[i + 1..];
      assert Pairs(r) == [Pair(es[i])] + Pairs(es[i + 1..]);
      assert Pairs(r)[1..] == Pairs(es[i + 1..]);
    }
  }

  // -- taking the list apart --

  /** The first comma that is not behind a backslash, or the length. */
  function Cut(t: string): (n: nat)
    ensures n <= |t|
    ensures n < |t| ==> t[n] == ','
  {
    if t == "" || t[0] == ',' then 0
    else if t[0] == '\\' && |t| > 1 then 2 + Cut(t[2..])
    else 1 + Cut(t[1..])
  }

  function Split(t: string): (ps: seq<string>)
    ensures |ps| >= 1
  {
    var n := Cut(t);
    if n == |t| then [t] else [t[..n]] + Split(t[n + 1..])
  }

  /** No backslash is left without the character behind it. */
  predicate Closed(t: string) {
    t == "" || if t[0] == '\\' then |t| > 1 && Closed(t[2..]) else Closed(t[1..])
  }

  lemma {:induction false} CutCat(a: string, b: string)
    requires Closed(a)
    ensures Cut(a + "," + b) == Cut(a)
    ensures Cut(a) < |a| ==> Closed(a[Cut(a) + 1..])
  {
    var t := a + "," + b;
    if a == "" {
      assert t[0] == ',';
    } else if a[0] == '\\' {
      assert t[0] == a[0] && t[2..] == a[2..] + "," + b;
      CutCat(a[2..], b);
      assert Cut(a) < |a| ==> a[2..][Cut(a[2..]) + 1..] == a[Cut(a) + 1..];
    } else if a[0] == ',' {
      assert t[0] == ',';
    } else {
      assert t[0] == a[0] && t[1..] == a[1..] + "," + b;
      CutCat(a[1..], b);
      assert Cut(a) < |a| ==> a[1..][Cut(a[1..]) + 1..] == a[Cut(a) + 1..];
    }
  }

  lemma SplitStep(t: string)
    ensures var n := Cut(t); Split(t) == if n == |t| then [t] else [t[..n]] + Split(t[n + 1..])
  {
    hide Cut;
  }

  lemma {:induction false} SplitCat(a: string, b: string)
    requires Closed(a)
    ensures Split(a + "," + b) == Split(a) + Split(b)
    decreases |a|
  {
    hide Cut, Closed, Split;
    CutCat(a, b);
    var t, n := a + "," + b, Cut(a);
    SplitStep(t);
    SplitStep(a);
    if n == |a| {
      assert t[..n] == a && t[n + 1..] == b;
    } else {
      assert t[..n] == a[..n] && t[n + 1..] == a[n + 1..] + "," + b;
      SplitCat(a[n + 1..], b);
      assert [a[..n]] + (Split(a[n + 1..]) + Split(b)) == ([a[..n]] + Split(a[n + 1..])) + Split(b);
    }
  }

  lemma {:induction false} SplitAtLeast(ps: seq<string>)
    requires ps != [] && forall p :: p in ps ==> Closed(p)
    ensures |Split(Join(ps))| >= |ps|
  {
    if |ps| > 1 {
      SplitCat(ps[0], Join(ps[1..]));
      SplitAtLeast(ps[1..]);
    }
  }

  lemma SplitOne(t: string)
    ensures |Split(t)| == 1 <==> Cut(t) == |t|
    ensures |Split(t)| == 1 ==> Split(t) == [t]
  {
    hide Cut;
  }

  lemma Parts(ps: seq<string>, a: seq<string>, b: seq<string>)
    requires ps != [] && |a| >= 1 && |b| >= |ps| - 1
    ensures a + b == ps <==> a == [ps[0]] && b == ps[1..]
  {
    if a + b == ps {
      assert |a| == 1 && (a + b)[0] == a[0] && (a + b)[1..] == b;
    }
  }

  /** A joined list splits into its parts exactly when no part has a comma of its own. */
  lemma {:induction false} SplitJoin(ps: seq<string>)
    requires ps != [] && forall p :: p in ps ==> Closed(p)
    ensures Split(Join(ps)) == ps <==> forall p :: p in ps ==> Cut(p) == |p|
  {
    hide Split, Cut, Closed;
    SplitOne(ps[0]);
    if |ps| == 1 {
      assert ps == [ps[0]];
    } else {
      var a, rest := Split(ps[0]), ps[1..];
      var b := Split(Join(rest));
      SplitCat(ps[0], Join(rest));
      SplitAtLeast(rest);
      SplitJoin(rest);
      hide Join;
      Parts(ps, a, b);
    }
  }

  lemma {:induction false} EscapeIsSafe(s: string)
    ensures Closed(Escape(s)) && Cut(Escape(s)) == |Escape(s)|
  {
    if s != "" {
      EscapeIsSafe(s[1..]);
      var t := Escape(s);
      if Special(s[0]) {
        assert t[0] == '\\' && t[2..] == Escape(s[1..]);
      } else {
        assert t[0] == s[0] && t[1..] == Escape(s[1..]);
      }
    }
  }

  /** A value behind '=' changes nothing about the commas of the name. */
  lemma {:induction false} PairIsSafe(n: string, t: string)
    requires Closed(t) && Cut(t) == |t|
    ensures Closed(n + "=" + t)
    ensures Cut(n + "=" + t) == |n + "=" + t| <==> Cut(n) == |n|
  {
    var p := n + "=" + t;
    if n == "" {
      assert p[0] == '=' && p[1..] == t;
    } else if n[0] == '\\' && |n| == 1 {
      assert p[0] == '\\' && p[2..] == t;
    } else if n[0] == '\\' {
      assert p[0] == '\\' && p[2..] == n[2..] + "=" + t;
      PairIsSafe(n[2..], t);
    } else if n[0] != ',' {
      assert p[0] == n[0] && p[1..] == n[1..] + "=" + t;
      PairIsSafe(n[1..], t);
    } else {
      ClosedTail(n, t);
    }
  }

  lemma {:induction false} ClosedTail(n: string, t: string)
    requires Closed(t)
    ensures Closed(n + "=" + t)
  {
    var p := n + "=" + t;
    if n == "" {
      assert p[0] == '=' && p[1..] == t;
    } else if n[0] == '\\' && |n| == 1 {
      assert p[0] == '\\' && p[2..] == t;
    } else if n[0] == '\\' {
      assert p[0] == '\\' && p[2..] == n[2..] + "=" + t;
      ClosedTail(n[2..], t);
    } else {
      assert p[0] == n[0] && p[1..] == n[1..] + "=" + t;
      ClosedTail(n[1..], t);
    }
  }

  /** The entries made from names and raw values. */
  function Entries(vars: seq<(string, string)>): (es: seq<Entry>)
    ensures |es| == |vars|
    ensures forall i :: 0 <= i < |vars| ==> es[i] == Entry(vars[i].0, Escape(vars[i].1))
  {
    if vars == [] then [] else [Entry(vars[0].0, Escape(vars[0].1))] + Entries(vars[1..])
  }

  /** The list splits back into its pairs exactly when every name's commas are escaped. */
  lemma ListSplits(vars: seq<(string, string)>)
    requires vars != []
    ensures var ps := Pairs(Entries(vars));
            Split(Join(ps)) == ps <==> forall x :: x in vars ==> Cut(x.0) == |x.0|
  {
    hide Split, Join, Cut, Closed, Escape;
    var ps := Pairs(Entries(vars));
    forall i | 0 <= i < |vars|
      ensures Closed(ps[i]) && (Cut(ps[i]) == |ps[i]| <==> Cut(vars[i].0) == |vars[i].0|)
    {
      EscapeIsSafe(vars[i].1);
      PairIsSafe(vars[i].0, Escape(vars[i].1));
    }
    hide Pairs, Entries;
    SplitJoin(ps);
    if forall p :: p in ps ==> Cut(p) == |p| {
      forall x | x in vars ensures Cut(x.0) == |x.0| {
        var i :| 0 <= i < |vars| && vars[i] == x;
        assert ps[i] in ps;
      }
    }
  }

  /** A lone backslash at the end swallows the comma behind it. */
  lemma {:induction false} CutOpen(a: string, b: string)
    requires !Closed(a)
    ensures Cut(a) < |a| ==> Cut(a + "," + b) == Cut(a) && !Closed(a[Cut(a) + 1..])
    ensures Cut(a) == |a| ==> Cut(a + "," + b) == |a| + 1 + Cut(b)
  {
    var t := a + "," + b;
    if a[0] == '\\' && |a| == 1 {
      assert t[0] == '\\' && t[2..] == b;
      assert a[1..] == "";
    } else if a[0] == '\\' {
      assert t[0] == a[0] && t[2..] == a[2..] + "," + b;
      CutOpen(a[2..], b);
      assert Cut(a) < |a| ==> a[2..][Cut(a[2..]) + 1..] == a[Cut(a) + 1..];
    } else if a[0] == ',' {
      assert t[0] == ',';
    } else {
      assert t[0] == a[0] && t[1..] == a[1..] + "," + b;
      CutOpen(a[1..], b);
      assert Cut(a) < |a| ==> a[1..][Cut(a[1..]) + 1..] == a[Cut(a) + 1..];
    }
  }

  lemma {:induction false} SplitOpen(a: string, b: string)
    requires !Closed(a)
    ensures |Split(a + "," + b)| == |Split(a)| + |Split(b)| - 1
    decreases |a|
  {
    hide Cut, Closed, Split;
    CutOpen(a, b);
    var t, n := a + "," + b, Cut(a);
    SplitStep(t);
    SplitStep(a);
    SplitStep(b);
    if n < |a| {
      assert t[n + 1..] == a[n + 1..] + "," + b;
      SplitOpen(a[n + 1..], b);
    } else if Cut(b) < |b| {
      assert t[|a| + 1 + Cut(b) + 1..] == b[Cut(b) + 1..];
    }
  }

  /** A -v value in front keeps its own parts and leaves the others alone exactly when it ends in no lone backslash. */
  lemma PrefixSplits(v: string, ps: seq<string>)
    ensures Split(v + "," + Join(ps)) == Split(v) + Split(Join(ps)) <==> Closed(v)
  {
    hide Split, Join, Closed;
    if Closed(v) {
      SplitCat(v, Join(ps));
    } else {
      SplitOpen(v, Join(ps));
    }
  }

  function EqualsAt(p: string): (n: nat)
    ensures n <= |p|
  {
    if p == "" || p[0] == '=' then 0 else 1 + EqualsAt(p[1..])
  }

  /** Name and raw value of a pair. */
  function Decode(p: string): (string, string) {
    var n := EqualsAt(p);
    if n == |p| then (p, "") else (p[..n], Unescape(p[n + 1..]))
  }

  lemma {:induction false} EqualsAfter(n: string, t: string)
    requires '=' !in n
    ensures EqualsAt(n + "=" + t) == |n|
  {
    var p := n + "=" + t;
    if n == "" {
      assert p[0] == '=';
    } else {
      assert p[0] == n[0] && p[1..] == n[1..] + "=" + t;
      EqualsAfter(n[1..], t);
    }
  }

  lemma {:induction false} EqualsFirst(n: string, t: string)
    requires '=' in n
    ensures EqualsAt(n + "=" + t) < |n|
  {
    var p := n + "=" + t;
    assert p[0] == n[0];
    if n[0] != '=' {
      assert p[1..] == n[1..] + "=" + t;
      EqualsFirst(n[1..], t);
    }
  }

  /** A pair decodes to its name and value exactly when the name holds no '='. */
  lemma PairDecodes(n: string, v: string)
    ensures Decode(n + "=" + Escape(v)) == (n, v) <==> '=' !in n
  {
    var t := Escape(v);
    var p := n + "=" + t;
    if '=' in n {
      EqualsFirst(n, t);
      assert |p[..EqualsAt(p)]| < |n|;
    } else {
      EqualsAfter(n, t);
      UnescapeEscape(v);
      assert p[..|n|] == n && p[|n| + 1..] == t;
    }
  }

  ghost predicate Recovered(ps: seq<string>, vars: seq<(string, string)>) {
    |ps| == |vars| && forall i :: 0 <= i < |vars| ==> Decode(ps[i]) == vars[i]
  }

  /** The whole way: when the names' commas are escaped, list, split and decode give the variables back exactly when no name holds '='. */
  lemma Delivered(vars: seq<(string, string)>)
    requires vars != [] && forall x :: x in vars ==> Cut(x.0) == |x.0|
    ensures Recovered(Split(Join(Pairs(Entries(vars)))), vars) <==> forall x :: x in vars ==> '=' !in x.0
  {
    ListSplits(vars);
    var ps := Pairs(Entries(vars));
    hide Split, Join, Cut, Decode, Escape, EqualsAt;
    forall i | 0 <= i < |vars| ensures Decode(ps[i]) == vars[i] <==> '=' !in vars[i].0 {
      PairDecodes(vars[i].0, vars[i].1);
    }
    if Recovered(ps, vars) {
      forall x | x in vars ensures '=' !in x.0 {
        var i :| 0 <= i < |vars| && vars[i] == x;
      }
    }
  }
}
