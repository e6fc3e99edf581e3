/**
  The attribute list of a qmgr command, `name[.resource] op value, ...`
  (src/cmds/qmgr.c:330-589, macros in src/include/qmgr.h:39-48).

  The parser is given as a function of the text still to be read; `Attributes` below is the code,
  one cursor moving over the whole text.
 */
module QmgrAttributes {
  import opened Common

  datatype Command = Create | Delete | Set | Unset | List | Show | Active

  datatype Operator = Assign | Increase | Decrease

  /** `struct attropl`; an attribute without operator has the empty value and no `op`. */
  datatype Attr = Attr(name: string, resource: Option<string>, op: Option<Operator>, value: string)

  /**
    Accepted: return code 0 and the list built, whose head is the last attribute read.
    Rejected: a nonzero return code.  OffEnd: the cursor steps over the terminator and reads on.
   */
  datatype Verdict = Accepted(list: seq<Attr>) | Rejected(offset: int) | OffEnd

  /** One attribute read: more follow, none follow, an error with `left` characters unread, or OffEnd. */
  datatype Item = More(attr: Attr, rest: string) | Last(attr: Attr) | Bad(left: int) | Over

  // -- the scanning loops --

  /** The Oper macro on a character and the one after it. */
  predicate OperPair(a: char, b: char) {
    a == '=' || ((a == '+' || a == '-') && b == '=')
  }

  function NameLen(t: string): (n: nat)
    ensures n <= |t|
  {
    if t == "" || t[0] == '.' || t[0] == ',' || Space(t[0]) || OperPair(t[0], At(t, 1)) then 0
    else 1 + NameLen(t[1..])
  }

  function ResourceLen(t: string): (n: nat)
    ensures n <= |t|
  {
    if t == "" || Space(t[0]) || OperPair(t[0], At(t, 1)) then 0 else 1 + ResourceLen(t[1..])
  }

  function RawLen(t: string): (n: nat)
    ensures n <= |t|
  {
    if t == "" || Space(t[0]) || t[0] == ',' then 0 else 1 + RawLen(t[1..])
  }

  // -- one attribute --

  function ReadItem(t0: string, cmd: Command): (r: Item)
    ensures r.More? ==> |r.rest| < |t0|
    ensures r.Bad? ==> -1 <= r.left <= |t0|
  {
    var t := Trim(t0);
    if t == "" then Bad(0) else
    var n := NameLen(t);
    if n == 0 then Bad(|t|)
    else if At(t, n) == '.' then
      var v := t[n + 1..];
      var r := ResourceLen(v);
      if r == 0 then Bad(|v|) else ReadOp(t[..n], Some(v[..r]), v[r..], cmd)
    else ReadOp(t[..n], None, t[n..], cmd)
  }

  function ReadOp(name: string, resource: Option<string>, t0: string, cmd: Command): (r: Item)
    ensures r.More? ==> |r.rest| < |t0|
    ensures r.Bad? ==> -1 <= r.left <= |t0|
  {
    var t := Trim(t0);
    if t == "" then
      if cmd == Create || cmd == Set then Bad(0) else Last(Attr(name, resource, None, ""))
    else if t[0] == '=' then ReadValue(name, resource, Assign, t[1..], cmd)
    else if t[0] == '+' || t[0] == '-' then
      if |t| == 1 then (if cmd == Unset then Bad(-1) else Over)
      else ReadValue(name, resource, if t[0] == '+' then Increase else Decrease, t[2..], cmd)
    else if t[0] == ',' then More(Attr(name, resource, None, ""), t[1..])
    else Bad(|t|)
  }

  function ReadValue(name: string, resource: Option<string>, op: Operator, t0: string, cmd: Command): (r: Item)
    ensures r.More? ==> |r.rest| < |t0|
    ensures r.Bad? ==> -1 <= r.left <= |t0|
  {
    if cmd == Unset then Bad(|t0|) else
    var t := Trim(t0);
    if t == "" then Bad(0)
    else if Quote(t[0]) then
      var w := t[1..];
      var k := QuoteLen(w, t[0]);
      if k == |w| then Bad(|w|) else ReadEnd(Attr(name, resource, Some(op), w[..k]), w[k + 1..])
    else
      var k := RawLen(t);
      ReadEnd(Attr(name, resource, Some(op), t[..k]), t[k..])
  }

  function ReadEnd(a: Attr, t0: string): (r: Item)
    ensures r.More? ==> |r.rest| < |t0|
    ensures r.Bad? ==> -1 <= r.left <= |t0|
  {
    var t := Trim(t0);
    if t == "" then Last(a) else if t[0] == ',' then More(a, t[1..]) else Bad(|t|)
  }

  // -- the whole list --

  function ReadItems(s: string, t: string, cmd: Command, acc: seq<Attr>): Verdict
    decreases |t|
  {
    match ReadItem(t, cmd)
    case More(a, rest) => ReadItems(s, rest, cmd, [a] + acc)
    case Last(a) => Accepted([a] + acc)
    case Bad(left) => Rejected(if |s| == left then 1 else |s| - left)
    case Over => OffEnd
  }

  function Parse(s: string, cmd: Command): Verdict {
    if Trim(s) == "" then Accepted([]) else ReadItems(s, s, cmd, [])
  }

  // -- the code --

  method ReadName(s: string, start: nat) returns (c: nat)
    requires start <= |s|
    ensures c == start + NameLen(s[start..])
  {
    c := start;
    while At(s, c) != '.' && At(s, c) != ',' && c < |s| && !OperPair(At(s, c), At(s, c + 1)) && !Space(At(s, c))
      invariant start <= c <= |s| && c + NameLen(s[c..]) == start + NameLen(s[start..])
      decreases |s| - c
    {
      assert s[c..][0] == s[c] && s[c..][1..] == s[c + 1..] && At(s[c..], 1) == At(s, c + 1);
      c := c + 1;
    }
    assert c < |s| ==> s[c..][0] == s[c] && At(s[c..], 1) == At(s, c + 1);
  }

  method ReadResource(s: string, start: nat) returns (c: nat)
    requires start <= |s|
    ensures c == start + ResourceLen(s[start..])
  {
    c := start;
    while !Space(At(s, c)) && !OperPair(At(s, c), At(s, c + 1)) && c < |s|
      invariant start <= c <= |s| && c + ResourceLen(s[c..]) == start + ResourceLen(s[start..])
      decreases |s| - c
    {
      assert s[c..][0] == s[c] && s[c..][1..] == s[c + 1..] && At(s[c..], 1) == At(s, c + 1);
      c := c + 1;
    }
    assert c < |s| ==> s[c..][0] == s[c] && At(s[c..], 1) == At(s, c + 1);
  }

  method ReadRaw(s: string, start: nat) returns (c: nat)
    requires start <= |s|
    ensures c == start + RawLen(s[start..])
  {
    c := start;
    while !Space(At(s, c)) && At(s, c) != ',' && c < |s|
      invariant start <= c <= |s| && c + RawLen(s[c..]) == start + RawLen(s[start..])
      decreases |s| - c
    {
      assert s[c..][0] == s[c] && s[c..][1..] == s[c + 1..];
      c := c + 1;
    }
    assert c < |s| ==> s[c..][0] == s[c];
  }

  /** The attribute from position `start` on; `c` is where reading goes on after a comma. */
  method NextItem(s: string, start: nat, cmd: Command) returns (r: Item, c: nat)
    requires start <= |s|
    ensures r == ReadItem(s[start..], cmd)
    ensures r.More? ==> c <= |s| && r.rest == s[c..]
  {
    hide Trim, NameLen, ResourceLen, ReadOp;
    c := SkipSpace(s, start);
    if c == |s| {
      return Bad(0), c;
    }
    var from := c;
    c := ReadName(s, from);
    if c == from {
      return Bad(|s| - c), c;
    }
    var name, resource := s[from..c], None;
    assert s[from..][..c - from] == name && s[from..][c - from..] == s[c..] && At(s[from..], c - from) == At(s, c);
    if At(s, c) == '.' {
      var res := c + 1;
      assert s[from..][c - from + 1..] == s[res..];
      c := ReadResource(s, res);
      if c == res {
        return Bad(|s| - c), c;
      }
      resource := Some(s[res..c]);
      assert s[res..][..c - res] == s[res..c] && s[res..][c - res..] == s[c..];
    }
    r, c := NextOp(s, c, name, resource, cmd);
  }

  method NextOp(s: string, start: nat, name: string, resource: Option<string>, cmd: Command) returns (r: Item, c: nat)
    requires start <= |s|
    ensures r == ReadOp(name, resource, s[start..], cmd)
    ensures r.More? ==> c <= |s| && r.rest == s[c..]
  {
    hide Trim, ReadValue;
    c := SkipSpace(s, start);
    if c == |s| {
      r := if cmd == Create || cmd == Set then Bad(0) else Last(Attr(name, resource, None, ""));
      return;
    }
    assert s[c..][0] == s[c] && s[c..][1..] == s[c + 1..];
    if s[c] == '=' {
      r, c := NextValue(s, c + 1, name, resource, Assign, cmd);
    } else if s[c] == '+' || s[c] == '-' {
      if c + 1 == |s| {
        r := if cmd == Unset then Bad(-1) else Over;
        return;
      }
      assert s[c..][2..] == s[c + 2..];
      r, c := NextValue(s, c + 2, name, resource, if s[c] == '+' then Increase else Decrease, cmd);
    } else if s[c] == ',' {
      c := c + 1;
      r := More(Attr(name, resource, None, ""), s[c..]);
    } else {
      r := Bad(|s| - c);
    }
  }

  method NextValue(s: string, start: nat, name: string, resource: Option<string>, op: Operator, cmd: Command)
    returns (r: Item, c: nat)
    requires start <= |s|
    ensures r == ReadValue(name, resource, op, s[start..], cmd)
    ensures r.More? ==> c <= |s| && r.rest == s[c..]
  {
    hide Trim, QuoteLen, RawLen, ReadEnd;
    c := start;
    if cmd == Unset {
      return Bad(|s| - c), c;
    }
    c := SkipSpace(s, c);
    if c == |s| {
      return Bad(0), c;
    }
    assert s[c..][0] == s[c] && s[c..][1..] == s[c + 1..];
    var from, value;
    if Quote(s[c]) {
      var q := s[c];
      from := c + 1;
      c := ReadQuoted(s, from, q);
      if c == |s| {
        return Bad(|s| - from), c;
      }
      value := s[from..c];
      assert s[from..][..c - from] == value && s[from..][c - from + 1..] == s[c + 1..];
      c := c + 1;
    } else {
      from := c;
      c := ReadRaw(s, from);
      value := s[from..c];
      assert s[from..][..c - from] == value && s[from..][c - from..] == s[c..];
    }
    r, c := NextEnd(s, c, Attr(name, resource, Some(op), value));
  }

  method NextEnd(s: string, start: nat, a: Attr) returns (r: Item, c: nat)
    requires start <= |s|
    ensures r == ReadEnd(a, s[start..])
    ensures r.More? ==> c <= |s| && r.rest == s[c..]
  {
    c := SkipSpace(s, start);
    if c == |s| {
      r := Last(a);
    } else if s[c] == ',' {
      assert s[c..][0] == s[c] && s[c..][1..] == s[c + 1..];
      c := c + 1;
      r := More(a, s[c..]);
    } else {
      assert s[c..][0] == s[c];
      r := Bad(|s| - c);
    }
  }

  /** attributes() */
  method Attributes(s: string, cmd: Command) returns (r: Verdict)
    ensures r == Parse(s, cmd)
  {
    var c := SkipSpace(s, 0);
    assert s[0..] == s;
    if c == |s| {
      return Accepted([]);
    }
    c := 0;
    var list: seq<Attr> := [];
    while true
      invariant 0 <= c <= |s|
      invariant ReadItems(s, s[c..], cmd, list) == ReadItems(s, s, cmd, [])
      decreases |s| - c
    {
      var item, next := NextItem(s, c, cmd);
      match item
      case More(a, _) =>
        list, c := [a] + list, next;
      case Last(a) =>
        return Accepted([a] + list);
      case Bad(left) =>
        return Rejected(if |s| == left then 1 else |s| - left);
      case Over =>
        return OffEnd;
    }
  }
}
