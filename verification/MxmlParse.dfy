/**
  The recursive-descent parser of src/cmds/MXML.c:1328-1738, over a NUL-terminated text `s`
  (`s` holds no NUL; the terminator sits at index |s|).

  Attributes are scanned and dropped: MXMLSetAttr stores nothing in a table that starts empty.
  `Undefined` marks the texts on which the code follows a pointer past the terminator, or a
  NULL name.
 */
module MxmlParse {
  import opened Common
  import opened MxmlTree

  datatype Outcome = Parsed(node: Node, tail: nat) | Rejected | Undefined

  datatype NameScan = OpenName(end: nat) | ClosedName(end: nat) | NameTooLong | NameOver

  datatype AttrScan = Opened(at: nat) | Ended(tail: nat) | AttrsCorrupt

  datatype KidScan = Stopped(at: nat, kids: seq<Node>) | KidsCorrupt | KidsOver

  // -- strchr, strstr and strncmp --

  function StrChr(s: string, p: nat, c: char): (r: Option<nat>)
    requires p <= |s|
    ensures r.Some? ==> p <= r.value < |s| && s[r.value] == c
    decreases |s| - p
  {
    if p == |s| then None else if s[p] == c then Some(p) else StrChr(s, p + 1, c)
  }

  predicate StartsWith(s: string, p: nat, w: string) {
    p + |w| <= |s| && s[p..p + |w|] == w
  }

  function StrStr(s: string, p: nat, w: string): (r: Option<nat>)
    requires p <= |s|
    ensures r.Some? ==> p <= r.value <= |s| && StartsWith(s, r.value, w)
    decreases |s| - p
  {
    if StartsWith(s, p, w) then Some(p) else if p == |s| then None else StrStr(s, p + 1, w)
  }

  /** strncmp(ptr, "!--", 3) == 0 */
  predicate Comment(s: string, p: nat) {
    At(s, p) == '!' && At(s, p + 1) == '-' && At(s, p + 2) == '-'
  }

  // -- the scanning loops --

  /** Past `<?...?>` and `<!--...-->` to the next element. */
  function SkipMeta(s: string, p: nat): (r: Option<nat>)
    requires p < |s| && (s[p] == '<' || s[p] == '!')
    ensures r.Some? ==> p <= r.value < |s| && (s[r.value] == '<' || s[r.value] == '!')
    ensures r.Some? ==> At(s, r.value + 1) != '?' && At(s, r.value + 1) != '!'
    decreases |s| - p
  {
    if At(s, p + 1) == '?' then
      var lt := After(s, p + 2, "?>");
      if lt.None? then None else SkipMeta(s, lt.value)
    else if At(s, p + 1) == '!' then
      if !Comment(s, p + 1) then SkipMeta(s, p + 1) else
      var lt := After(s, p + 4, "-->");
      if lt.None? then None else SkipMeta(s, lt.value)
    else Some(p)
  }

  function SkipWhite(s: string, p: nat): (q: nat)
    requires p <= |s|
    ensures p <= q <= |s| && !Space(At(s, q))
    ensures forall j :: p <= j < q ==> Space(s[j])
    decreases |s| - p
  {
    if Space(At(s, p)) then SkipWhite(s, p + 1) else p
  }

  function SkipBlanks(s: string, p: nat): (q: nat)
    requires p <= |s|
    ensures p <= q <= |s|
    decreases |s| - p
  {
    if At(s, p) == ' ' then SkipBlanks(s, p + 1) else p
  }

  function ScanName(s: string, p: nat, n: nat): (r: NameScan)
    requires p <= |s|
    ensures r.OpenName? ==> p <= r.end < |s|
    ensures r.ClosedName? ==> p <= r.end && r.end + 2 <= |s|
    ensures r.OpenName? || r.ClosedName? ==> n + (r.end - p) < MMAX_LINE || r.end == p
    ensures r.OpenName? || r.ClosedName? ==> ' ' !in s[p..r.end] && '>' !in s[p..r.end]
    decreases |s| - p
  {
    if At(s, p) == ' ' || At(s, p) == '>' then OpenName(p)
    else if At(s, p) == '/' && At(s, p + 1) == '>' then ClosedName(p)
    else if p == |s| then NameOver
    else if n + 1 >= MMAX_LINE || p + 1 == |s| then NameTooLong
    else ScanName(s, p + 1, n + 1)
  }

  function ScanAttrName(s: string, p: nat, n: nat): (q: nat)
    requires p <= |s|
    ensures p <= q <= |s|
    decreases |s| - p
  {
    if At(s, p) == '=' || p == |s| then p
    else if n + 1 >= MMAX_LINE then p + 1
    else ScanAttrName(s, p + 1, n + 1)
  }

  function ScanAttrVal(s: string, p: nat, n: nat): (r: Option<nat>)
    requires p < |s|
    ensures r.Some? ==> p <= r.value < |s|
    decreases |s| - p
  {
    if s[p] == '"' && !(p > 0 && s[p - 1] == '\\') then Some(p)
    else if n + 1 >= MMAX_XBUFFER || p + 1 == |s| then None
    else ScanAttrVal(s, p + 1, n + 1)
  }

  function SkipAttrs(s: string, p: nat): (r: AttrScan)
    requires p <= |s|
    ensures r.Opened? ==> p <= r.at < |s|
    ensures r.Ended? ==> p < r.tail <= |s|
    decreases |s| - p
  {
    if At(s, p) == '>' then Opened(p) else
    var v := AttrValueStart(s, p);
    if v == |s| then AttrsCorrupt else
    var q := ScanAttrVal(s, v, 0);
    if q.None? then AttrsCorrupt else
    var d := SkipBlanks(s, q.value + 1);
    if At(s, d) == '/' && At(s, d + 1) == '>' then Ended(d + 2) else SkipAttrs(s, d)
  }

  /** Past the attribute name, the `=` and the opening quote, none of them beyond the terminator. */
  function AttrValueStart(s: string, p: nat): (v: nat)
    requires p <= |s|
    ensures p <= v <= |s|
  {
    var a := ScanAttrName(s, p, 0);
    var b := if a < |s| then a + 1 else a;
    if b < |s| then b + 1 else b
  }

  /** To the next `<`, or MMAX_XBUFFER characters on; None when the terminator is run over first. */
  function ScanVal(s: string, p: nat, n: nat): (r: Option<nat>)
    requires p <= |s|
    ensures r.Some? ==> p <= r.value <= |s|
    decreases |s| - p
  {
    if n >= MMAX_XBUFFER then Some(p)
    else if p == |s| then None
    else if s[p] == '<' then Some(p)
    else ScanVal(s, p + 1, n + 1)
  }

  /** Byte 14 stands for '<' in a received value. */
  function Restore(v: string): (r: string)
    ensures |r| == |v|
    ensures forall i :: 0 <= i < |v| ==> r[i] == if v[i] == 14 as char then '<' else v[i]
  {
    seq(|v|, i requires 0 <= i < |v| => if v[i] == 14 as char then '<' else v[i])
  }

  /** MXMLCreateE leaves Name NULL for an empty name. */
  function MakeName(n: string): Option<string> {
    if n == "" then None else Some(n)
  }

  // -- the grammar --

  function Parse(s: string, p: nat): (r: Outcome)
    requires p <= |s|
    ensures r.Parsed? ==> p < r.tail <= |s| && r.node.Elem?
    decreases |s| - p, 1
  {
    var q := StrChr(s, p, '<');
    if q.None? || At(s, q.value + 1) == '/' then Rejected else
    var m := SkipMeta(s, q.value);
    if m.None? then Rejected else Element(s, m.value)
  }

  /** The element from its tag on. */
  function Element(s: string, m: nat): (r: Outcome)
    requires m <= |s|
    ensures r.Parsed? ==> m < r.tail <= |s| && r.node.Elem?
    decreases |s| - m, 0
  {
    var t := SkipWhite(s, m);
    if At(s, t) != '<' then Rejected else
    match ScanName(s, t + 1, 0)
    case NameOver => Undefined
    case NameTooLong => Rejected
    case ClosedName(u) => Parsed(Elem(MakeName(s[t + 1..u]), None, []), u + 2)
    case OpenName(u) =>
      match SkipAttrs(s, SkipBlanks(s, u))
      case AttrsCorrupt => Rejected
      case Ended(w) => Parsed(Elem(MakeName(s[t + 1..u]), None, []), w)
      case Opened(w) => Body(s, s[t + 1..u], SkipWhite(s, w + 1))
  }

  /** The value, the children and the closing tag. */
  function Body(s: string, name: string, p: nat): (r: Outcome)
    requires p <= |s|
    ensures r.Parsed? ==> p < r.tail <= |s| && r.node.Elem? && r.node.name == MakeName(name)
    decreases |s| - p, 3
  {
    var end := if At(s, p) == '<' then Some(p) else ScanVal(s, p, 0);
    if end.None? then Undefined else
    var val := if At(s, p) == '<' then None else Some(Restore(s[p..end.value]));
    match ScanKids(s, end.value, [])
    case KidsOver => Undefined
    case KidsCorrupt => Rejected
    case Stopped(at, kids) =>
      var tail := Foot(s, name, at);
      if tail.None? then Undefined else Parsed(Elem(MakeName(name), val, kids), tail.value)
  }

  function ScanKids(s: string, p: nat, acc: seq<Node>): (r: KidScan)
    requires p <= |s|
    ensures r.Stopped? ==> p <= r.at < |s|
    decreases |s| - p, 2
  {
    if p == |s| then KidsOver
    else if At(s, p + 1) == '/' then Stopped(p, acc)
    else
      match Parse(s, p)
      case Rejected => Stopped(p, acc)
      case Undefined => KidsOver
      case Parsed(kid, tail) => if tail == |s| then KidsCorrupt else ScanKids(s, tail, acc + [kid])
  }

  /** Past the closing tag, whose name is skipped by length and never compared. */
  function Foot(s: string, name: string, p: nat): (r: Option<nat>)
    requires p < |s|
    ensures r.Some? ==> p < r.value <= |s|
  {
    var q := SkipWhite(s, p);
    if At(s, q) != '/' && name == "" then None else
    var tail := if At(s, q) == '/' then q + 2 else q + 3 + |name|;
    if tail <= |s| then Some(tail) else None
  }

  // -- the code: the same scans as loops over one cursor --

  method ReadName(s: string, start: nat) returns (r: NameScan, name: string)
    requires start <= |s|
    ensures r == ScanName(s, start, 0)
    ensures r.OpenName? || r.ClosedName? ==> name == s[start..r.end]
  {
    var ptr, index := start, 0;
    name := "";
    while At(s, ptr) != ' ' && At(s, ptr) != '>'
      invariant start <= ptr <= |s| && ptr == start + index
      invariant ScanName(s, ptr, index) == ScanName(s, start, 0)
      invariant name == s[start..ptr]
      decreases |s| - ptr
    {
      if At(s, ptr) == '/' && At(s, ptr + 1) == '>' {
        return ClosedName(ptr), name;
      }
      if ptr == |s| {
        return NameOver, name;
      }
      assert s[start..ptr + 1] == s[start..ptr] + [s[ptr]];
      name := name + [s[ptr]];
      index, ptr := index + 1, ptr + 1;
      if index >= MMAX_LINE || ptr == |s| {
        return NameTooLong, name;
      }
    }
    r := OpenName(ptr);
  }

  method ReadAttrName(s: string, start: nat) returns (ptr: nat)
    requires start <= |s|
    ensures ptr == AttrValueStart(s, start)
  {
    var index := 0;
    ptr := start;
    while At(s, ptr) != '=' && ptr < |s|
      invariant start <= ptr <= |s| && index < MMAX_LINE
      invariant ScanAttrName(s, ptr, index) == ScanAttrName(s, start, 0)
      decreases |s| - ptr
    {
      index, ptr := index + 1, ptr + 1;
      if index >= MMAX_LINE {
        break;
      }
    }
    if ptr < |s| {
      ptr := ptr + 1;
    }
    if ptr < |s| {
      ptr := ptr + 1;
    }
  }

  method ReadAttrs(s: string, start: nat) returns (r: AttrScan)
    requires start <= |s|
    ensures r == SkipAttrs(s, start)
  {
    hide SkipBlanks, AttrValueStart;
    var ptr := start;
    while At(s, ptr) != '>'
      invariant start <= ptr <= |s|
      invariant SkipAttrs(s, ptr) == SkipAttrs(s, start)
      decreases |s| - ptr
    {
      ptr := ReadAttrName(s, ptr);
      if ptr == |s| {
        return AttrsCorrupt;
      }
      ghost var open := ptr;
      var index := 0;
      while s[ptr] != '"' || (ptr > 0 && s[ptr - 1] == '\\')
        invariant open <= ptr < |s|
        invariant ScanAttrVal(s, ptr, index) == ScanAttrVal(s, open, 0)
        decreases |s| - ptr
      {
        index, ptr := index + 1, ptr + 1;
        if index >= MMAX_XBUFFER || ptr == |s| {
          return AttrsCorrupt;
        }
      }
      ptr := SkipBlanks(s, ptr + 1);
      if At(s, ptr) == '/' && At(s, ptr + 1) == '>' {
        return Ended(ptr + 2);
      }
    }
    r := Opened(ptr);
  }

  method ReadVal(s: string, start: nat) returns (r: Option<nat>, val: string)
    requires start <= |s|
    ensures r == ScanVal(s, start, 0)
    ensures r.Some? ==> val == s[start..r.value]
  {
    var ptr, index := start, 0;
    val := "";
    while At(s, ptr) != '<'
      invariant start <= ptr <= |s| && index < MMAX_XBUFFER
      invariant ScanVal(s, ptr, index) == ScanVal(s, start, 0)
      invariant val == s[start..ptr]
      decreases |s| - ptr
    {
      if ptr == |s| {
        return None, val;
      }
      val := val + [s[ptr]];
      index, ptr := index + 1, ptr + 1;
      if index >= MMAX_XBUFFER {
        break;
      }
    }
    r := Some(ptr);
  }

  /** To the `<` after the next `end`, if both are there. */
  function After(s: string, p: nat, end: string): (r: Option<nat>)
    requires p <= |s|
    ensures r.Some? ==> p <= r.value < |s| && s[r.value] == '<'
  {
    var q := StrStr(s, p, end);
    if q.None? then None else StrChr(s, q.value, '<')
  }

  /** To the `<` of the next element, past meta elements and comments. */
  method FindElement(s: string, start: nat) returns (r: Option<nat>)
    requires start < |s| && s[start] == '<'
    ensures r == SkipMeta(s, start)
  {
    hide StrChr, StrStr, After;
    var ptr := start;
    while At(s, ptr + 1) == '?' || At(s, ptr + 1) == '!'
      invariant start <= ptr < |s| && (s[ptr] == '<' || s[ptr] == '!')
      invariant SkipMeta(s, ptr) == SkipMeta(s, start)
      decreases |s| - ptr
    {
      ptr := ptr + 1;
      if s[ptr] == '?' {
        var lt := After(s, ptr + 1, "?>");
        if lt.None? {
          return None;
        }
        ptr := lt.value;
      }
      if Comment(s, ptr) {
        var lt := After(s, ptr + 3, "-->");
        if lt.None? {
          return None;
        }
        ptr := lt.value;
      }
    }
    r := Some(ptr);
  }

  /** The part of MXMLFromString after the opening tag. */
  method ReadBody(s: string, name: string, start: nat) returns (r: Outcome)
    requires start <= |s|
    ensures r == Body(s, name, start)
    decreases |s| - start, 1
  {
    hide Parse, Foot, MakeName;
    var ptr := start;
    var val: Option<string> := None;
    if At(s, ptr) != '<' {
      var end, text := ReadVal(s, ptr);
      if end.None? {
        return Undefined;
      }
      val, ptr := Some(Restore(text)), end.value;
    }
    ghost var first := ptr;
    var kids: seq<Node> := [];
    while true
      invariant start <= first <= ptr <= |s|
      invariant ScanKids(s, ptr, kids) == ScanKids(s, first, [])
      decreases |s| - ptr
    {
      if ptr == |s| {
        return Undefined;
      }
      if At(s, ptr + 1) == '/' {
        break;
      }
      var kid := FromString(s, ptr);
      if kid.Rejected? {
        break;
      }
      if kid.Undefined? {
        return Undefined;
      }
      kids, ptr := kids + [kid.node], kid.tail;
      if ptr == |s| {
        return Rejected;
      }
    }
    var tail := Foot(s, name, ptr);
    r := if tail.None? then Undefined else Parsed(Elem(MakeName(name), val, kids), tail.value);
  }

  /** MXMLFromString. */
  method FromString(s: string, start: nat) returns (r: Outcome)
    requires start <= |s|
    ensures r == Parse(s, start)
    decreases |s| - start, 0
  {
    hide StrChr, SkipMeta, SkipWhite, SkipBlanks, ScanName, SkipAttrs, Body, MakeName;
    var q := StrChr(s, start, '<');
    if q.None? || At(s, q.value + 1) == '/' {
      return Rejected;
    }
    var m := FindElement(s, q.value);
    if m.None? {
      return Rejected;
    }
    var ptr := SkipWhite(s, m.value);
    if At(s, ptr) != '<' {
      return Rejected;
    }
    var scan, name := ReadName(s, ptr + 1);
    match scan
    case NameOver =>
      r := Undefined;
    case NameTooLong =>
      r := Rejected;
    case ClosedName(u) =>
      r := Parsed(Elem(MakeName(name), None, []), u + 2);
    case OpenName(u) =>
      var attrs := ReadAttrs(s, SkipBlanks(s, u));
      match attrs
      case AttrsCorrupt =>
        r := Rejected;
      case Ended(w) =>
        r := Parsed(Elem(MakeName(name), None, []), w);
      case Opened(w) =>
        r := ReadBody(s, name, SkipWhite(s, w + 1));
  }
}
