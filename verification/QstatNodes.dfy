/**
  qstat's count of the tasks a node request asks for (src/cmds/qstat.c:669-753).

  Pointers into the text are modelled by the text from there on; NULL is None.
 */
module QstatNodes {
  import opened Common

  const INT_MAX := 0x7fff_ffff
  const LONG_MAX := 0x7fff_ffff_ffff_ffff

  // -- the C library --

  predicate Digits(t: string) {
    forall c :: c in t ==> Digit(c)
  }

  function DigitsLen(t: string): (n: nat)
    ensures n <= |t| && Digits(t[..n]) && (n < |t| ==> !Digit(t[n]))
  {
    if t == "" || !Digit(t[0]) then 0 else
    var n := DigitsLen(t[1..]);
    assert t[..1 + n] == [t[0]] + t[1..][..n];
    1 + n
  }

  function Decimal(t: string): nat
    requires Digits(t)
  {
    if t == "" then 0 else
    assert Digit(t[|t| - 1]);
    10 * Decimal(t[..|t| - 1]) + (t[|t| - 1] as int - '0' as int)
  }

  function Clamped(v: int): int {
    if v > LONG_MAX then LONG_MAX else if v < -LONG_MAX - 1 then -LONG_MAX - 1 else v
  }

  /** A sign in front of `u`, or none. */
  function SignLen(u: string): (k: nat)
    ensures k <= |u| && k <= 1
  {
    if u != "" && (u[0] == '+' || u[0] == '-') then 1 else 0
  }

  /** strtol in base 10: the value and the number of characters used, 0 when there is no number. */
  function StrToL(t: string): (r: (int, nat))
    ensures r.1 <= |t|
  {
    var u := Trim(t);
    var k := SignLen(u);
    var d := DigitsLen(u[k..]);
    if d == 0 then (0, 0) else
    var v: int := Decimal(u[k..][..d]);
    (Clamped(if k == 1 && u[0] == '-' then -v else v), |t| - |u| + k + d)
  }

  /** strpbrk(t, "+:") */
  function Pbrk(t: string): (r: Option<string>)
    ensures r.Some? ==> r.value != "" && |r.value| <= |t| && (r.value[0] == '+' || r.value[0] == ':')
  {
    if t == "" then None else if t[0] == '+' || t[0] == ':' then Some(t) else Pbrk(t[1..])
  }

  /** strchr(t, '+') */
  function Plus(t: string): (r: Option<string>)
    ensures r.Some? ==> r.value != "" && |r.value| <= |t| && r.value[0] == '+'
  {
    if t == "" then None else if t[0] == '+' then Some(t) else Plus(t[1..])
  }

  // -- the code as functions --

  function Usable(v: int, t: string, n: nat): bool
    requires n <= |t|
  {
    n > 0 && (n == |t| || t[n] == ':' || t[n] == '+') && 0 < v < INT_MAX
  }

  /** read_int_token: the number, 1 if it is unusable, and where the next token begins. */
  function IntToken(t: string): (r: (int, Option<string>))
    ensures 0 < r.0 < INT_MAX
    ensures r.1.Some? ==> r.1.value != "" && |r.1.value| <= |t|
  {
    var (v, n) := StrToL(t);
    (if Usable(v, t, n) then v else 1, Pbrk(t[n..]))
  }

  /** read_int_prop: 0 when the property is not ppn. */
  function IntProp(t: string): (r: (int, Option<string>))
    ensures 0 <= r.0 < INT_MAX
    ensures r.1.Some? ==> r.1.value != "" && |r.1.value| <= |t|
  {
    if "ppn=" <= t then IntToken(t[4..]) else (0, Pbrk(t))
  }

  /** The property loop of read_node_spec. */
  function Props(x: Option<string>): (r: (int, Option<string>))
    ensures 0 <= r.0 < INT_MAX
    ensures r.1.Some? ==> x.Some? && |r.1.value| <= |x.value|
    ensures r.1.Some? ==> r.1.value != "" || x == r.1
    decreases if x.Some? then |x.value| else 0
  {
    if x.None? || x.value == "" || x.value[0] != ':' then (0, x) else
    var (v, y) := IntProp(x.value[1..]);
    if v == 0 then Props(y) else (v, y)
  }

  /** read_node_spec */
  function NodeSpec(t: string): (r: (int, Option<string>))
    ensures 0 < r.0 <= INT_MAX
    ensures r.1.Some? ==> r.1.value != "" && |r.1.value| <= |t| && r.1.value[0] == '+'
  {
    var (nodes, x) := IntToken(t);
    var (procs, y) := Props(x);
    (Product(nodes, if procs == 0 then 1 else procs), if y.None? then None else Plus(y.value))
  }

  function Product(nodes: int, procs: int): (r: int)
    requires 0 < nodes && 0 < procs
    ensures 0 < r <= INT_MAX
  {
    assert nodes * procs > 0;
    if nodes * procs > INT_MAX then 1 else nodes * procs
  }

  /** 32-bit signed addition. */
  function Wrap(v: int): (r: int)
    ensures -INT_MAX - 1 <= r <= INT_MAX
  {
    (v + INT_MAX + 1) % (2 * (INT_MAX + 1)) - INT_MAX - 1
  }

  // -- the code --

  method ReadIntToken(t: string) returns (cnt: int, next: Option<string>)
    ensures (cnt, next) == IntToken(t)
  {
    var (v, n) := StrToL(t);
    cnt := v;
    if n == 0 || (n < |t| && t[n] != ':' && t[n] != '+') || cnt >= INT_MAX || cnt <= 0 {
      cnt := 1;
    }
    next := Pbrk(t[n..]);
  }

  method ReadIntProp(t: string) returns (cnt: int, next: Option<string>)
    ensures (cnt, next) == IntProp(t)
  {
    if "ppn=" <= t {
      cnt, next := ReadIntToken(t[4..]);
    } else {
      cnt, next := 0, Pbrk(t);
    }
  }

  method ReadNodeSpec(t: string) returns (tasks: int, next: Option<string>)
    ensures (tasks, next) == NodeSpec(t)
  {
    hide IntToken, IntProp, Pbrk;
    var nodes;
    nodes, next := ReadIntToken(t);
    ghost var x := next;
    var procs := 0;
    while next.Some? && next.value != "" && next.value[0] == ':' && procs == 0
      invariant 0 <= procs < INT_MAX
      invariant next.Some? ==> |next.value| <= |t|
      invariant Props(x) == if procs == 0 then Props(next) else (procs, next)
      decreases if next.Some? then |next.value| + 1 else 0
    {
      procs, next := ReadIntProp(next.value[1..]);
    }
    if procs == 0 {
      procs := 1;
    }
    if next.Some? {
      next := Plus(next.value);
    }
    assert nodes * procs > 0;
    var res := nodes * procs;
    tasks := if res > INT_MAX then 1 else res;
  }

  /** The sum over the specs the cursor stops at, without overflow. */
  function Sum(t: string): (n: nat)
    decreases |t|
  {
    if t == "" then 0 else
    var (tasks, next) := NodeSpec(t);
    tasks + if next.None? then 0 else Sum(next.value[1..])
  }

  /** get_tasks_from_nodes_resc: the sum, or 0 once it overflows. */
  method GetTasks(nodes: string) returns (ret: int)
    ensures ret == if Sum(nodes) <= INT_MAX then Sum(nodes) else 0
  {
    hide NodeSpec;
    ret := 0;
    var next := Some(nodes);
    while next.Some? && next.value != ""
      invariant 0 <= ret <= INT_MAX
      invariant ret + (if next.None? then 0 else Sum(next.value)) == Sum(nodes)
      decreases if next.Some? then |next.value| + 1 else 0
    {
      var sum, after := ReadNodeSpec(next.value);
      var total := Wrap(ret + sum);
      ret := total;
      if ret < sum {
        return 0;
      }
      next := after;
      if next.Some? && next.value != "" {
        next := Some(next.value[1..]);
      }
    }
  }
}

/** The count against the plain reading of a request: specs between '+', fields between ':'. */
module QstatPlain {
  import opened Common
  import opened QstatNodes

  function UpTo(t: string, c: char): (n: nat)
    ensures n <= |t|
    ensures c !in t[..n]
    ensures n < |t| ==> t[n] == c
  {
    if t == "" || t[0] == c then 0 else
    var n := UpTo(t[1..], c);
    assert t[..1 + n] == [t[0]] + t[1..][..n];
    1 + n
  }

  /** A whole field as a number: 1 unless it is an integer in range. */
  function Number(f: string): (v: int)
    ensures 0 < v < INT_MAX
  {
    var (v, n) := StrToL(f);
    if n > 0 && n == |f| && 0 < v < INT_MAX then v else 1
  }

  /** The first ppn among the properties `z` (empty, or starting with ':'); 0 when there is none. */
  function Ppn(z: string): (v: int)
    ensures 0 <= v < INT_MAX
  {
    if z == "" then 0 else
    var n := UpTo(z[1..], ':');
    var g := z[1..][..n];
    if "ppn=" <= g then Number(g[4..]) else Ppn(z[1..][n..])
  }

  function Tasks(piece: string): (v: int)
    ensures 0 < v <= INT_MAX
  {
    var n := UpTo(piece, ':');
    var ppn := Ppn(piece[n..]);
    var nodes := Number(piece[..n]);
    var each := if ppn == 0 then 1 else ppn;
    assert nodes * each > 0;
    if nodes * each > 0x7fff_ffff then 1 else nodes * each
  }

  /** The plain total; nothing is counted after a final '+'. */
  function Total(t: string): (n: nat) {
    if t == "" then 0 else
    var n := UpTo(t, '+');
    Tasks(t[..n]) + if n == |t| then 0 else Total(t[n + 1..])
  }

  predicate Blank(s: string) {
    Trim(s) == ""
  }

  /** The last thing read of the properties is a blank ppn value at the very end. */
  predicate BlankPpn(z: string) {
    z != "" &&
    var n := UpTo(z[1..], ':');
    var g := z[1..][..n];
    if "ppn=" <= g then Blank(g[4..]) && n == |z| - 1 else BlankPpn(z[1..][n..])
  }

  /** A number is expected where the piece ends. */
  predicate WantsNumber(piece: string) {
    var n := UpTo(piece, ':');
    if n == |piece| then Blank(piece) else BlankPpn(piece[n..])
  }

  predicate Signed(w: string) {
    |w| > 1 && w[0] == '+' && Digit(w[1])
  }

  /** The '+' behind the piece is taken for the sign of a number. */
  predicate TakenForSign(piece: string, w: string) {
    WantsNumber(piece) && Signed(w)
  }

  // -- one token --

  lemma {:induction false} TrimCat(f: string, x: string)
    requires x == "" || !Space(x[0])
    ensures Trim(f + x) == if Blank(f) then x else Trim(f) + x
    ensures !Blank(f) ==> |f + x| - |Trim(f + x)| == |f| - |Trim(f)|
  {
    if f == "" {
      assert f + x == x;
    } else {
      assert (f + x)[0] == f[0] && (f + x)[1..] == f[1..] + x;
      if Space(f[0]) {
        TrimCat(f[1..], x);
      }
    }
  }

  lemma {:induction false} DigitsCat(f: string, x: string)
    requires x == "" || !Digit(x[0])
    ensures DigitsLen(f + x) == DigitsLen(f)
  {
    if f == "" {
      assert f + x == x;
    } else {
      assert (f + x)[0] == f[0] && (f + x)[1..] == f[1..] + x;
      DigitsCat(f[1..], x);
    }
  }

  /** Reading a number does not look past its field, unless the '+' behind it passes for a sign. */
  lemma NumberCat(f: string, x: string)
    requires '+' !in f && (x == "" || x[0] == '+' || x[0] == ':')
    requires !(Blank(f) && Signed(x))
    ensures StrToL(f + x) == StrToL(f)
  {
    hide Trim, DigitsLen, Decimal, Clamped;
    TrimCat(f, x);
    if Blank(f) {
      BlankNumber(f, x);
    } else {
      var u := Trim(f);
      var k := SignLen(u);
      assert (u + x)[0] == u[0] && SignLen(u + x) == k;
      assert (u + x)[k..] == u[k..] + x;
      DigitsCat(u[k..], x);
      var d := DigitsLen(u[k..]);
      assert (u[k..] + x)[..d] == u[k..][..d];
    }
  }

  lemma BlankNumber(f: string, x: string)
    requires Blank(f) && (x == "" || x[0] == '+' || x[0] == ':') && Trim(f + x) == x
    requires !Signed(x)
    ensures StrToL(f + x) == (0, 0) && StrToL(f) == (0, 0)
  {
    var k := SignLen(x);
    assert DigitsLen(x[k..]) == 0 by {
      if x != "" && x[0] == '+' && |x| > 1 {
        assert x[1..][0] == x[1];
      }
    }
    assert DigitsLen(""[SignLen("")..]) == 0;
  }

  /** A sign taken from behind the field: the number reaches past it. */
  lemma SignTaken(f: string, x: string)
    requires Blank(f) && Signed(x)
    ensures StrToL(f + x).1 > |f| + 1
  {
    TrimCat(f, x);
    assert x[1..][0] == x[1];
    assert DigitsLen(x[1..]) > 0;
  }

  function NonEmpty(t: string): Option<string> {
    if t == "" then None else Some(t)
  }

  lemma {:induction false} PbrkCat(h: string, x: string)
    requires '+' !in h && ':' !in h && (x == "" || x[0] == '+' || x[0] == ':')
    ensures Pbrk(h + x) == NonEmpty(x)
  {
    if h == "" {
      assert h + x == x;
    } else {
      assert (h + x)[0] == h[0] && (h + x)[1..] == h[1..] + x;
      PbrkCat(h[1..], x);
    }
  }

  lemma {:induction false} PlusCat(h: string, w: string)
    requires '+' !in h && (w == "" || w[0] == '+')
    ensures Plus(h + w) == NonEmpty(w)
  {
    if h == "" {
      assert h + w == w;
    } else {
      assert (h + w)[0] == h[0] && (h + w)[1..] == h[1..] + w;
      PlusCat(h[1..], w);
    }
  }

  /** read_int_token on a field: its number, and the cursor behind it. */
  lemma TokenCat(f: string, x: string)
    requires '+' !in f && ':' !in f && (x == "" || x[0] == '+' || x[0] == ':')
    requires !(Blank(f) && Signed(x))
    ensures IntToken(f + x) == (Number(f), NonEmpty(x))
  {
    hide StrToL, Blank, Pbrk;
    NumberCat(f, x);
    var (v, n) := StrToL(f);
    assert (f + x)[n..] == f[n..] + x;
    assert forall c :: c in f[n..] ==> c in f;
    PbrkCat(f[n..], x);
    if n < |f| {
      assert (f + x)[n] == f[n] && f[n] in f;
    }
  }

  // -- the properties --

  lemma PrefixCat(g: string, x: string)
    requires x == "" || x[0] == '+' || x[0] == ':'
    ensures "ppn=" <= g + x <==> "ppn=" <= g
    ensures "ppn=" <= g ==> (g + x)[4..] == g[4..] + x
  {
    var w := "ppn=";
    assert forall i :: 0 <= i < 4 ==> w[i] != '+' && w[i] != ':';
    assert x == "" ==> g + x == g;
    if |g| < 4 {
      assert x != "" ==> (g + x)[|g|] == x[0];
    } else {
      assert (g + x)[..4] == g[..4];
    }
  }

  /** The first property of `z` and what follows it. */
  function Head(z: string): (g: string)
    requires z != ""
    ensures ':' !in g && |g| < |z|
  {
    z[1..][..UpTo(z[1..], ':')]
  }

  function Behind(z: string): (r: string)
    requires z != ""
    ensures |r| < |z| && (r == "" || r[0] == ':')
  {
    z[1..][UpTo(z[1..], ':')..]
  }

  lemma HeadBehind(z: string, w: string)
    requires z != "" && '+' !in z
    ensures (z + w)[1..] == Head(z) + (Behind(z) + w)
    ensures '+' !in Head(z) && '+' !in Behind(z)
    ensures |Head(z)| == |z| - 1 <==> Behind(z) == ""
  {
    hide UpTo;
    assert z[1..] == Head(z) + Behind(z);
    assert forall c :: c in z[1..] ==> c in z;
  }

  lemma PropsStep(z: string, w: string)
    requires z != "" && z[0] == ':' && '+' !in z && (w == "" || w[0] == '+')
    ensures var x := Behind(z) + w;
            Props(Some(z + w)) ==
              if "ppn=" <= Head(z) then IntToken(Head(z)[4..] + x) else Props(NonEmpty(x))
  {
    hide IntToken, Pbrk, UpTo, Head, Behind;
    var g, x := Head(z), Behind(z) + w;
    HeadBehind(z, w);
    assert (z + w)[0] == ':';
    PrefixCat(g, x);
    PbrkCat(g, x);
  }

  lemma PpnStep(z: string)
    requires z != ""
    ensures Ppn(z) == if "ppn=" <= Head(z) then Number(Head(z)[4..]) else Ppn(Behind(z))
    ensures BlankPpn(z) <==> if "ppn=" <= Head(z) then Blank(Head(z)[4..]) && |Head(z)| == |z| - 1 else BlankPpn(Behind(z))
  {
    hide Number, UpTo, Blank;
  }

  /** The property loop finds the first ppn and stays inside the piece. */
  lemma {:induction false} PropsCat(z: string, w: string)
    requires '+' !in z && (z == "" || z[0] == ':') && (w == "" || w[0] == '+')
    requires !(BlankPpn(z) && Signed(w))
    ensures var (v, y) := Props(NonEmpty(z + w));
            v == Ppn(z) && (if y.None? then None else Plus(y.value)) == NonEmpty(w)
    decreases |z|
  {
    if z == "" {
      assert z + w == w;
    } else {
      hide Props, IntToken, UpTo, Head, Behind, Ppn, BlankPpn, Blank, Number, Plus;
      PropsStep(z, w);
      PpnStep(z);
      HeadBehind(z, w);
      var g, r := Head(z), Behind(z);
      PlusCat(r, w);
      if "ppn=" <= g {
        assert forall c :: c in g[4..] ==> c in g;
        assert r == "" ==> r + w == w;
        TokenCat(g[4..], r + w);
        assert w != "" || r != "" || r + w == "";
      } else {
        PropsCat(r, w);
      }
    }
  }

  /** With a blank ppn value in front of a signed number the loop runs into the next piece. */
  lemma {:induction false} PropsTaken(z: string, w: string)
    requires '+' !in z && (z == "" || z[0] == ':') && BlankPpn(z) && Signed(w)
    ensures var y := Props(NonEmpty(z + w)).1; y.Some? ==> |y.value| < |w|
    decreases |z|
  {
    hide Props, UpTo, Head, Behind, BlankPpn, Blank, StrToL, Pbrk;
    EmptyPpn();
    PropsStep(z, w);
    PpnStep(z);
    HeadBehind(z, w);
    var g, r := Head(z), Behind(z);
    if "ppn=" <= g {
      assert r + w == w;
      TokenTaken(g[4..], w);
    } else {
      PropsTaken(r, w);
    }
  }

  lemma TokenTaken(f: string, w: string)
    requires Blank(f) && Signed(w)
    ensures var y := IntToken(f + w).1; y.Some? ==> |y.value| < |w|
  {
    SignTaken(f, w);
    hide StrToL, Blank, Pbrk;
  }

  // -- one spec --

  lemma SpecParts(p: string)
    requires '+' !in p
    ensures var n := UpTo(p, ':');
            '+' !in p[..n] && '+' !in p[n..] && (p[n..] == "" || p[n..][0] == ':') && p == p[..n] + p[n..]
  {
    hide UpTo;
  }

  /** read_node_spec on a piece: its tasks, and the cursor at the '+' behind it. */
  lemma SpecCat(p: string, w: string)
    requires '+' !in p && (w == "" || w[0] == '+') && !TakenForSign(p, w)
    ensures NodeSpec(p + w) == (Tasks(p), NonEmpty(w))
  {
    hide UpTo, IntToken, Props, Number, Ppn, BlankPpn, Blank, Plus;
    var n := UpTo(p, ':');
    var f, z := p[..n], p[n..];
    SpecParts(p);
    assert p + w == f + (z + w);
    assert n == |p| ==> z == "" && f == p;
    EmptyPpn();
    TokenCat(f, z + w);
    PropsCat(z, w);
  }

  lemma EmptyPpn()
    ensures !BlankPpn("")
  {
  }

  lemma SpecTaken(p: string, w: string)
    requires '+' !in p && TakenForSign(p, w)
    ensures var y := NodeSpec(p + w).1; y.Some? ==> |y.value| < |w|
  {
    hide UpTo, IntToken, Props, Number, Ppn, BlankPpn, Blank, Plus;
    var n := UpTo(p, ':');
    var f, z := p[..n], p[n..];
    SpecParts(p);
    assert p + w == f + (z + w);
    if n == |p| {
      assert f == p && z + w == w;
      TokenTaken(f, w);
    } else {
      NotSigned(z + w);
      TokenCat(f, z + w);
      PropsTaken(z, w);
    }
  }

  lemma NotSigned(x: string)
    requires x != "" && x[0] == ':'
    ensures !Signed(x)
  {
  }

  /** The cursor stops at the next '+' exactly when that '+' does not pass for a sign. */
  lemma StopsAtPlus(t: string)
    ensures var n := UpTo(t, '+'); NodeSpec(t).1 == NonEmpty(t[n..]) <==> !TakenForSign(t[..n], t[n..])
  {
    hide UpTo, NodeSpec, Tasks, WantsNumber;
    var n := UpTo(t, '+');
    assert t == t[..n] + t[n..];
    if TakenForSign(t[..n], t[n..]) {
      SpecTaken(t[..n], t[n..]);
    } else {
      SpecCat(t[..n], t[n..]);
    }
  }

  // -- the request --

  /** No '+' of the request passes for a sign. */
  predicate Clear(t: string) {
    t == "" ||
    var n := UpTo(t, '+');
    !TakenForSign(t[..n], t[n..]) && (n < |t| ==> Clear(t[n + 1..]))
  }

  /** Then the count is the sum, over the specs, of nodes times processors. */
  lemma {:induction false} SumIsTotal(t: string)
    requires Clear(t)
    ensures Sum(t) == Total(t)
    decreases |t|
  {
    hide Sum, Total, Clear, UpTo, NodeSpec, Tasks, TakenForSign;
    Steps(t);
    if t != "" {
      var n := UpTo(t, '+');
      assert t == t[..n] + t[n..];
      SpecCat(t[..n], t[n..]);
      if n < |t| {
        assert t[n..][1..] == t[n + 1..];
        SumIsTotal(t[n + 1..]);
      }
    }
  }

  lemma Steps(t: string)
    ensures t == "" ==> Sum(t) == 0 && Total(t) == 0
    ensures t != "" ==> var (tasks, next) := NodeSpec(t); Sum(t) == tasks + if next.None? then 0 else Sum(next.value[1..])
    ensures t != "" ==>
              var n := UpTo(t, '+');
              && Total(t) == Tasks(t[..n]) + (if n == |t| then 0 else Total(t[n + 1..]))
              && (Clear(t) <==> !TakenForSign(t[..n], t[n..]) && (n < |t| ==> Clear(t[n + 1..])))
  {
    hide UpTo, NodeSpec, Tasks, TakenForSign;
  }

  // -- an example --

  lemma Three()
    ensures StrToL("3") == (3, 1) && StrToL("+3") == (3, 2)
  {
    assert "+3"[1..] == "3" && "3"[0..] == "3" && "3"[..1] == "3";
    assert DigitsLen("3") == 1 && Decimal("3") == 3;
    assert Trim("3") == "3" && Trim("+3") == "+3";
  }

  lemma SignedThree()
    ensures NodeSpec("+3") == (3, None)
  {
    Three();
    hide StrToL;
    assert "+3"[2..] == "";
  }

  lemma PlainThree()
    ensures Tasks("3") == 3 && Tasks("") == 1
  {
    Three();
    assert StrToL("") == (0, 0);
    hide StrToL;
    assert UpTo("3", ':') == 1 && UpTo("", ':') == 0 && "3"[..1] == "3" && "3"[1..] == "";
  }

  /** "+3" is one spec of three nodes to qstat, an empty spec and a spec of three to a plain reader. */
  lemma SignExample()
    ensures Sum("+3") == 3 && Total("+3") == 4
  {
    SignedThree();
    PlainThree();
    assert UpTo("+3", '+') == 0 && UpTo("3", '+') == 1;
    hide NodeSpec, Tasks, UpTo, Sum, Total;
    Steps("+3");
    Steps("3");
    assert "+3"[1..] == "3" && "+3"[..0] == "" && "3"[..1] == "3";
  }

  lemma Twos()
    ensures StrToL("2:ppn=+2") == (2, 1) && StrToL("+2") == (2, 2) && StrToL("2") == (2, 1) && StrToL("") == (0, 0)
  {
    assert "+2"[1..] == "2" && "2"[0..] == "2" && "2"[..1] == "2" && Decimal("2") == 2;
    assert DigitsLen("2") == 1 && DigitsLen("2:ppn=+2") == 1;
    assert "2:ppn=+2"[0..] == "2:ppn=+2" && "2:ppn=+2"[..1] == "2";
    assert Trim("2") == "2" && Trim("+2") == "+2" && Trim("2:ppn=+2") == "2:ppn=+2";
  }

  lemma SignedPpn()
    ensures NodeSpec("2:ppn=+2") == (4, None)
  {
    Twos();
    hide StrToL;
    assert "2:ppn=+2"[1..] == ":ppn=+2" && ":ppn=+2"[1..] == "ppn=+2" && "ppn=+2"[4..] == "+2" && "+2"[2..] == "";
    assert Pbrk(":ppn=+2") == Some(":ppn=+2");
    assert IntToken("2:ppn=+2") == (2, Some(":ppn=+2"));
    assert IntToken("+2") == (2, None);
    assert "ppn=" <= "ppn=+2";
    assert Props(Some(":ppn=+2")) == (2, None);
  }

  lemma PlainPpn()
    ensures Tasks("2:ppn=") == 2 && Tasks("2") == 2
  {
    Twos();
    hide StrToL;
    assert "2:ppn="[..1] == "2" && "2:ppn="[1..] == ":ppn=" && ":ppn="[1..] == "ppn=" && "ppn="[4..] == "";
    assert UpTo("2:ppn=", ':') == 1 by { assert UpTo(":ppn=", ':') == 0; }
    NoColon();
    assert "ppn="[..4] == "ppn=";
    assert Ppn(":ppn=") == 1;
    assert "2"[..1] == "2" && "2"[1..] == "" && UpTo("2", ':') == 1;
  }

  lemma NoColon()
    ensures UpTo("ppn=", ':') == 4
  {
    assert "ppn="[1..] == "pn=" && "pn="[1..] == "n=" && "n="[1..] == "=" && "="[1..] == "";
    assert UpTo("=", ':') == 1 && UpTo("n=", ':') == 2 && UpTo("pn=", ':') == 3;
  }

  /** A sign may go unnoticed in the sum, so the converse of `SumIsTotal` does not hold. */
  lemma CoincidenceExample()
    ensures Sum("2:ppn=+2") == Total("2:ppn=+2") == 4 && !Clear("2:ppn=+2")
  {
    SignedPpn();
    PlainPpn();
    FirstPlus();
    hide NodeSpec, Tasks, UpTo, Sum, Total, Clear, TakenForSign;
    Steps("2:ppn=+2");
    Steps("2");
    var t := "2:ppn=+2";
    assert t[..6] == "2:ppn=" && t[7..] == "2" && t[6..] == "+2" && "2"[..1] == "2";
    PpnWantsNumber();
  }

  lemma FirstPlus()
    ensures UpTo("2:ppn=+2", '+') == 6 && UpTo("2", '+') == 1
  {
    assert "+2"[0] == '+' && "=+2"[1..] == "+2" && "n=+2"[1..] == "=+2" && "pn=+2"[1..] == "n=+2" && "ppn=+2"[1..] == "pn=+2";
    assert UpTo("+2", '+') == 0 && UpTo("=+2", '+') == 1 && UpTo("n=+2", '+') == 2 && UpTo("pn=+2", '+') == 3 && UpTo("ppn=+2", '+') == 4;
    assert ":ppn=+2"[1..] == "ppn=+2" && "2:ppn=+2"[1..] == ":ppn=+2";
    assert UpTo(":ppn=+2", '+') == 5;
  }

  lemma PpnWantsNumber()
    ensures TakenForSign("2:ppn=", "+2")
  {
    NoColon();
    assert UpTo("2:ppn=", ':') == 1 by { assert "2:ppn="[1..] == ":ppn=" && UpTo(":ppn=", ':') == 0; }
    assert "2:ppn="[1..] == ":ppn=" && ":ppn="[1..] == "ppn=" && "ppn="[..4] == "ppn=" && "ppn="[4..] == "" && Trim("") == "";
    assert BlankPpn(":ppn=");
  }
}
