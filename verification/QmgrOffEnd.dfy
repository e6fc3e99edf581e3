/**
  The attribute lists on which the parser of src/cmds/qmgr.c:330-589 steps over the terminator: the
  last attribute ends in a single `+` or `-` set off by white space.
 */
module QmgrOffEnd {
  import opened Common
  import opened QmgrAttributes
  import opened QmgrGrammar

  /** An attribute whose operator is cut short by the end of the text. */
  datatype Dangling = Dangling(lead: string, name: string, resource: Option<string>, mid: string, sign: char)

  function DanglingString(d: Dangling): string {
    d.lead + (d.name + (ResourceString(d.resource) + (d.mid + [d.sign])))
  }

  predicate GoodDangling(d: Dangling) {
    && AllSpace(d.lead) && AllSpace(d.mid) && d.mid != ""
    && d.name != "" && NameWord(d.name, At(ResourceString(d.resource) + d.mid, 0))
    && (d.resource.Some? ==> d.resource.value != "" && ResourceWord(d.resource.value, d.mid[0]))
    && (d.sign == '+' || d.sign == '-')
  }

  /** Complete attributes, each with its comma, and then the dangling one. */
  function CutShort(ps: seq<Piece>, d: Dangling): string {
    if ps == [] then DanglingString(d) else PieceString(ps[0], "," + CutShort(ps[1..], d))
  }

  predicate AllGood(ps: seq<Piece>, cmd: Command) {
    forall p :: p in ps ==> GoodPiece(p, false, cmd)
  }

  // -- one attribute --

  /** The operator step runs over exactly on a single sign. */
  lemma OperatorOver(name: string, res: Option<string>, t: string, cmd: Command)
    ensures ReadOp(name, res, t, cmd) == Over <==> cmd != Unset && (Trim(t) == "+" || Trim(t) == "-")
  {
    hide Trim;
    var u := Trim(t);
    if u != "" && (u[0] == '=' || |u| > 1) {
      ValueNotOver(name, res, Assign, u[1..], cmd);
      if |u| > 1 {
        ValueNotOver(name, res, Increase, u[2..], cmd);
        ValueNotOver(name, res, Decrease, u[2..], cmd);
      }
    }
    hide ReadValue;
  }

  lemma ValueNotOver(name: string, res: Option<string>, op: Operator, t: string, cmd: Command)
    ensures ReadValue(name, res, op, t, cmd) != Over
  {
    hide Trim, QuoteLen, RawLen;
  }

  lemma SignTrimmed(mid: string, sign: char)
    requires AllSpace(mid) && mid != "" && (sign == '+' || sign == '-')
    ensures Trim(mid + [sign]) == [sign] && At(mid + [sign], 0) == mid[0] && Space(mid[0])
    ensures NameLen(mid + [sign]) == 0 && ResourceLen(mid + [sign]) == 0
  {
    TrimOver(mid, [sign]);
    assert mid[0] in mid && (mid + [sign])[0] == mid[0];
  }

  lemma DanglingRead(d: Dangling, cmd: Command)
    requires GoodDangling(d) && cmd != Unset
    ensures ReadItem(DanglingString(d), cmd) == Over && Trim(DanglingString(d)) != ""
  {
    var y := d.mid + [d.sign];
    SignTrimmed(d.mid, d.sign);
    OperatorOver(d.name, d.resource, y, cmd);
    hide ReadItem, ReadOp, NameWord, ResourceWord, NameLen, ResourceLen, Trim;
    var t := d.name + (ResourceString(d.resource) + y);
    if d.resource.None? {
      assert ResourceString(d.resource) + d.mid == d.mid && ResourceString(d.resource) + y == y;
      PlainName(d.name, y, cmd);
    } else {
      assert At(ResourceString(d.resource) + d.mid, 0) == '.';
      assert ResourceString(d.resource) + y == "." + (d.resource.value + y);
      NameWithResource(d.name, d.resource.value, y, cmd);
    }
    assert t[0] == d.name[0];
    LeadSkipped(d.lead, t, cmd);
    TrimOver(d.lead, t);
  }

  /** What is in front of a single sign, once trimmed, is white space. */
  lemma BeforeSign(t: string) returns (mid: string)
    requires Trim(t) == "+" || Trim(t) == "-"
    ensures t == mid + Trim(t) && AllSpace(mid)
    ensures NameLen(t) == 0 || ResourceLen(t) == 0 ==> mid != ""
  {
    mid := TrimSplit(t);
    assert mid == "" ==> t == Trim(t);
    assert NameLen("+") == 1 && NameLen("-") == 1 && ResourceLen("+") == 1 && ResourceLen("-") == 1 by {
      assert "+"[1..] == "" && "-"[1..] == "";
    }
  }

  /** The token steps of ReadItem, on a trimmed text that runs over. */
  lemma OverSteps(x: string, cmd: Command)
    requires Trim(x) == x && ReadItem(x, cmd) == Over
    ensures var n := NameLen(x);
            && 0 < n <= |x|
            && (At(x, n) != '.' ==> ReadOp(x[..n], None, x[n..], cmd) == Over)
            && (At(x, n) == '.' ==>
                  n < |x| &&
                  var v := x[n + 1..];
                  var k := ResourceLen(v);
                  k > 0 && ReadOp(x[..n], Some(v[..k]), v[k..], cmd) == Over)
  {
    hide Trim, NameLen, ResourceLen, ReadOp;
  }

  lemma PlainOver(x: string, cmd: Command) returns (d: Dangling)
    requires Trim(x) == x && ReadItem(x, cmd) == Over && At(x, NameLen(x)) != '.'
    ensures GoodDangling(d) && d.lead == "" && DanglingString(d) == x && cmd != Unset
  {
    hide Trim, NameLen, NameWord, ReadOp, ReadItem, ResourceLen;
    OverSteps(x, cmd);
    var n := NameLen(x);
    NameIsWord(x);
    OperatorOver(x[..n], None, x[n..], cmd);
    var sign := Trim(x[n..]);
    var mid := BeforeSign(x[n..]);
    d := Dangling("", x[..n], None, mid, sign[0]);
    assert sign == [sign[0]];
    assert At(x, n) == x[n..][0] == mid[0];
    assert ResourceString(None) + mid == mid && ResourceString(None) + (mid + sign) == mid + sign;
    assert x == x[..n] + x[n..];
  }

  lemma ResourceOverEnd(x: string, cmd: Command) returns (d: Dangling)
    requires Trim(x) == x && ReadItem(x, cmd) == Over && At(x, NameLen(x)) == '.'
    ensures GoodDangling(d) && d.lead == "" && DanglingString(d) == x && cmd != Unset
  {
    hide Trim, NameLen, NameWord, ReadOp, ReadItem, ResourceLen, ResourceWord;
    OverSteps(x, cmd);
    var n := NameLen(x);
    var v := x[n + 1..];
    var k := ResourceLen(v);
    NameIsWord(x);
    ResourceIsWord(v);
    OperatorOver(x[..n], Some(v[..k]), v[k..], cmd);
    var sign := Trim(v[k..]);
    var mid := BeforeSign(v[k..]);
    d := Dangling("", x[..n], Some(v[..k]), mid, sign[0]);
    assert sign == [sign[0]];
    assert At(v, k) == v[k..][0] == mid[0];
    assert At(ResourceString(d.resource) + mid, 0) == '.';
    ResourceText(x, n, k);
  }

  lemma OverSound(t: string, cmd: Command) returns (d: Dangling)
    requires ReadItem(t, cmd) == Over
    ensures GoodDangling(d) && DanglingString(d) == t && cmd != Unset
  {
    ItemSkipsSpace(t, cmd);
    hide Trim, ReadItem, NameLen, NameWord, ResourceWord;
    var lead := TrimSplit(t);
    var x := Trim(t);
    if At(x, NameLen(x)) == '.' {
      d := ResourceOverEnd(x, cmd);
    } else {
      d := PlainOver(x, cmd);
    }
    d := d.(lead := lead);
  }

  // -- the list --

  lemma {:induction false} CutShortRuns(s: string, ps: seq<Piece>, d: Dangling, cmd: Command, acc: seq<Attr>)
    requires AllGood(ps, cmd) && GoodDangling(d) && cmd != Unset
    ensures ReadItems(s, CutShort(ps, d), cmd, acc) == OffEnd
    decreases |ps|
  {
    hide GoodPiece, GoodDangling, ReadItem, PieceString, Meaning, DanglingString;
    if ps == [] {
      DanglingRead(d, cmd);
    } else {
      ItemComplete(ps[0], false, CutShort(ps[1..], d), cmd);
      CutShortRuns(s, ps[1..], d, cmd, [Meaning(ps[0])] + acc);
    }
  }

  lemma {:induction false} OffEndSound(s: string, t: string, cmd: Command, acc: seq<Attr>) returns (ps: seq<Piece>, d: Dangling)
    requires ReadItems(s, t, cmd, acc) == OffEnd
    ensures AllGood(ps, cmd) && GoodDangling(d) && CutShort(ps, d) == t && cmd != Unset
    decreases |t|
  {
    hide GoodPiece, GoodDangling, ReadItem, PieceString, Meaning, DanglingString;
    var r := ReadItem(t, cmd);
    if r == Over {
      d := OverSound(t, cmd);
      ps := [];
    } else {
      var p := ItemSound(t, cmd);
      var more;
      more, d := OffEndSound(s, r.rest, cmd, [r.attr] + acc);
      ps := [p] + more;
      assert ps[1..] == more;
    }
  }

  ghost predicate EndsCutShort(s: string, cmd: Command) {
    exists ps, d :: AllGood(ps, cmd) && GoodDangling(d) && CutShort(ps, d) == s
  }

  /** The parser runs off the end exactly on the lists cut short, unless the command is unset. */
  lemma RunsOffExactly(s: string, cmd: Command)
    ensures Parse(s, cmd) == OffEnd <==> cmd != Unset && EndsCutShort(s, cmd)
  {
    BlankIsBad(s, cmd);
    hide GoodPiece, GoodDangling, CutShort, ReadItems, AllGood;
    if Parse(s, cmd) == OffEnd {
      var ps, d := OffEndSound(s, s, cmd, []);
      assert EndsCutShort(s, cmd);
    }
    if cmd != Unset && EndsCutShort(s, cmd) {
      var ps, d :| AllGood(ps, cmd) && GoodDangling(d) && CutShort(ps, d) == s;
      CutShortRuns(s, ps, d, cmd, []);
    }
  }

  /** "a +" runs off the end; in "a+" the sign is part of the name, which lacks an operator. */
  lemma SignExamples()
    ensures Parse("a +", Set) == OffEnd && Parse("a+", Set) == Rejected(2)
  {
    var d := Dangling("", "a", None, " ", '+');
    assert "a"[1..] == "" && ResourceString(None) + " " == " ";
    assert GoodDangling(d) by {
      assert NameWord("a", ' ');
    }
    assert CutShort([], d) == "a +";
    CutShortRuns("a +", [], d, Set, []);
    DanglingRead(d, Set);
    NoOperator();
  }

  lemma NoOperator()
    ensures Parse("a+", Set) == Rejected(2)
  {
    assert "a+"[1..] == "+" && "+"[1..] == "";
    assert NameLen("+") == 1 && NameLen("a+") == 2;
    assert Trim("a+") == "a+" && "a+"[2..] == "" && Trim("") == "";
    assert ReadItem("a+", Set) == Bad(0);
  }
}
