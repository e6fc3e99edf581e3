/** Elements of src/cmds/MXML.c, without attributes, and the text they print as. */
module MxmlTree {
  import opened Common

  const MMAX_NAME := 64
  const MMAX_LINE := 1024
  const MMAX_BUFFER := 65536
  const MMAX_XBUFFER := 131072

  /** `mxml_t *`: NULL, or an element with Name, Val (either may be NULL) and the child table C. */
  datatype Node = Null | Elem(name: Option<string>, val: Option<string>, kids: seq<Node>)

  function NameOf(e: Node): string {
    if e.Null? then "" else if e.name.Some? then e.name.value else "NA"
  }

  function ValOf(e: Node): string {
    if e.Elem? && e.val.Some? then e.val.value else ""
  }

  function Print(e: Node): (s: string)
    ensures e.Elem? ==> |s| >= 5 + 2 * |NameOf(e)| && s[0] == '<'
    decreases e, 1
  {
    if e.Null? then "" else
    "<" + NameOf(e) + ">" + ValOf(e) + PrintKids(e.kids) + "</" + NameOf(e) + ">"
  }

  function PrintKids(kids: seq<Node>): string
    decreases kids, 0
  {
    if kids == [] then "" else Print(kids[0]) + PrintKids(kids[1..])
  }

  /** No string of the tree contains the terminator. */
  predicate CStrings(e: Node)
    decreases e, 1
  {
    e.Elem? ==> '\0' !in NameOf(e) && '\0' !in ValOf(e) && CStringsKids(e.kids)
  }

  predicate CStringsKids(kids: seq<Node>)
    decreases kids, 0
  {
    kids == [] || (CStrings(kids[0]) && CStringsKids(kids[1..]))
  }

  lemma {:induction false} PrintHasNoNul(e: Node)
    requires CStrings(e)
    ensures '\0' !in Print(e)
    decreases e, 1
  {
    if e.Elem? {
      PrintKidsHaveNoNul(e.kids);
    }
  }

  lemma {:induction false} PrintKidsHaveNoNul(kids: seq<Node>)
    requires CStringsKids(kids)
    ensures '\0' !in PrintKids(kids)
    decreases kids, 0
  {
    if kids != [] {
      PrintHasNoNul(kids[0]);
      PrintKidsHaveNoNul(kids[1..]);
    }
  }
}

/** Printing into a bounded buffer and growing the buffer (src/cmds/MXML.c:730-1031). */
module MxmlPrint {
  import opened Common
  import opened MxmlTree

  /** Exactly when MXMLToString succeeds with `size` bytes. */
  predicate Fits(e: Node, size: int)
    decreases e, 1
  {
    && e.Elem?
    && size >= MMAX_NAME
    && |NameOf(e)| < size - 1
    && (e.val.Some? ==> |ValOf(e)| < size - |NameOf(e)| - 2)
    && var space := size - |NameOf(e)| - 2 - |ValOf(e)|;
    && KidsFit(e.kids, space)
    && space - |PrintKids(e.kids)| >= |NameOf(e)| + 4
  }

  predicate KidsFit(kids: seq<Node>, space: int)
    decreases kids, 0
  {
    kids == [] ||
    if kids[0].Null? then KidsFit(kids[1..], space)
    else Fits(kids[0], space) && KidsFit(kids[1..], space - |Print(kids[0])|)
  }

  /**
    Exactly when a call writes its terminator one byte past the `size` it was given: the header
    fills the space to the last byte and a child is then printed into nothing.
   */
  predicate Overruns(e: Node, size: int)
    decreases e, 1
  {
    size <= 0 ||
    (&& e.Elem?
     && size >= MMAX_NAME
     && |NameOf(e)| < size - 1
     && (e.val.Some? ==> |ValOf(e)| < size - |NameOf(e)| - 2)
     && KidsOverrun(e.kids, size - |NameOf(e)| - 2 - |ValOf(e)|))
  }

  predicate KidsOverrun(kids: seq<Node>, space: int)
    decreases kids, 0
  {
    kids != [] &&
    if kids[0].Null? then KidsOverrun(kids[1..], space)
    else Overruns(kids[0], space) ||
         (Fits(kids[0], space) && KidsOverrun(kids[1..], space - |Print(kids[0])|))
  }

  /** Success needs room for the text and its terminator ... */
  lemma {:induction false} FitsNeedsRoom(e: Node, size: int)
    requires Fits(e, size)
    ensures |Print(e)| + 1 <= size && !Overruns(e, size)
    decreases e, 1
  {
    var space := size - |NameOf(e)| - 2 - |ValOf(e)|;
    KidsFitNeedRoom(e.kids, space);
  }

  lemma {:induction false} KidsFitNeedRoom(kids: seq<Node>, space: int)
    requires KidsFit(kids, space) && space - |PrintKids(kids)| >= 4
    ensures !KidsOverrun(kids, space)
    decreases kids, 0
  {
    if kids != [] {
      if kids[0].Elem? {
        FitsNeedsRoom(kids[0], space);
        KidsFitNeedRoom(kids[1..], space - |Print(kids[0])|);
      } else {
        KidsFitNeedRoom(kids[1..], space);
      }
    }
  }

  /** ... room for MMAX_NAME bytes more is enough ... */
  lemma {:induction false} RoomFits(e: Node, size: int)
    requires e.Elem? && size >= |Print(e)| + MMAX_NAME
    ensures Fits(e, size)
    decreases e, 1
  {
    RoomFitsKids(e.kids, size - |NameOf(e)| - 2 - |ValOf(e)|);
  }

  lemma {:induction false} RoomFitsKids(kids: seq<Node>, space: int)
    requires space >= |PrintKids(kids)| + MMAX_NAME
    ensures KidsFit(kids, space)
    decreases kids, 0
  {
    if kids != [] {
      if kids[0].Elem? {
        RoomFits(kids[0], space);
        RoomFitsKids(kids[1..], space - |Print(kids[0])|);
      } else {
        RoomFitsKids(kids[1..], space);
      }
    }
  }

  /** ... and more room never hurts. */
  lemma {:induction false} FitsMonotone(e: Node, size: int, size': int)
    requires Fits(e, size) && size <= size'
    ensures Fits(e, size')
    decreases e, 1
  {
    var used := |NameOf(e)| + 2 + |ValOf(e)|;
    KidsFitMonotone(e.kids, size - used, size' - used);
  }

  lemma {:induction false} KidsFitMonotone(kids: seq<Node>, space: int, space': int)
    requires KidsFit(kids, space) && space <= space'
    ensures KidsFit(kids, space')
    decreases kids, 0
  {
    if kids != [] {
      if kids[0].Elem? {
        FitsMonotone(kids[0], space, space');
        var len := |Print(kids[0])|;
        KidsFitMonotone(kids[1..], space - len, space' - len);
      } else {
        KidsFitMonotone(kids[1..], space, space');
      }
    }
  }

  method StrCpy(buf: array<char>, at: nat, s: string)
    requires at + |s| < buf.Length
    modifies buf
    ensures buf[at..at + |s|] == s && buf[at + |s|] == '\0'
    ensures forall j :: 0 <= j < buf.Length && !(at <= j <= at + |s|) ==> buf[j] == old(buf[j])
  {
    var i := 0;
    while i < |s|
      invariant 0 <= i <= |s|
      invariant forall j :: 0 <= j < i ==> buf[at + j] == s[j]
      invariant forall j :: 0 <= j < buf.Length && !(at <= j <= at + |s|) ==> buf[j] == old(buf[j])
    {
      buf[at + i] := s[i];
      i := i + 1;
    }
    buf[at + |s|] := '\0';
  }

  method StrLen(buf: array<char>, at: nat, ghost s: string) returns (n: nat)
    requires at + |s| < buf.Length && '\0' !in s
    requires buf[at..at + |s|] == s && buf[at + |s|] == '\0'
    ensures n == |s|
  {
    assert forall j :: 0 <= j < |s| ==> buf[at + j] == buf[at..at + |s|][j] == s[j] && s[j] in s;
    n := 0;
    while buf[at + n] != '\0'
      invariant n <= |s|
      decreases |s| - n
    {
      n := n + 1;
    }
  }

  function Head(e: Node): string {
    "<" + NameOf(e) + ">" + ValOf(e)
  }

  /** The opening tag and the value. */
  method PutHead(e: Node, buf: array<char>, off: nat, size: nat) returns (ok: bool, bptr: nat)
    requires off + size < buf.Length && e.Elem? && size >= MMAX_NAME
    modifies buf
    ensures ok == (|NameOf(e)| < size - 1 && (e.val.Some? ==> |ValOf(e)| < size - |NameOf(e)| - 2))
    ensures ok ==> bptr == off + |Head(e)| <= off + size && buf[off..bptr] == Head(e)
    ensures forall j :: 0 <= j < off || off + size <= j < buf.Length ==> buf[j] == old(buf[j])
  {
    var name := NameOf(e);
    ok, bptr := false, off + 1;
    var space := size - 1;
    buf[off] := '<';
    if |name| >= space {
      return;
    }
    StrCpy(buf, bptr, name);
    bptr, space := bptr + |name|, space - |name|;
    buf[bptr] := '>';
    bptr, space := bptr + 1, space - 1;
    assert buf[off..bptr] == "<" + name + ">";
    if e.val.Some? {
      if |e.val.value| >= space {
        return;
      }
      ghost var tag := buf[off..bptr];
      StrCpy(buf, bptr, e.val.value);
      bptr := bptr + |e.val.value|;
      assert buf[off..bptr] == tag + e.val.value;
    }
    ok := true;
  }

  /** The closing tag, in at least |name| + 4 bytes. */
  method PutFoot(name: string, buf: array<char>, bptr: nat) returns (tail: nat)
    requires bptr + |name| + 3 < buf.Length
    modifies buf
    ensures tail == bptr + |name| + 3
    ensures buf[bptr..tail] == "</" + name + ">" && buf[tail] == '\0'
    ensures forall j :: 0 <= j < bptr || tail < j < buf.Length ==> buf[j] == old(buf[j])
  {
    buf[bptr] := '<';
    buf[bptr + 1] := '/';
    StrCpy(buf, bptr + 2, name);
    buf[bptr + 2 + |name|] := '>';
    buf[bptr + 3 + |name|] := '\0';
    tail := bptr + 3 + |name|;
  }

  lemma KidsStep(kids: seq<Node>, i: nat, space: int)
    requires i < |kids|
    ensures PrintKids(kids[i..]) == Print(kids[i]) + PrintKids(kids[i + 1..])
    ensures kids[i].Null? ==> Print(kids[i]) == ""
    ensures KidsFit(kids[i..], space) ==
            if kids[i].Null? then KidsFit(kids[i + 1..], space)
            else Fits(kids[i], space) && KidsFit(kids[i + 1..], space - |Print(kids[i])|)
    ensures KidsOverrun(kids[i..], space) ==
            if kids[i].Null? then KidsOverrun(kids[i + 1..], space)
            else Overruns(kids[i], space) ||
                 (Fits(kids[i], space) && KidsOverrun(kids[i + 1..], space - |Print(kids[i])|))
    ensures CStringsKids(kids[i..]) <==> CStrings(kids[i]) && CStringsKids(kids[i + 1..])
  {
    assert kids[i..][0] == kids[i] && kids[i..][1..] == kids[i + 1..];
  }

  lemma KidsEnd(space: int)
    ensures PrintKids([]) == "" && KidsFit([], space) && !KidsOverrun([], space) && CStringsKids([])
  {
  }

  /** One child behind what has been printed since `off`. */
  method PutKid(e: Node, buf: array<char>, off: nat, bptr: nat, space: nat) returns (fit: bool, len: nat)
    requires off <= bptr && bptr + space < buf.Length && e.Elem? && CStrings(e)
    modifies buf
    ensures fit == Fits(e, space)
    ensures fit ==> len == |Print(e)| <= space && buf[off..bptr + len] == old(buf[off..bptr]) + Print(e)
    ensures fit ==> !Overruns(e, space)
    ensures forall j :: 0 <= j < bptr || bptr + space < j < buf.Length ==> buf[j] == old(buf[j])
    ensures buf[bptr + space] == if Overruns(e, space) then '\0' else old(buf[bptr + space])
    decreases e, 2
  {
    hide Fits, Overruns, Print, CStrings;
    len := 0;
    var tail;
    fit, tail := ToString(e, buf, bptr, space);
    if fit {
      FitsNeedsRoom(e, space);
      PrintHasNoNul(e);
      len := StrLen(buf, bptr, Print(e));
      assert buf[off..bptr + len] == buf[off..bptr] + buf[bptr..bptr + len];
      assert buf[off..bptr] == old(buf[off..bptr]);
      assert buf[bptr..bptr + len] == Print(e);
    }
  }

  /** The children, one after another. */
  method PutKids(kids: seq<Node>, buf: array<char>, off: nat, size: nat) returns (ok: bool, bptr: nat)
    requires off + size < buf.Length && CStringsKids(kids)
    modifies buf
    ensures ok == KidsFit(kids, size)
    ensures ok ==> bptr == off + |PrintKids(kids)| <= off + size && buf[off..bptr] == PrintKids(kids)
    ensures forall j :: 0 <= j < off || off + size < j < buf.Length ==> buf[j] == old(buf[j])
    ensures buf[off + size] == if KidsOverrun(kids, size) then '\0' else old(buf[off + size])
    decreases kids, 0
  {
    hide Fits, KidsFit, Overruns, KidsOverrun, Print, PrintKids, CStrings, CStringsKids;
    assert kids[0..] == kids;
    KidsEnd(size);
    ghost var done := "";
    var i, space := 0, size;
    ok, bptr := false, off;
    while i < |kids|
      invariant 0 <= i <= |kids| && CStringsKids(kids[i..])
      invariant bptr + space == off + size && 0 <= space
      invariant bptr == off + |done| && buf[off..bptr] == done
      invariant done + PrintKids(kids[i..]) == PrintKids(kids)
      invariant KidsFit(kids[i..], space) == KidsFit(kids, size)
      invariant KidsOverrun(kids[i..], space) == KidsOverrun(kids, size)
      invariant forall j :: 0 <= j < off || off + size <= j < buf.Length ==> buf[j] == old(buf[j])
    {
      KidsStep(kids, i, space);
      if kids[i].Elem? {
        var fit, len := PutKid(kids[i], buf, off, bptr, space);
        if !fit {
          return;
        }
        done := done + Print(kids[i]);
        bptr, space := bptr + len, space - len;
      }
      i := i + 1;
    }
    assert kids[i..] == [];
    KidsEnd(space);
    ok := true;
  }

  lemma NodeStep(e: Node, size: int)
    ensures CStrings(e) && e.Elem? ==> CStringsKids(e.kids)
    ensures size > 0 && (e.Null? || size < MMAX_NAME) ==> !Fits(e, size) && !Overruns(e, size)
    ensures size <= 0 ==> !Fits(e, size) && Overruns(e, size)
    ensures e.Elem? ==> Print(e) == Head(e) + PrintKids(e.kids) + ("</" + NameOf(e) + ">")
    ensures e.Elem? && size >= MMAX_NAME ==>
      var headed := |NameOf(e)| < size - 1 && (e.val.Some? ==> |ValOf(e)| < size - |NameOf(e)| - 2);
      var space := size - |Head(e)|;
      && (Fits(e, size) <==> headed && KidsFit(e.kids, space) && space - |PrintKids(e.kids)| >= |NameOf(e)| + 4)
      && (Overruns(e, size) <==> headed && KidsOverrun(e.kids, space))
  {
  }

  /**
    MXMLToString.  `size` bytes of `buf` from `off` are the caller's; the byte after them is
    there so that the model can say when the code writes to it.
   */
  method ToString(e: Node, buf: array<char>, off: nat, size: nat) returns (ok: bool, tail: nat)
    requires off + size < buf.Length && CStrings(e)
    modifies buf
    ensures ok == Fits(e, size)
    ensures ok ==> tail == off + |Print(e)| < off + size && buf[off..tail] == Print(e) && buf[tail] == '\0'
    ensures forall j :: 0 <= j < off || off + size < j < buf.Length ==> buf[j] == old(buf[j])
    ensures buf[off + size] == if Overruns(e, size) then '\0' else old(buf[off + size])
    decreases e, 1
  {
    hide Fits, KidsFit, Overruns, KidsOverrun, Print, PrintKids, CStrings, CStringsKids, Head, NameOf, ValOf;
    NodeStep(e, size);
    tail := off;
    buf[off] := '\0';
    if e.Null? || size < MMAX_NAME {
      return false, off;
    }
    var bptr;
    ok, bptr := PutHead(e, buf, off, size);
    if !ok {
      return;
    }
    var from := bptr;
    ok, bptr := PutKids(e.kids, buf, from, off + size - from);
    if !ok {
      return;
    }
    ok := off + size - bptr >= |NameOf(e)| + 4;
    if !ok {
      return;
    }
    ghost var text := buf[off..bptr];
    assert buf[off..bptr] == buf[off..from] + buf[from..bptr];
    tail := PutFoot(NameOf(e), buf, bptr);
    assert buf[off..tail] == text + buf[bptr..tail];
    FitsNeedsRoom(e, size);
  }

  function Min(a: int, b: int): int {
    if a < b then a else b
  }

  /**
    The size after a failed round; None when the loop gives up.  It gives up at the maximum, and when
    `realloc` returns NULL: for a negative size, which no allocation satisfies, and for zero bytes
    unless the C library then returns a block, as `zeroKept` says.
   */
  function NextSize(size: int, max: int, zeroKept: bool): (r: Option<int>)
    ensures r.Some? ==> size < max && 0 <= r.value <= max
  {
    if size >= max then None else
    var n := Min(2 * size, max);
    if n < 0 || (n == 0 && !zeroKept) then None else Some(n)
  }

  /** One round: print into a new buffer of `size` bytes. */
  method Attempt(e: Node, size: int) returns (ok: bool, text: string)
    requires CStrings(e)
    ensures ok == Fits(e, size)
    ensures ok ==> text == Print(e) && |text| + 1 <= size
  {
    TooSmall(e, size);
    hide Fits, Print, CStrings;
    var room := if size > 0 then size else 0;
    var buf := new char[room + 1];
    var tail;
    ok, tail := ToString(e, buf, 0, room);
    text := if ok then buf[0..tail] else "";
  }

  /**
    MXMLToXString: the buffer doubles, up to `max`, until the text fits.  `start` is the caller's
    buffer size, or None when there is no buffer yet.  It succeeds exactly when it starts with a
    positive size and the largest size it may reach suffices.  The precondition is exactly when the
    loop ends: see `EndsExactly`.
   */
  method ToXString(e: Node, start: Option<int>, max: int, zeroKept: bool) returns (ok: bool, text: string, size: int)
    requires CStrings(e)
    requires !Stuck(e, if start.Some? then start.value else MMAX_BUFFER, max, zeroKept)
    ensures var first := if start.Some? then start.value else MMAX_BUFFER;
            ok == (first > 0 && Fits(e, if first >= max then first else max))
    ensures ok ==> text == Print(e) && |text| + 1 <= size
  {
    size := if start.Some? then start.value else MMAX_BUFFER;
    text := "";
    if e.Null? {
      return false, text, size;
    }
    ghost var first, most := size, if size >= max then size else max;
    hide Fits, Print, CStrings;
    TooSmall(e, first);
    while true
      invariant first <= size <= most && (size > 0 <==> first > 0)
      invariant size == first || (first > 0 && size <= max)
      decreases most - size
    {
      ok, text := Attempt(e, size);
      if ok {
        TooSmall(e, size);
        FitsMonotone(e, size, most);
        return;
      }
      var next := NextSize(size, max, zeroKept);
      if next.None? {
        return;
      }
      size := next.value;
    }
  }

  /** All sizes that are not positive fail alike. */
  lemma TooSmall(e: Node, size: int)
    ensures size <= 0 ==> !Fits(e, size) && !Fits(e, 0)
  {
  }

  /** An empty buffer below the maximum, an element to print, and a `realloc` that keeps zero bytes. */
  predicate Stuck(e: Node, size: int, max: int, zeroKept: bool) {
    zeroKept && size == 0 && 0 < max && e.Elem?
  }

  /** The result after at most `n` rounds; None while the loop is still going. */
  function After(e: Node, size: int, max: int, zeroKept: bool, n: nat): Option<bool>
    decreases n
  {
    if e.Null? then Some(false)
    else if n == 0 then None
    else if Fits(e, size) then Some(true)
    else
      var next := NextSize(size, max, zeroKept);
      if next.None? then Some(false) else After(e, next.value, max, zeroKept, n - 1)
  }

  /** There, no number of rounds succeeds or gives up. */
  lemma {:induction false} StuckForEver(e: Node, size: int, max: int, zeroKept: bool, n: nat)
    requires Stuck(e, size, max, zeroKept)
    ensures After(e, size, max, zeroKept, n) == None
  {
    TooSmall(e, size);
    if n > 0 {
      StuckForEver(e, size, max, zeroKept, n - 1);
    }
  }

  /** A negative size below the maximum is given up after one round, for `realloc` fails. */
  lemma NegativeGivesUp(e: Node, size: int, max: int, zeroKept: bool)
    requires size < 0
    ensures After(e, size, max, zeroKept, 1) == Some(false)
  {
    TooSmall(e, size);
  }

  /** A positive size doubles until the text fits or the maximum is reached. */
  lemma {:induction false} PositiveEnds(e: Node, size: int, max: int, zeroKept: bool) returns (n: nat)
    requires size > 0
    ensures After(e, size, max, zeroKept, n).Some?
    decreases max - size
  {
    if size >= max {
      n := 1;
    } else {
      var m := PositiveEnds(e, Min(2 * size, max), max, zeroKept);
      n := m + 1;
    }
  }

  /** The loop ends exactly when it is not stuck. */
  lemma EndsExactly(e: Node, size: int, max: int, zeroKept: bool)
    ensures (exists n :: After(e, size, max, zeroKept, n).Some?) <==> !Stuck(e, size, max, zeroKept)
  {
    if Stuck(e, size, max, zeroKept) {
      forall n ensures After(e, size, max, zeroKept, n).None? {
        StuckForEver(e, size, max, zeroKept, n);
      }
    } else if size > 0 {
      var n := PositiveEnds(e, size, max, zeroKept);
    } else {
      TooSmall(e, size);
      assert After(e, size, max, zeroKept, 1).Some?;
    }
  }

  /** A name of 62 characters leaves no byte of 64 for the child. */
  lemma OverrunExample(n: string)
    requires |n| == 62
    ensures Overruns(Elem(Some(n), None, [Elem(Some("b"), None, [])]), 64)
  {
    var kid := Elem(Some("b"), None, []);
    assert Overruns(kid, 0);
    assert KidsOverrun([kid], 0);
  }

  /** The bound a caller can compute: from a positive size, text length plus MMAX_NAME always suffices. */
  lemma EnoughRoomSucceeds(e: Node, first: int, max: int)
    requires e.Elem? && first > 0 && (first >= |Print(e)| + MMAX_NAME || max >= |Print(e)| + MMAX_NAME)
    ensures Fits(e, if first >= max then first else max)
  {
    RoomFits(e, if first >= max then first else max);
  }
}
