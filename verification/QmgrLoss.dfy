/** Which lines get_request splits faithfully, given that the shift may cut off the end of the line. */
module QmgrLoss {
  import opened Common
  import opened QmgrSplit

  /** How much of a line is needed for its commands to be what they are. */
  function Need(t: string): (n: nat)
    ensures n <= |t|
    decreases |t|
  {
    if Rest(t) == "" then CutFrom(t, 0)
    else |t| - |Rest(t)| + if Need(Rest(t)) == 0 then 1 else Need(Rest(t))
  }

  /** What is kept at each step is enough for the commands that remain. */
  predicate Lossless(s: string)
    decreases |s|
  {
    Rest(s) != "" ==> |Kept(s)| >= Need(Rest(s)) && Lossless(Kept(s))
  }

  // -- prefixes of a line --

  lemma CutIs(s: string, k: nat)
    requires k <= |s| && (forall j :: 0 <= j < k ==> !EndsAt(s, j)) && (k < |s| ==> EndsAt(s, k))
    ensures CutFrom(s, 0) == k
  {
    hide EndsAt;
  }

  lemma CutPrefix(r: string, m: nat)
    requires m <= |r|
    ensures CutFrom(r[..m], 0) == if CutFrom(r, 0) < m then CutFrom(r, 0) else m
  {
    var u, k := r[..m], CutFrom(r, 0);
    forall j | 0 <= j < m ensures EndsAt(u, j) <==> EndsAt(r, j) {
      QuotingPrefix(r, m, j);
    }
    hide EndsAt, CutFrom;
    CutIs(u, if k < m then k else m);
  }

  lemma {:induction false} TrimPrefix(t: string, n: nat)
    requires n <= |t|
    ensures Trim(t[..n]) == var b := |t| - |Trim(t)|; if n <= b then "" else Trim(t)[..n - b]
  {
    if n > 0 && Space(t[0]) {
      TrimPrefix(t[1..], n - 1);
      assert t[..n][0] == t[0] && t[..n][1..] == t[1..][..n - 1];
    }
  }

  /** The rest of a prefix is a prefix of the rest. */
  lemma RestPrefix(r: string, m: nat)
    requires m <= |r|
    ensures Rest(r[..m]) == var off := |r| - |Rest(r)|; if Rest(r) == "" || m <= off then "" else Rest(r)[..m - off]
  {
    hide CutFrom, Trim;
    CutPrefix(r, m);
    var u, k := r[..m], CutFrom(r, 0);
    if k < m && r[k] == ';' {
      var t := r[k + 1..];
      assert u[k] == ';' && u[k + 1..] == t[..m - k - 1];
      TrimPrefix(t, m - k - 1);
    }
  }

  lemma CommandsStep(s: string)
    ensures Commands(s) == [s[..CutFrom(s, 0)]] + if Rest(s) == "" then [] else Commands(Rest(s))
    ensures |Commands(s)| >= if Rest(s) == "" then 1 else 2
    ensures Returned(s) == [s[..CutFrom(s, 0)]] + if Rest(s) == "" then [] else Returned(Kept(s))
    ensures |Returned(s)| >= 1
  {
    hide CutFrom, Rest, Kept;
  }

  lemma ConsEqual(c: string, x: seq<string>, y: seq<string>)
    ensures [c] + x == [c] + y <==> x == y
  {
    assert ([c] + x)[1..] == x && ([c] + y)[1..] == y;
  }

  /** The first command and the rest of a prefix, beside those of the line. */
  lemma PrefixSteps(r: string, m: nat)
    requires m <= |r| && Rest(r) != "" && m > |r| - |Rest(r)|
    ensures var off := |r| - |Rest(r)|;
            && r[..m][..CutFrom(r[..m], 0)] == r[..CutFrom(r, 0)]
            && Rest(r[..m]) == Rest(r)[..m - off] && Rest(r[..m]) != ""
  {
    CutPrefix(r, m);
    RestPrefix(r, m);
    RestBehindCut(r);
    hide CutFrom, Rest;
    assert r[..m][..CutFrom(r, 0)] == r[..CutFrom(r, 0)];
  }

  lemma RestBehindCut(r: string)
    requires Rest(r) != ""
    ensures CutFrom(r, 0) < |r| - |Rest(r)|
  {
    hide CutFrom, Trim;
  }

  /** A prefix has the same commands exactly when it is long enough. */
  lemma {:induction false} PrefixCommands(r: string, m: nat)
    requires m <= |r|
    ensures Commands(r[..m]) == Commands(r) <==> m >= Need(r)
    decreases |r|
  {
    var u, off := r[..m], |r| - |Rest(r)|;
    CommandsStep(r);
    CommandsStep(u);
    CutPrefix(r, m);
    RestPrefix(r, m);
    hide CutFrom, Rest, Commands, Kept, Returned;
    var k := CutFrom(r, 0);
    if Rest(r) == "" {
      assert |u[..CutFrom(u, 0)]| == CutFrom(u, 0);
      assert Commands(u)[0] == u[..CutFrom(u, 0)] && Commands(r)[0] == r[..k];
      assert k <= m ==> u[..k] == r[..k];
    } else if m > off {
      PrefixSteps(r, m);
      PrefixCommands(Rest(r), m - off);
      ConsEqual(r[..k], Commands(Rest(u)), Commands(Rest(r)));
    }
  }

  /** What is kept is a prefix of the rest. */
  lemma KeptPrefix(s: string)
    ensures |Kept(s)| <= |Rest(s)| && Kept(s) == Rest(s)[..|Kept(s)|]
  {
    hide Rest;
  }

  /** A prefix that is too short cannot yield the commands of the line. */
  lemma {:induction false} TooShort(r: string, m: nat)
    requires m <= |r| && Returned(r[..m]) == Commands(r)
    ensures m >= Need(r)
    decreases |r|
  {
    var u, off := r[..m], |r| - |Rest(r)|;
    CommandsStep(r);
    CommandsStep(u);
    CutPrefix(r, m);
    RestPrefix(r, m);
    hide CutFrom, Rest, Commands, Kept, Returned;
    var k := CutFrom(r, 0);
    if Rest(r) == "" {
      assert Returned(u)[0] == u[..CutFrom(u, 0)] && Commands(r)[0] == r[..k];
    } else if m > off {
      PrefixSteps(r, m);
      KeptPrefix(u);
      var n := |Kept(u)|;
      assert Kept(u) == Rest(r)[..n];
      ConsEqual(r[..k], Returned(Kept(u)), Commands(Rest(r)));
      TooShort(Rest(r), n);
    }
  }

  lemma LosslessStep(s: string)
    ensures Lossless(s) <==> (Rest(s) != "" ==> |Kept(s)| >= Need(Rest(s)) && Lossless(Kept(s)))
  {
    hide Rest, Kept, Need;
  }

  /** The calls return exactly the commands of the line just when no step loses any of what is needed. */
  lemma {:induction false} ReturnedExactly(s: string)
    ensures Returned(s) == Commands(s) <==> Lossless(s)
    decreases |s|
  {
    hide CutFrom, Rest, Commands, Kept, Returned, Need, Lossless;
    CommandsStep(s);
    LosslessStep(s);
    if Rest(s) != "" {
      var r, u := Rest(s), Kept(s);
      KeptPrefix(s);
      ConsEqual(s[..CutFrom(s, 0)], Returned(u), Commands(r));
      PrefixCommands(r, |u|);
      KeptShorter(s);
      ReturnedExactly(u);
      if Returned(u) == Commands(r) {
        TooShort(r, |u|);
      }
    }
  }

  lemma KeptShorter(s: string)
    requires Rest(s) != ""
    ensures |Kept(s)| < |s|
  {
    hide CutFrom, Trim;
  }
}
