/**
  What the parser of src/cmds/MXML.c:1328-1738 passes over: attributes in a tag, and comments and
  declarations in front of an element.
 */
module MxmlMarkup {
  import opened Common
  import opened MxmlTree
  import opened MxmlParse

  /** An attribute as written, with the blanks behind it. */
  datatype Attribute = Attribute(name: string, value: string, gap: string)

  function AttributeText(a: Attribute): string {
    a.name + ("=\"" + (a.value + ("\"" + a.gap)))
  }

  function AttributesText(l: seq<Attribute>): string {
    if l == [] then "" else AttributeText(l[0]) + AttributesText(l[1..])
  }

  predicate Blanks(g: string) {
    forall i :: 0 <= i < |g| ==> g[i] == ' '
  }

  /** Every quote inside is escaped, and the closing one is not. */
  predicate Closes(v: string) {
    && (forall j :: 0 <= j < |v| && v[j] == '"' ==> j > 0 && v[j - 1] == '\\')
    && (v != "" ==> v[|v| - 1] != '\\')
  }

  predicate GoodAttribute(a: Attribute) {
    && '=' !in a.name && |a.name| < MMAX_LINE && !(" " <= a.name) && !(">" <= a.name) && !("/>" <= a.name)
    && Closes(a.value) && |a.value| < MMAX_XBUFFER && Blanks(a.gap)
  }

  predicate GoodAttributes(l: seq<Attribute>) {
    forall i :: 0 <= i < |l| ==> GoodAttribute(l[i])
  }

  lemma StandsBoth(s: string, p: nat, a: string, b: string)
    ensures StartsWith(s, p, a + b) <==> StartsWith(s, p, a) && StartsWith(s, p + |a|, b)
  {
    var t := a + b;
    if p + |t| <= |s| {
      assert s[p..p + |t|] == s[p..p + |a|] + s[p + |a|..p + |t|];
      assert t[..|a|] == a && t[|a|..] == b;
    }
  }

  lemma StandsAt(s: string, p: nat, t: string, j: nat)
    requires StartsWith(s, p, t) && j < |t|
    ensures p + j < |s| && s[p + j] == t[j]
  {
    assert s[p..p + |t|][j] == s[p + j];
  }

  // -- one attribute --

  lemma {:induction false} NameScanned(s: string, p: nat, n: string, k: nat)
    requires StartsWith(s, p, n) && p + |n| < |s| && s[p + |n|] == '=' && '=' !in n && k <= |n| < MMAX_LINE
    ensures ScanAttrName(s, p + k, k) == p + |n|
    decreases |n| - k
  {
    if k < |n| {
      StandsAt(s, p, n, k);
      assert n[k] in n;
      NameScanned(s, p, n, k + 1);
    }
  }

  lemma {:induction false} ValueScanned(s: string, p: nat, v: string, k: nat)
    requires StartsWith(s, p, v) && 0 < p && p + |v| < |s| && s[p - 1] == '"' && s[p + |v|] == '"'
    requires Closes(v) && k <= |v| < MMAX_XBUFFER
    ensures ScanAttrVal(s, p + k, k) == Some(p + |v|)
    decreases |v| - k
  {
    if k > 0 {
      StandsAt(s, p, v, k - 1);
    }
    if k < |v| {
      StandsAt(s, p, v, k);
      ValueScanned(s, p, v, k + 1);
    }
  }

  lemma {:induction false} BlanksSkipped(s: string, p: nat, g: string)
    requires Blanks(g) && StartsWith(s, p, g) && At(s, p + |g|) != ' '
    ensures SkipBlanks(s, p) == p + |g|
    decreases |g|
  {
    if g != "" {
      StandsAt(s, p, g, 0);
      assert [g[0]] + g[1..] == g;
      StandsBoth(s, p, [g[0]], g[1..]);
      BlanksSkipped(s, p + 1, g[1..]);
    }
  }

  /** Where the parts of an attribute stand. */
  lemma AttributeParts(s: string, p: nat, a: Attribute)
    requires StartsWith(s, p, AttributeText(a))
    ensures var v := p + |a.name| + 2;
            && StartsWith(s, p, a.name) && v <= |s| && s[p + |a.name|] == '=' && s[v - 1] == '"'
            && StartsWith(s, v, a.value) && v + |a.value| < |s| && s[v + |a.value|] == '"'
            && StartsWith(s, v + |a.value| + 1, a.gap) && |AttributeText(a)| == |a.name| + |a.value| + |a.gap| + 3
  {
    var rest := a.value + ("\"" + a.gap);
    hide StartsWith;
    StandsBoth(s, p, a.name, "=\"" + rest);
    StandsBoth(s, p + |a.name|, "=\"", rest);
    StandsAt(s, p + |a.name|, "=\"", 0);
    StandsAt(s, p + |a.name|, "=\"", 1);
    StandsBoth(s, p + |a.name| + 2, a.value, "\"" + a.gap);
    StandsBoth(s, p + |a.name| + 2 + |a.value|, "\"", a.gap);
    StandsAt(s, p + |a.name| + 2 + |a.value|, "\"", 0);
  }

  /** The scan passes one attribute and the blanks behind it. */
  lemma AttributeSkipped(s: string, p: nat, a: Attribute)
    requires GoodAttribute(a) && StartsWith(s, p, AttributeText(a)) && At(s, p + |AttributeText(a)|) != ' '
    ensures var d := p + |AttributeText(a)|;
            SkipAttrs(s, p) == if At(s, d) == '/' && At(s, d + 1) == '>' then Ended(d + 2) else SkipAttrs(s, d)
  {
    hide *;
    AttributeParts(s, p, a);
    AttributeIs(a);
    NotOpen(s, p, a);
    NameScanned(s, p, a.name, 0);
    var v := p + |a.name| + 2;
    ValueScanned(s, v, a.value, 0);
    BlanksSkipped(s, v + |a.value| + 1, a.gap);
    AttributeStep(s, p, v, v + |a.value|, v + |a.value| + 1 + |a.gap|);
  }

  lemma AttributeIs(a: Attribute)
    requires GoodAttribute(a)
    ensures '=' !in a.name && |a.name| < MMAX_LINE && Closes(a.value) && |a.value| < MMAX_XBUFFER && Blanks(a.gap)
  {
    hide Closes, Blanks;
  }

  lemma AttributeStep(s: string, p: nat, v: nat, q: nat, d: nat)
    requires p <= v - 2 && v < |s| && q < |s| && At(s, p) != '>'
    requires ScanAttrName(s, p, 0) == v - 2 && ScanAttrVal(s, v, 0) == Some(q) && SkipBlanks(s, q + 1) == d
    ensures SkipAttrs(s, p) == if At(s, d) == '/' && At(s, d + 1) == '>' then Ended(d + 2) else SkipAttrs(s, d)
  {
    hide ScanAttrName, ScanAttrVal, SkipBlanks;
  }

  lemma NotOpen(s: string, p: nat, a: Attribute)
    requires GoodAttribute(a) && StartsWith(s, p, a.name) && p + |a.name| < |s| && s[p + |a.name|] == '='
    ensures At(s, p) != '>' && At(s, p) != ' ' && !(At(s, p) == '/' && At(s, p + 1) == '>')
  {
    if a.name != "" {
      StandsAt(s, p, a.name, 0);
      assert a.name[..1] == [a.name[0]];
      if |a.name| > 1 {
        StandsAt(s, p, a.name, 1);
        assert a.name[..2] == [a.name[0], a.name[1]];
      }
    }
  }

  lemma FirstStands(s: string, p: nat, l: seq<Attribute>, x: string)
    requires GoodAttributes(l) && (">" <= x || "/>" <= x) && StartsWith(s, p, AttributesText(l) + x)
    ensures p <= |s| && At(s, p) != ' ' && (l != [] ==> At(s, p) != '>' && !(At(s, p) == '/' && At(s, p + 1) == '>'))
  {
    if l == [] {
      assert "" + x == x;
      StandsAt(s, p, x, 0);
    } else {
      hide *;
      AttributesStep(l);
      FirstOf(s, p, AttributeText(l[0]), AttributesText(l[1..]), x);
      AttributeParts(s, p, l[0]);
      NotOpen(s, p, l[0]);
    }
  }

  /** All the attributes of a tag are passed, up to `>` or, behind at least one of them, `/>`. */
  lemma {:induction false} AttributesSkipped(s: string, p: nat, l: seq<Attribute>, x: string)
    requires GoodAttributes(l) && StartsWith(s, p, AttributesText(l) + x)
    requires ">" <= x || (l != [] && "/>" <= x)
    ensures var d := p + |AttributesText(l)|; SkipAttrs(s, p) == if ">" <= x then Opened(d) else Ended(d + 2)
    decreases |l|
  {
    hide *;
    AttributesStep(l);
    FirstStands(s, p, l, x);
    if l == [] {
      EndAhead(s, p, l, x);
      OpenAt(s, p);
    } else {
      var a := AttributeText(l[0]);
      FirstOf(s, p, a, AttributesText(l[1..]), x);
      FirstStands(s, p + |a|, l[1..], x);
      AttributeSkipped(s, p, l[0]);
      EndAhead(s, p + |a|, l[1..], x);
      if |l| > 1 || ">" <= x {
        AttributesSkipped(s, p + |a|, l[1..], x);
      } else {
        AttributesStep(l[1..]);
      }
    }
  }

  lemma OpenAt(s: string, p: nat)
    requires p <= |s|
    ensures At(s, p) == '>' ==> SkipAttrs(s, p) == Opened(p)
  {
  }

  lemma AttributesStep(l: seq<Attribute>)
    requires GoodAttributes(l)
    ensures if l == [] then AttributesText(l) == ""
            else AttributesText(l) == AttributeText(l[0]) + AttributesText(l[1..]) && GoodAttribute(l[0]) && GoodAttributes(l[1..])
  {
    hide GoodAttribute, AttributeText;
  }

  lemma FirstOf(s: string, p: nat, a: string, rest: string, x: string)
    requires StartsWith(s, p, (a + rest) + x)
    ensures StartsWith(s, p, a) && StartsWith(s, p + |a|, rest + x)
  {
    hide StartsWith;
    assert (a + rest) + x == a + (rest + x);
    StandsBoth(s, p, a, rest + x);
  }

  lemma EndAhead(s: string, p: nat, l: seq<Attribute>, x: string)
    requires StartsWith(s, p, AttributesText(l) + x)
    ensures l == [] && ">" <= x ==> At(s, p) == '>'
    ensures l == [] && "/>" <= x ==> At(s, p) == '/' && At(s, p + 1) == '>'
  {
    if l == [] {
      assert "" + x == x;
      if ">" <= x {
        StandsAt(s, p, x, 0);
      }
      if "/>" <= x {
        StandsAt(s, p, x, 0);
        StandsAt(s, p, x, 1);
      }
    }
  }

  // -- tags --

  predicate TagName(n: string) {
    n != "" && |n| < MMAX_LINE && ' ' !in n && '>' !in n && '/' !in n && n[0] != '?' && n[0] != '!'
  }

  lemma {:induction false} TagNameScanned(s: string, p: nat, n: string, k: nat)
    requires StartsWith(s, p, n) && TagName(n) && p + |n| < |s| && k <= |n|
    requires s[p + |n|] == ' ' || s[p + |n|] == '>'
    ensures ScanName(s, p + k, k) == OpenName(p + |n|)
    decreases |n| - k
  {
    if k < |n| {
      StandsAt(s, p, n, k);
      assert n[k] in n;
      TagNameScanned(s, p, n, k + 1);
    }
  }

  /** A tag with attributes, separated from the name by blanks. */
  function TagText(n: string, gap: string, l: seq<Attribute>): string {
    "<" + (n + (gap + AttributesText(l)))
  }

  lemma TagStarts(s: string, p: nat, n: string, gap: string, l: seq<Attribute>, x: string)
    requires TagName(n) && Blanks(gap) && (l != [] ==> gap != "") && GoodAttributes(l)
    requires ">" <= x || (l != [] && "/>" <= x)
    requires StartsWith(s, p, TagText(n, gap, l) + x)
    ensures p < |s| && s[p] == '<' && StartsWith(s, p + 1, n)
    ensures p + 1 + |n| < |s| && (s[p + 1 + |n|] == ' ' || s[p + 1 + |n|] == '>')
    ensures SkipBlanks(s, p + 1 + |n|) == p + 1 + |n| + |gap|
    ensures StartsWith(s, p + 1 + |n| + |gap|, AttributesText(l) + x)
  {
    var b := AttributesText(l) + x;
    TagTextIs(n, gap, l, x);
    hide *;
    StandsBoth(s, p, "<", n + (gap + b));
    StandsAt(s, p, "<", 0);
    StandsBoth(s, p + 1, n, gap + b);
    StandsBoth(s, p + 1 + |n|, gap, b);
    FirstStands(s, p + 1 + |n| + |gap|, l, x);
    BlanksSkipped(s, p + 1 + |n|, gap);
    NameThenGap(s, p + 1 + |n|, gap, l, x);
  }

  lemma TagTextIs(n: string, gap: string, l: seq<Attribute>, x: string)
    ensures TagText(n, gap, l) + x == "<" + (n + (gap + (AttributesText(l) + x)))
    ensures |TagText(n, gap, l)| == 1 + |n| + |gap| + |AttributesText(l)|
  {
    hide AttributesText;
  }

  lemma NameThenGap(s: string, q: nat, gap: string, l: seq<Attribute>, x: string)
    requires Blanks(gap) && (l != [] ==> gap != "") && (">" <= x || (l != [] && "/>" <= x))
    requires StartsWith(s, q, gap) && StartsWith(s, q + |gap|, AttributesText(l) + x)
    ensures q < |s| && (s[q] == ' ' || s[q] == '>')
  {
    if gap != "" {
      StandsAt(s, q, gap, 0);
    } else {
      EndAhead(s, q, l, x);
    }
  }

  lemma PlainStart(s: string, p: nat, n: string)
    requires p < |s| && s[p] == '<' && StartsWith(s, p + 1, n) && TagName(n)
    ensures StrChr(s, p, '<') == Some(p) && SkipMeta(s, p) == Some(p) && SkipWhite(s, p) == p
    ensures At(s, p + 1) != '/'
  {
    StandsAt(s, p + 1, n, 0);
    assert n[0] in n;
  }

  /** The attributes of a tag make no difference: the element goes on behind the `>`, or ends at the `/>`. */
  lemma TagRead(s: string, p: nat, n: string, gap: string, l: seq<Attribute>, x: string)
    requires TagName(n) && Blanks(gap) && (l != [] ==> gap != "") && GoodAttributes(l)
    requires ">" <= x || (l != [] && "/>" <= x)
    requires StartsWith(s, p, TagText(n, gap, l) + x)
    ensures var d := p + |TagText(n, gap, l)|;
            d < |s| && Parse(s, p) == if ">" <= x then Body(s, n, SkipWhite(s, d + 1)) else Parsed(Elem(Some(n), None, []), d + 2)
  {
    hide *;
    var at := p + 1 + |n| + |gap|;
    TagTextIs(n, gap, l, x);
    TagStarts(s, p, n, gap, l, x);
    PlainStart(s, p, n);
    TagNameScanned(s, p + 1, n, 0);
    NameCut(s, p + 1, n);
    AttributesSkipped(s, at, l, x);
    ParseOpen(s, p, n, at);
  }

  lemma NameCut(s: string, p: nat, n: string)
    requires StartsWith(s, p, n) && TagName(n)
    ensures p + |n| <= |s| && s[p..p + |n|] == n && MakeName(n) == Some(n)
  {
  }

  lemma ParseOpen(s: string, p: nat, n: string, at: nat)
    requires p < |s| && s[p] == '<' && StrChr(s, p, '<') == Some(p) && SkipMeta(s, p) == Some(p) && SkipWhite(s, p) == p
    requires At(s, p + 1) != '/' && p + 1 + |n| <= |s| && ScanName(s, p + 1, 0) == OpenName(p + 1 + |n|)
    requires s[p + 1..p + 1 + |n|] == n && SkipBlanks(s, p + 1 + |n|) == at && MakeName(n) == Some(n)
    ensures match SkipAttrs(s, at)
            case AttrsCorrupt => Parse(s, p) == Rejected
            case Ended(w) => Parse(s, p) == Parsed(Elem(Some(n), None, []), w)
            case Opened(w) => Parse(s, p) == Body(s, n, SkipWhite(s, w + 1))
  {
    hide *;
    ElementFrom(s, p);
    OpenElement(s, p, n, at);
  }

  lemma OpenElement(s: string, p: nat, n: string, at: nat)
    requires p < |s| && s[p] == '<' && SkipWhite(s, p) == p
    requires p + 1 + |n| <= |s| && ScanName(s, p + 1, 0) == OpenName(p + 1 + |n|)
    requires s[p + 1..p + 1 + |n|] == n && SkipBlanks(s, p + 1 + |n|) == at && MakeName(n) == Some(n)
    ensures match SkipAttrs(s, at)
            case AttrsCorrupt => Element(s, p) == Rejected
            case Ended(w) => Element(s, p) == Parsed(Elem(Some(n), None, []), w)
            case Opened(w) => Element(s, p) == Body(s, n, SkipWhite(s, w + 1))
  {
    hide Body, SkipWhite, ScanName, SkipAttrs, SkipBlanks, MakeName, Space;
  }

  lemma {:induction false} NoEquals(s: string, p: nat, n: nat)
    requires p <= |s| && n + (|s| - p) < MMAX_LINE && '=' !in s[p..]
    ensures ScanAttrName(s, p, n) == |s|
    decreases |s| - p
  {
    if p < |s| {
      assert s[p..][0] == s[p] && s[p..] == [s[p]] + s[p + 1..];
      NoEquals(s, p + 1, n + 1);
    }
  }

  /** A blank in front of `/>` makes it the name of an attribute: `<a />` is rejected. */
  lemma BlankBeforeSlash(s: string, p: nat, n: string, gap: string)
    requires TagName(n) && Blanks(gap) && gap != "" && StartsWith(s, p, "<" + (n + (gap + "/>")))
    requires '=' !in s[p..] && |s| - p < MMAX_LINE
    ensures Parse(s, p) == Rejected
  {
    hide *;
    SlashStands(s, p, n, gap);
    BlanksSkipped(s, p + 1 + |n|, gap);
    PlainStart(s, p, n);
    TagNameScanned(s, p + 1, n, 0);
    NameCut(s, p + 1, n);
    var at := p + 1 + |n| + |gap|;
    NoEquals(s, at, 0);
    CorruptHere(s, at);
    ParseOpen(s, p, n, at);
  }

  lemma SlashStands(s: string, p: nat, n: string, gap: string)
    requires Blanks(gap) && gap != "" && StartsWith(s, p, "<" + (n + (gap + "/>"))) && '=' !in s[p..]
    ensures var at := p + 1 + |n| + |gap|;
            && at < |s| && s[p] == '<' && StartsWith(s, p + 1, n) && s[p + 1 + |n|] == ' '
            && StartsWith(s, p + 1 + |n|, gap) && s[at] == At(s, at) == '/' && '=' !in s[at..]
  {
    var at := p + 1 + |n| + |gap|;
    hide StartsWith;
    StandsBoth(s, p, "<", n + (gap + "/>"));
    StandsAt(s, p, "<", 0);
    StandsBoth(s, p + 1, n, gap + "/>");
    StandsBoth(s, p + 1 + |n|, gap, "/>");
    StandsAt(s, at, "/>", 0);
    StandsAt(s, p + 1 + |n|, gap, 0);
    assert s[p..][at - p..] == s[at..];
  }

  lemma CorruptHere(s: string, at: nat)
    requires at < |s| && s[at] != '>' && ScanAttrName(s, at, 0) == |s|
    ensures SkipAttrs(s, at) == AttrsCorrupt
  {
    hide ScanAttrName;
  }

  // -- comments and declarations --

  /** A comment or a declaration, with the text up to the next tag. */
  datatype Meta = Remark(text: string, gap: string) | Declaration(text: string, gap: string)

  function Opening(m: Meta): string {
    if m.Remark? then "<!--" else "<?"
  }

  function Closing(m: Meta): string {
    if m.Remark? then "-->" else "?>"
  }

  function MetaText(m: Meta): string {
    Opening(m) + (m.text + (Closing(m) + m.gap))
  }

  function MetasText(ms: seq<Meta>): string {
    if ms == [] then "" else MetaText(ms[0]) + MetasText(ms[1..])
  }

  /** The closing mark does not occur before its place. */
  predicate GoodMeta(m: Meta) {
    && '<' !in m.gap
    && forall j :: 0 <= j < |m.text| ==> !StartsWith(m.text + Closing(m), j, Closing(m))
  }

  predicate GoodMetas(ms: seq<Meta>) {
    forall i :: 0 <= i < |ms| ==> GoodMeta(ms[i])
  }

  lemma InsideStands(s: string, p: nat, t: string, j: nat, w: string)
    requires StartsWith(s, p, t) && j + |w| <= |t|
    ensures StartsWith(s, p + j, w) <==> StartsWith(t, j, w)
  {
    var a, b, c := t[..j], t[j..j + |w|], t[j + |w|..];
    assert t == a + (b + c);
    StandsBoth(s, p, a, b + c);
    StandsBoth(s, p + j, b, c);
  }

  lemma {:induction false} MarkFound(s: string, p: nat, c: string, w: string, k: nat)
    requires StartsWith(s, p, c + w) && k <= |c|
    requires forall j :: 0 <= j < |c| ==> !StartsWith(c + w, j, w)
    ensures StrStr(s, p + k, w) == Some(p + |c|)
    decreases |c| - k
  {
    hide StartsWith;
    StandsBoth(s, p, c, w);
    Within(s, p, c + w);
    if k < |c| {
      InsideStands(s, p, c + w, k, w);
      MarkFound(s, p, c, w, k + 1);
    }
  }

  lemma Within(s: string, p: nat, t: string)
    requires StartsWith(s, p, t)
    ensures p + |t| <= |s|
  {
  }

  lemma {:induction false} TagFound(s: string, p: nat, g: string, k: nat)
    requires StartsWith(s, p, g) && '<' !in g && p + |g| < |s| && s[p + |g|] == '<' && k <= |g|
    ensures StrChr(s, p + k, '<') == Some(p + |g|)
    decreases |g| - k
  {
    if k < |g| {
      StandsAt(s, p, g, k);
      assert g[k] in g;
      TagFound(s, p, g, k + 1);
    }
  }

  lemma AfterMark(s: string, p: nat, c: string, w: string, g: string)
    requires StartsWith(s, p, c + (w + g)) && p + |c| + |w| + |g| < |s| && s[p + |c| + |w| + |g|] == '<'
    requires '<' !in w && '<' !in g && forall j :: 0 <= j < |c| ==> !StartsWith(c + w, j, w)
    ensures After(s, p, w) == Some(p + |c| + |w| + |g|)
  {
    hide StartsWith, StrStr, StrChr;
    assert c + (w + g) == (c + w) + g;
    StandsBoth(s, p, c + w, g);
    MarkFound(s, p, c, w, 0);
    StandsBoth(s, p, c, w + g);
    TagFound(s, p + |c|, w + g, 0);
  }

  /** One comment or declaration is passed. */
  lemma MetaSkipped(s: string, p: nat, m: Meta)
    requires GoodMeta(m) && StartsWith(s, p, MetaText(m)) && p + |MetaText(m)| < |s| && s[p + |MetaText(m)|] == '<'
    ensures p < |s| && s[p] == '<' && (At(s, p + 1) == '!' || At(s, p + 1) == '?')
    ensures SkipMeta(s, p) == SkipMeta(s, p + |MetaText(m)|)
  {
    hide *;
    MetaIs(m);
    StandsBoth(s, p, Opening(m), m.text + (Closing(m) + m.gap));
    OpeningStands(s, p, m);
    AfterMark(s, p + |Opening(m)|, m.text, Closing(m), m.gap);
    MetaStep(s, p, m, p + |MetaText(m)|);
  }

  lemma MetaIs(m: Meta)
    requires GoodMeta(m)
    ensures MetaText(m) == Opening(m) + (m.text + (Closing(m) + m.gap))
    ensures |MetaText(m)| == |Opening(m)| + |m.text| + |Closing(m)| + |m.gap|
    ensures '<' !in m.gap && '<' !in Closing(m)
    ensures forall j :: 0 <= j < |m.text| ==> !StartsWith(m.text + Closing(m), j, Closing(m))
  {
    hide StartsWith;
  }

  lemma MetaStep(s: string, p: nat, m: Meta, d: nat)
    requires p < |s| && s[p] == '<' && p + |Opening(m)| <= |s| && After(s, p + |Opening(m)|, Closing(m)) == Some(d)
    requires m.Remark? ==> At(s, p + 1) == '!' && Comment(s, p + 1)
    requires m.Declaration? ==> At(s, p + 1) == '?'
    ensures SkipMeta(s, p) == SkipMeta(s, d)
  {
    hide After, Comment;
  }

  lemma OpeningStands(s: string, p: nat, m: Meta)
    requires StartsWith(s, p, Opening(m))
    ensures p < |s| && s[p] == '<'
    ensures m.Remark? ==> At(s, p + 1) == '!' && Comment(s, p + 1)
    ensures m.Declaration? ==> At(s, p + 1) == '?'
  {
    StandsAt(s, p, Opening(m), 0);
    StandsAt(s, p, Opening(m), 1);
    if m.Remark? {
      StandsAt(s, p, Opening(m), 2);
      StandsAt(s, p, Opening(m), 3);
    }
  }

  lemma {:induction false} MetasSkipped(s: string, p: nat, ms: seq<Meta>)
    requires GoodMetas(ms) && StartsWith(s, p, MetasText(ms) + "<")
    ensures var d := p + |MetasText(ms)|;
            d < |s| && s[d] == '<' && s[p] == '<' && SkipMeta(s, p) == SkipMeta(s, d) && (ms != [] ==> At(s, p + 1) != '/')
    decreases |ms|
  {
    hide *;
    MetasStep(ms);
    if ms == [] {
      assert "" + "<" == "<";
      StandsAt(s, p, "<", 0);
    } else {
      var a := MetaText(ms[0]);
      FirstOf(s, p, a, MetasText(ms[1..]), "<");
      MetasSkipped(s, p + |a|, ms[1..]);
      MetaSkipped(s, p, ms[0]);
    }
  }

  lemma MetasStep(ms: seq<Meta>)
    requires GoodMetas(ms)
    ensures if ms == [] then MetasText(ms) == ""
            else MetasText(ms) == MetaText(ms[0]) + MetasText(ms[1..]) && GoodMeta(ms[0]) && GoodMetas(ms[1..])
  {
    hide GoodMeta, MetaText;
  }

  /** Comments and declarations in front of an element make no difference. */
  lemma MetasRead(s: string, p: nat, ms: seq<Meta>)
    requires GoodMetas(ms) && StartsWith(s, p, MetasText(ms) + "<") && At(s, p + |MetasText(ms)| + 1) != '/'
    ensures p + |MetasText(ms)| < |s| && Parse(s, p) == Parse(s, p + |MetasText(ms)|)
  {
    hide *;
    MetasStep(ms);
    MetasSkipped(s, p, ms);
    if ms != [] {
      SameElement(s, p, p + |MetasText(ms)|);
    }
  }

  lemma SameElement(s: string, p: nat, d: nat)
    requires p <= d < |s| && s[p] == s[d] == '<' && SkipMeta(s, p) == SkipMeta(s, d)
    requires At(s, p + 1) != '/' && At(s, d + 1) != '/'
    ensures Parse(s, p) == Parse(s, d)
  {
    hide *;
    TagHere(s, p);
    TagHere(s, d);
    ElementFrom(s, p);
    ElementFrom(s, d);
  }

  lemma TagHere(s: string, p: nat)
    requires p < |s| && s[p] == '<'
    ensures StrChr(s, p, '<') == Some(p)
  {
  }

  lemma ElementFrom(s: string, p: nat)
    requires p < |s| && s[p] == '<' && StrChr(s, p, '<') == Some(p) && At(s, p + 1) != '/'
    ensures Parse(s, p) == if SkipMeta(s, p).None? then Rejected else Element(s, SkipMeta(s, p).value)
  {
    hide StrChr, Element, SkipMeta;
  }

  /** Any other `<!` is an error. */
  lemma OtherMarkup(s: string, p: nat)
    requires p + 2 < |s| && s[p] == '<' && s[p + 1] == '!' && s[p + 2] != '?' && s[p + 2] != '!' && !Comment(s, p + 1)
    ensures Parse(s, p) == Rejected
  {
    hide Body, ScanName, SkipAttrs, SkipBlanks, After;
    assert SkipMeta(s, p + 1) == Some(p + 1) && SkipMeta(s, p) == Some(p + 1);
  }
}
