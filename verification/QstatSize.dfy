/** qstat's conversion of memory sizes to megabytes, megawords or gigabytes (src/cmds/qstat.c:587-665). */
module QstatSize {
  import opened Common
  import opened QstatNodes
  import QstatPlain

  const ULONG := 0x1_0000_0000_0000_0000

  datatype Target = Mb | Mw | Gb

  /** The value as it stands when no unit is asked for, else a number and its suffix. */
  datatype Shown = Same(text: string) | Sized(n: nat, suffix: string)

  function Pow2(k: nat): (p: nat)
    ensures p > 0
  {
    if k == 0 then 1 else 2 * Pow2(k - 1)
  }

  // -- the code --

  /** The table sift_factor. */
  function Shift(out: Target, unit: nat): int
    requires unit < 5
  {
    match out
    case Mb => [-20, -10, 0, 10, 20][unit]
    case Mw => [-23, -13, -3, 7, 17][unit]
    case Gb => [-30, -20, -10, 0, 10][unit]
  }

  function ShiftLeft(v: int, k: nat): nat {
    (v * Pow2(k)) % ULONG
  }

  function Div(v: nat, d: nat): (q: nat)
    requires d > 0
    ensures q * d <= v < q * d + d
  {
    v / d
  }

  function ShiftRight(v: nat, k: nat): nat {
    Div(v, Pow2(k))
  }

  function Convert(n: nat, unit: nat, word: bool, out: Target): nat
    requires unit < 5
  {
    var sft := Shift(out, unit);
    var v := if word then ShiftLeft(n, 3) else n;
    if sft < 0 then ShiftRight((v + (Pow2(-sft) - 1)) % ULONG, -sft) else ShiftLeft(v, sft)
  }

  function UnitOf(c: char): (unit: nat)
    ensures unit < 5
  {
    if c == 'k' then 1 else if c == 'm' then 2 else if c == 'g' then 3 else if c == 't' then 4 else 0
  }

  function TargetOf(mb: bool, mw: bool, gb: bool): Option<Target> {
    if mb then Some(Mb) else if mw then Some(Mw) else if gb then Some(Gb) else None
  }

  function Suffix(out: Target): string {
    match out case Mb => "mb" case Mw => "mw" case Gb => "gb"
  }

  /** `beyond` is the byte behind the terminator, which is looked at when the number ends the text. */
  function CnvSize(value: string, mb: bool, mw: bool, gb: bool, beyond: char): Shown {
    var out := TargetOf(mb, mw, gb);
    if out.None? then Same(value) else
    var (v, p) := StrToL(value);
    var word := At(value, p) == 'w' || (if p == |value| then beyond else At(value, p + 1)) == 'w';
    Sized(Convert(v % ULONG, UnitOf(At(value, p)), word, out.value), Suffix(out.value))
  }

  // -- what it should be --

  function TargetLog(out: Target): nat {
    match out case Mb => 20 case Mw => 23 case Gb => 30
  }

  function Words(n: nat, word: bool): nat {
    n * if word then 8 else 1
  }

  function Bytes(n: nat, unit: nat, word: bool): nat {
    Words(n, word) * Pow2(10 * unit)
  }

  /** `m` is the least number of units of `size` bytes that cover `bytes`. */
  predicate Covers(m: nat, size: nat, bytes: nat) {
    bytes <= m * size && (m == 0 || (m - 1) * size < bytes)
  }

  /** Nothing is shifted out of the 64 bits. */
  predicate Fits(n: nat, unit: nat, word: bool, out: Target)
    requires unit < 5
  {
    var v := Words(n, word);
    var sft := Shift(out, unit);
    if sft < 0 then v + Pow2(-sft) - 1 < ULONG else v * Pow2(sft) < ULONG
  }

  lemma {:induction false} Pow2Add(a: nat, b: nat)
    ensures Pow2(a + b) == Pow2(a) * Pow2(b)
  {
    if a > 0 {
      Pow2Add(a - 1, b);
      assert 2 * (Pow2(a - 1) * Pow2(b)) == (2 * Pow2(a - 1)) * Pow2(b);
    }
  }

  lemma ShiftIsDifference(out: Target, unit: nat)
    requires unit < 5
    ensures Shift(out, unit) == 10 * unit - TargetLog(out)
  {
  }

  lemma MulMono(a: int, b: int, c: int)
    requires 0 < c
    ensures a <= b <==> a * c <= b * c
    ensures a < b <==> a * c < b * c
  {
  }

  /** Covering is not changed by a common factor. */
  lemma CoversScale(m: nat, size: nat, v: nat, u: nat)
    requires u > 0
    ensures Covers(m, size * u, v * u) <==> Covers(m, size, v)
  {
    assert m * (size * u) == (m * size) * u;
    assert m > 0 ==> (m - 1) * (size * u) == ((m - 1) * size) * u;
    MulMono(v, m * size, u);
    if m > 0 {
      MulMono((m - 1) * size, v, u);
    }
  }

  lemma Ceiling(v: nat, size: nat)
    requires size > 0
    ensures Covers(Div(v + size - 1, size), size, v)
  {
    hide Div;
    var q := Div(v + size - 1, size);
    assert q > 0 ==> (q - 1) * size == q * size - size;
  }

  lemma Small(v: nat)
    requires v < ULONG
    ensures v % ULONG == v
  {
  }

  lemma WordBytes(n: nat, word: bool)
    requires n < ULONG
    ensures (if word then ShiftLeft(n, 3) else n) == Words(n, word) % ULONG
  {
    assert Pow2(3) == 8;
  }

  lemma Zero(x: nat, p: nat)
    requires x < p
    ensures Div(x, p) == 0
  {
    hide Div;
    var c := Div(x, p);
    if c > 0 {
      MulMono(1, c, p);
    }
  }

  /** Rounding up `v`, of which only `v % ULONG` is left, to units of `p`. */
  lemma RoundUp(v: nat, p: nat)
    requires 0 < p < ULONG
    ensures Covers(Div((v % ULONG + (p - 1)) % ULONG, p), p, v) <==> v + p - 1 < ULONG
    ensures v <= Div((v % ULONG + (p - 1)) % ULONG, p) * p <==> v + p - 1 < ULONG
  {
    var r := v % ULONG;
    var x := (r + (p - 1)) % ULONG;
    if v < ULONG {
      Small(v);
      if v + p - 1 < ULONG {
        Small(v + p - 1);
        hide Div;
        Ceiling(v, p);
      } else {
        assert x == v + p - 1 - ULONG;
        hide Div;
        Zero(x, p);
      }
    } else {
      hide Div;
      assert Div(x, p) * p <= x;
    }
  }

  /** Multiplying `v`, of which only `v % ULONG` is left, by `p`. */
  lemma Multiply(v: nat, p: nat)
    requires 0 < p
    ensures ((v % ULONG) * p) % ULONG == v * p <==> v * p < ULONG
  {
    if v * p < ULONG {
      MulMono(1, p, v + 1);
      assert v <= v * p;
      Small(v);
      Small(v * p);
    }
  }

  lemma CoversOne(m: nat, bytes: nat)
    ensures Covers(m, 1, bytes) <==> m == bytes
  {
  }

  lemma Pow2Of30()
    ensures Pow2(30) == 0x4000_0000
  {
    assert Pow2(5) == 32;
    hide Pow2;
    Pow2Add(5, 5);
    Pow2Add(10, 10);
    Pow2Add(20, 10);
  }

  lemma Pow2Below(k: nat)
    requires k <= 30
    ensures Pow2(k) < ULONG
  {
    hide Pow2;
    Pow2Of30();
    Pow2Add(k, 30 - k);
    MulMono(1, Pow2(30 - k), Pow2(k));
  }

  /** The conversion, the bytes and the bound in terms of one product. */
  lemma CoarserIs(n: nat, unit: nat, word: bool, out: Target, k: nat)
    requires n < ULONG && unit < 5 && k > 0 && k == -Shift(out, unit)
    ensures var v, u, p := Words(n, word), Pow2(10 * unit), Pow2(k);
            && Convert(n, unit, word, out) == Div((v % ULONG + (p - 1)) % ULONG, p)
            && Bytes(n, unit, word) == v * u
            && (Fits(n, unit, word, out) <==> v + p - 1 < ULONG)
  {
    hide Pow2, Div, Shift, ShiftLeft;
    WordBytes(n, word);
  }

  lemma Coarser(n: nat, unit: nat, word: bool, out: Target)
    requires n < ULONG && unit < 5 && Shift(out, unit) < 0
    ensures Covers(Convert(n, unit, word, out), Pow2(TargetLog(out)), Bytes(n, unit, word)) <==> Fits(n, unit, word, out)
  {
    hide Pow2, Covers, Div, Shift, TargetLog, Convert, Bytes, Fits, Words;
    var k := -Shift(out, unit);
    CoarserIs(n, unit, word, out, k);
    ShiftIsDifference(out, unit);
    AtMost30(out, unit);
    Pow2Add(k, 10 * unit);
    Pow2Below(k);
    RoundUp(Words(n, word), Pow2(k));
    CoversScale(Convert(n, unit, word, out), Pow2(k), Words(n, word), Pow2(10 * unit));
  }

  lemma AtMost30(out: Target, unit: nat)
    requires unit < 5
    ensures Shift(out, unit) >= -30
  {
  }

  lemma FinerIs(n: nat, unit: nat, word: bool, out: Target, k: nat)
    requires n < ULONG && unit < 5 && Shift(out, unit) == k
    ensures var v, u, p := Words(n, word), Pow2(10 * unit), Pow2(k);
            && Convert(n, unit, word, out) == ((v % ULONG) * p) % ULONG
            && Bytes(n, unit, word) == v * u
            && (Fits(n, unit, word, out) <==> v * p < ULONG)
  {
    hide Pow2, Div, Shift;
    WordBytes(n, word);
  }

  lemma Regroup(v: nat, p: nat, s: nat)
    ensures v * (p * s) == (v * p) * s && 1 * s == s
  {
  }

  lemma Finer(n: nat, unit: nat, word: bool, out: Target)
    requires n < ULONG && unit < 5 && Shift(out, unit) >= 0
    ensures Covers(Convert(n, unit, word, out), Pow2(TargetLog(out)), Bytes(n, unit, word)) <==> Fits(n, unit, word, out)
  {
    hide Pow2, Covers, Div, Shift, TargetLog, Convert, Bytes, Fits, Words;
    var k := Shift(out, unit);
    FinerIs(n, unit, word, out, k);
    ShiftIsDifference(out, unit);
    Pow2Add(k, TargetLog(out));
    var v, s, p, m := Words(n, word), Pow2(TargetLog(out)), Pow2(k), Convert(n, unit, word, out);
    Multiply(v, p);
    CoversOne(m, v * p);
    CoversScale(m, 1, v * p, s);
    Regroup(v, p, s);
  }

  /**
    The converted number is the least number of target units covering the size, for every unit, word
    flag and target, exactly when nothing is shifted out.  Where the target unit is the finer one
    this is the exact multiple.
   */
  lemma ConvertExactly(n: nat, unit: nat, word: bool, out: Target)
    requires n < ULONG && unit < 5
    ensures Covers(Convert(n, unit, word, out), Pow2(TargetLog(out)), Bytes(n, unit, word)) <==> Fits(n, unit, word, out)
  {
    hide *;
    if Shift(out, unit) < 0 {
      Coarser(n, unit, word, out);
    } else {
      Finer(n, unit, word, out);
    }
  }

  /** The display never shows less than the size, exactly when nothing is shifted out. */
  lemma NeverUnder(n: nat, unit: nat, word: bool, out: Target)
    requires n < ULONG && unit < 5
    ensures Bytes(n, unit, word) <= Convert(n, unit, word, out) * Pow2(TargetLog(out)) <==> Fits(n, unit, word, out)
  {
    hide Pow2, Div, Shift, TargetLog, Convert, Bytes, Fits, Words;
    var sft := Shift(out, unit);
    var v, m, s := Words(n, word), Convert(n, unit, word, out), Pow2(TargetLog(out));
    ShiftIsDifference(out, unit);
    if sft < 0 {
      var u, p := Pow2(10 * unit), Pow2(-sft);
      CoarserIs(n, unit, word, out, -sft);
      AtMost30(out, unit);
      Pow2Add(-sft, 10 * unit);
      Pow2Below(-sft);
      RoundUp(v, p);
      Regroup(m, p, u);
      MulMono(v, m * p, u);
    } else {
      var p := Pow2(sft);
      FinerIs(n, unit, word, out, sft);
      Pow2Add(sft, TargetLog(out));
      Multiply(v, p);
      Regroup(v, p, s);
      MulMono(v * p, m, s);
    }
  }

  lemma FitsDown(a: nat, b: nat, unit: nat, word: bool, out: Target)
    requires unit < 5 && a <= b && Fits(b, unit, word, out)
    ensures Fits(a, unit, word, out)
  {
    hide Pow2, Shift;
    var sft := Shift(out, unit);
    assert Words(a, word) <= Words(b, word);
    if sft >= 0 {
      MulMono(Words(a, word), Words(b, word), Pow2(sft));
    }
  }

  lemma CoverMonotone(m: nat, k: nat, size: nat, a: nat, b: nat)
    requires size > 0 && a <= b && Covers(m, size, a) && Covers(k, size, b)
    ensures m <= k
  {
    if k < m {
      MulMono(k, m - 1, size);
    }
  }

  /** A larger size is never shown as a smaller one. */
  lemma Monotone(a: nat, b: nat, unit: nat, word: bool, out: Target)
    requires a <= b < ULONG && unit < 5 && Fits(b, unit, word, out)
    ensures Convert(a, unit, word, out) <= Convert(b, unit, word, out)
  {
    hide Pow2, Convert, Fits, Covers;
    FitsDown(a, b, unit, word, out);
    ConvertExactly(a, unit, word, out);
    ConvertExactly(b, unit, word, out);
    var u := Pow2(10 * unit);
    MulMono(Words(a, word), Words(b, word), u);
    CoverMonotone(Convert(a, unit, word, out), Convert(b, unit, word, out), Pow2(TargetLog(out)),
                  Bytes(a, unit, word), Bytes(b, unit, word));
  }

  /** Beyond the 64 bits the order is lost: the largest number of bytes shows as nothing. */
  lemma WrapExample()
    ensures Convert(1, 0, false, Mb) == 1 && Convert(ULONG - 1, 0, false, Mb) == 0
  {
    hide Pow2, Div;
    var p := Pow2(20);
    Pow2Of20();
    Zero((ULONG - 1 + (p - 1)) % ULONG, p);
    Small(p);
    OneUnit(p);
  }

  lemma Pow2Of20()
    ensures Pow2(20) == 0x10_0000
  {
    assert Pow2(5) == 32;
    hide Pow2;
    Pow2Add(5, 5);
    Pow2Add(10, 10);
  }

  lemma OneUnit(p: nat)
    requires p > 0
    ensures Div(p, p) == 1
  {
    hide Div;
    var c := Div(p, p);
    if c > 1 {
      MulMono(2, c, p);
    }
  }

  /** The value of a sign and digits, as an unsigned long. */
  function SignedValue(sign: string, d: string): nat
    requires Digits(d)
  {
    Signed(sign == "-", d) % ULONG
  }

  /**
    White space, an optional sign, digits and a suffix are read as such: the unit is the suffix's first
    letter, `w` first or second means words, and the first of the options asked for decides the target.
   */
  lemma SizeText(ws: string, sign: string, d: string, s: string, mb: bool, mw: bool, gb: bool, beyond: char)
    requires AllSpace(ws) && (sign == "" || sign == "+" || sign == "-")
    requires d != "" && Digits(d) && (s == "" || !Digit(s[0]))
    ensures var word := At(s, 0) == 'w' || (if s == "" then beyond else At(s, 1)) == 'w';
            var value := ws + (sign + (d + s));
            CnvSize(value, mb, mw, gb, beyond) ==
              if mb then Sized(Convert(SignedValue(sign, d), UnitOf(At(s, 0)), word, Mb), "mb")
              else if mw then Sized(Convert(SignedValue(sign, d), UnitOf(At(s, 0)), word, Mw), "mw")
              else if gb then Sized(Convert(SignedValue(sign, d), UnitOf(At(s, 0)), word, Gb), "gb")
              else Same(value)
  {
    hide Convert, Signed, StrToL, UnitOf;
    NumberRead(ws, sign, d, s);
    var t := ws + (sign + (d + s));
    var n := |ws| + |sign| + |d|;
    assert t == (ws + sign + d) + s;
    assert At(t, n) == At(s, 0) && At(t, n + 1) == At(s, 1);
    assert n == |t| <==> s == "";
  }

  // -- a size as it is written --

  /** The suffixes: 1024 to the power `i`, of bytes or of words. */
  function SuffixText(i: nat, word: bool): string
    requires i < 5
  {
    (match i case 0 => "" case 1 => "k" case 2 => "m" case 3 => "g" case _ => "t") + if word then "w" else "b"
  }

  function Kilo(i: nat): (k: nat)
    ensures k > 0
  {
    if i == 0 then 1 else 1024 * Kilo(i - 1)
  }

  function SizeOf(out: Target): nat {
    match out case Mb => 0x10_0000 case Mw => 0x80_0000 case Gb => 0x4000_0000
  }

  function Name(out: Target): string {
    match out case Mb => "mb" case Mw => "mw" case Gb => "gb"
  }

  /** `v` units of `unit` bytes go through 64 bits on the way to units of `size` bytes: rounded up, or multiplied. */
  predicate Room(v: nat, unit: nat, size: nat)
    requires unit > 0 && size > 0
  {
    if unit < size then v + size / unit - 1 < ULONG else v * (unit / size) < ULONG
  }

  lemma {:induction false} KiloIs(i: nat)
    ensures Kilo(i) == Pow2(10 * i)
  {
    if i > 0 {
      KiloIs(i - 1);
      Pow2Add(10, 10 * (i - 1));
      Pow2Of10();
    }
  }

  lemma Pow2Of10()
    ensures Pow2(10) == 1024
  {
    assert Pow2(5) == 32;
    hide Pow2;
    Pow2Add(5, 5);
  }

  lemma SizeIs(out: Target)
    ensures SizeOf(out) == Pow2(TargetLog(out))
  {
    Pow2Of20();
    Pow2Of30();
    assert Pow2(3) == 8;
    hide Pow2;
    Pow2Add(3, 20);
  }

  lemma Quotient(a: nat, b: nat)
    requires b > 0
    ensures (a * b) / b == a
  {
    var q := Div(a * b, b);
    assert q == (a * b) / b;
    hide Div;
    Between(a, q, b);
  }

  lemma Between(a: nat, q: nat, b: nat)
    requires b > 0 && q * b <= a * b < q * b + b
    ensures q == a
  {
    assert (q + 1) * b == q * b + b;
    MulMono(q, a, b);
    MulMono(a, q + 1, b);
  }

  lemma RoomIsFits(n: nat, i: nat, word: bool, out: Target)
    requires i < 5
    ensures Fits(n, i, word, out) <==> Room(n * (if word then 8 else 1), Kilo(i), SizeOf(out))
  {
    hide Pow2, Kilo, SizeOf, Shift, TargetLog;
    var u, size, sft := Kilo(i), SizeOf(out), Shift(out, i);
    KiloIs(i);
    SizeIs(out);
    ShiftIsDifference(out, i);
    if sft < 0 {
      Pow2Add(-sft, 10 * i);
      Quotient(Pow2(-sft), u);
      Longer(-sft);
      MulMono(1, Pow2(-sft), u);
    } else {
      Pow2Add(sft, TargetLog(out));
      Quotient(Pow2(sft), size);
      MulMono(1, Pow2(sft), size);
    }
  }

  lemma Longer(k: nat)
    requires k > 0
    ensures Pow2(k) > 1
  {
  }

  lemma SuffixRead(i: nat, word: bool)
    requires i < 5
    ensures var s := SuffixText(i, word);
            s != "" && !Digit(s[0]) && UnitOf(s[0]) == i && (word <==> s[0] == 'w' || At(s, 1) == 'w')
  {
  }

  /** The number shown for a size converted, beside what was written. */
  lemma ShownIs(n: nat, i: nat, word: bool, out: Target)
    requires n < ULONG && i < 5
    ensures Covers(Convert(n, i, word, out), SizeOf(out), n * (if word then 8 else 1) * Kilo(i)) <==>
            Room(n * (if word then 8 else 1), Kilo(i), SizeOf(out))
  {
    hide Convert, Covers, Fits, Room, Pow2, Kilo, SizeOf, TargetLog;
    ConvertExactly(n, i, word, out);
    RoomIsFits(n, i, word, out);
    KiloIs(i);
    SizeIs(out);
  }

  /** The target asked for: megabytes before megawords before gigabytes. */
  function Asked(mb: bool, mw: bool, gb: bool): (out: Target)
    requires mb || mw || gb
  {
    if mb then Mb else if mw then Mw else Gb
  }

  /**
    A number of b, kb, mb, gb, tb, w, kw, mw, gw or tw is shown as the least number of the units asked
    for that covers it, exactly when it does not overflow 64 bits on the way.
   */
  lemma SizeShown(ws: string, d: string, i: nat, word: bool, mb: bool, mw: bool, gb: bool, beyond: char)
    requires AllSpace(ws) && d != "" && Digits(d) && i < 5 && (mb || mw || gb) && Decimal(d) <= LONG_MAX
    ensures var r := CnvSize(ws + (d + SuffixText(i, word)), mb, mw, gb, beyond);
            var v, size := Decimal(d) * (if word then 8 else 1), SizeOf(Asked(mb, mw, gb));
            && r.Sized? && r.suffix == Name(Asked(mb, mw, gb))
            && (Covers(r.n, size, v * Kilo(i)) <==> Room(v, Kilo(i), size))
  {
    var s := SuffixText(i, word);
    assert "" + (d + s) == d + s;
    assert SignedValue("", d) == Decimal(d) < ULONG;
    SuffixRead(i, word);
    hide SuffixText, Convert, Covers, Room, Kilo, SizeOf, CnvSize, SignedValue, UnitOf, Decimal;
    SizeText(ws, "", d, s, mb, mw, gb, beyond);
    ShownIs(Decimal(d), i, word, Asked(mb, mw, gb));
  }

  lemma NumberRead(ws: string, sign: string, d: string, s: string)
    requires AllSpace(ws) && (sign == "" || sign == "+" || sign == "-")
    requires d != "" && Digits(d) && (s == "" || !Digit(s[0]))
    ensures var r := StrToL(ws + (sign + (d + s)));
            && r.0 == Signed(sign == "-", d)
            && r.1 == |ws| + |sign| + |d|
  {
    assert d[0] in d;
    hide *;
    var u := sign + (d + s);
    SignRead(sign, d, s);
    TrimOver(ws, u);
    AllDigits(d);
    QstatPlain.DigitsCat(d, s);
    assert u[|sign|..] == d + s && (d + s)[..|d|] == d;
    FromParts(ws + u, u, |sign|, d + s, |d|, d);
  }

  /** strtol, step by step. */
  lemma Steps(t: string)
    ensures var u := Trim(t);
            var k := SignLen(u);
            var n := DigitsLen(u[k..]);
            n > 0 ==>
              && StrToL(t).1 == |t| - |u| + k + n
              && StrToL(t).0 == Signed(k == 1 && u[0] == '-', u[k..][..n])
  {
    hide Trim, SignLen, DigitsLen, Decimal, Clamped, Digits;
  }

  function Signed(negative: bool, d: string): int
    requires Digits(d)
  {
    var v: int := Decimal(d);
    Clamped(if negative then -v else v)
  }

  lemma FromParts(t: string, u: string, k: nat, x: string, n: nat, d: string)
    requires u == Trim(t) && k == SignLen(u) && x == u[k..] && n == DigitsLen(x) > 0 && d == x[..n] && Digits(d)
    ensures StrToL(t).1 == |t| - |u| + k + n
    ensures StrToL(t).0 == Signed(k == 1 && u[0] == '-', d)
  {
    hide *;
    Steps(t);
  }

  lemma SignRead(sign: string, d: string, s: string)
    requires (sign == "" || sign == "+" || sign == "-") && d != "" && Digit(d[0])
    ensures var u := sign + (d + s);
            u != "" && !Space(u[0]) && SignLen(u) == |sign| && (u[0] == '-' <==> sign == "-")
  {
    var u := sign + (d + s);
    assert u[0] == if sign == "" then d[0] else sign[0];
  }

  lemma {:induction false} AllDigits(d: string)
    requires Digits(d)
    ensures DigitsLen(d) == |d|
  {
    if d != "" {
      AllDigits(d[1..]);
    }
  }
}
