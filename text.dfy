/** The parts of Python's `str` that the sheet engine relies on: the prefix test
    `startswith`, `strip()`, `split(",")`, `str(n)` of an integer and `int(s)`. */
module Text {
  import opened Wrappers

  /** The code-point ranges whose characters Python's `str.isspace` accepts,
      which `strip()` removes. */
  const SpaceRanges: seq<(char, char)> := [
    (' ', ' '), ('\t', '\r'), ('\U{1C}', '\U{1F}'), ('\U{85}', '\U{85}'), ('\U{A0}', '\U{A0}'),
    ('\U{1680}', '\U{1680}'), ('\U{2000}', '\U{200A}'), ('\U{2028}', '\U{2029}'),
    ('\U{202F}', '\U{202F}'), ('\U{205F}', '\U{205F}'), ('\U{3000}', '\U{3000}')]

  predicate InRanges(c: char, ranges: seq<(char, char)>) {
    ranges != [] && (ranges[0].0 <= c <= ranges[0].1 || InRanges(c, ranges[1..]))
  }

  predicate IsSpace(c: char) {
    InRanges(c, SpaceRanges)
  }

  lemma {:induction false} OutsideRanges(c: char, ranges: seq<(char, char)>)
    requires forall i :: 0 <= i < |ranges| ==> c < ranges[i].0 || ranges[i].1 < c
    ensures !InRanges(c, ranges)
  {
    if ranges != [] {
      OutsideRanges(c, ranges[1..]);
    }
  }

  /** No visible ASCII character (digits, signs, letters, the comma) is whitespace. */
  lemma VisibleIsNotSpace(c: char)
    requires '!' <= c <= '~'
    ensures !IsSpace(c)
  {
    OutsideRanges(c, SpaceRanges);
  }

  predicate AllSpace(s: string) {
    forall k :: 0 <= k < |s| ==> IsSpace(s[k])
  }

  /** Python's `s.startswith(prefix)`. */
  predicate StartsWith(s: string, prefix: string) {
    |prefix| <= |s| && s[..|prefix|] == prefix
  }

  /** Python's `s.lstrip()`: `s` without its leading whitespace. */
  function TrimLeft(s: string): string {
    if s != [] && IsSpace(s[0]) then TrimLeft(s[1..]) else s
  }

  /** `lstrip()` removes a prefix made only of whitespace and keeps the rest,
      which does not begin with whitespace. */
  lemma {:induction false} TrimLeftShape(s: string)
    ensures |TrimLeft(s)| <= |s| && TrimLeft(s) == s[|s| - |TrimLeft(s)|..]
    ensures forall k :: 0 <= k < |s| - |TrimLeft(s)| ==> IsSpace(s[k])
    ensures TrimLeft(s) == [] || !IsSpace(TrimLeft(s)[0])
  {
    if s != [] && IsSpace(s[0]) {
      TrimLeftShape(s[1..]);
      assert forall k :: 1 <= k < |s| ==> s[k] == s[1..][k - 1];
    }
  }

  /** Python's `s.rstrip()`: `s` without its trailing whitespace. */
  function TrimRight(s: string): string {
    if s != [] && IsSpace(s[|s| - 1]) then TrimRight(s[..|s| - 1]) else s
  }

  /** `rstrip()` removes a suffix made only of whitespace and keeps the rest,
      which does not end with whitespace. */
  lemma {:induction false} TrimRightShape(s: string)
    ensures |TrimRight(s)| <= |s| && TrimRight(s) == s[..|TrimRight(s)|]
    ensures forall k :: |TrimRight(s)| <= k < |s| ==> IsSpace(s[k])
    ensures TrimRight(s) == [] || !IsSpace(TrimRight(s)[|TrimRight(s)| - 1])
  {
    if s != [] && IsSpace(s[|s| - 1]) {
      TrimRightShape(s[..|s| - 1]);
    }
  }

  /** Python's `s.strip()`. */
  function Strip(s: string): (r: string)
    ensures IsStripped(r)
  {
    TrimLeftShape(s);
    TrimRightShape(TrimLeft(s));
    TrimRight(TrimLeft(s))
  }

  /** Text with no whitespace at either end. */
  predicate IsStripped(s: string) {
    s == [] || (!IsSpace(s[0]) && !IsSpace(s[|s| - 1]))
  }

  /** Text that is already stripped is left alone. */
  lemma StripOfStripped(s: string)
    requires IsStripped(s)
    ensures Strip(s) == s
  {
  }

  /** `lstrip()` of whitespace followed by text that does not begin with
      whitespace is that text. */
  lemma {:induction false} TrimLeftOfPadding(pad: string, x: string)
    requires AllSpace(pad)
    requires x == [] || !IsSpace(x[0])
    ensures TrimLeft(pad + x) == x
  {
    if pad == [] {
      assert pad + x == x;
    } else {
      assert (pad + x)[0] == pad[0];
      assert (pad + x)[1..] == pad[1..] + x;
      TrimLeftOfPadding(pad[1..], x);
    }
  }

  /** `rstrip()` of text that does not end with whitespace followed by
      whitespace is that text. */
  lemma {:induction false} TrimRightOfPadding(x: string, pad: string)
    requires AllSpace(pad)
    requires x == [] || !IsSpace(x[|x| - 1])
    ensures TrimRight(x + pad) == x
  {
    if pad == [] {
      assert x + pad == x;
    } else {
      var s := x + pad;
      assert s[|s| - 1] == pad[|pad| - 1];
      assert s[..|s| - 1] == x + pad[..|pad| - 1];
      TrimRightOfPadding(x, pad[..|pad| - 1]);
    }
  }

  /** Whitespace in front of stripped text is all that `strip()` removes. */
  lemma StripAfterPadding(pad: string, x: string)
    requires AllSpace(pad)
    requires IsStripped(x)
    ensures Strip(pad + x) == x
  {
    TrimLeftOfPadding(pad, x);
  }

  /** Whitespace after stripped text is all that `strip()` removes. */
  lemma StripBeforePadding(x: string, pad: string)
    requires AllSpace(pad)
    requires IsStripped(x)
    ensures Strip(x + pad) == x
  {
    if x == [] {
      assert x + pad == pad + x;
      TrimLeftOfPadding(pad, x);
    } else {
      assert (x + pad)[0] == x[0];
      assert TrimLeft(x + pad) == x + pad;
      TrimRightOfPadding(x, pad);
    }
  }

  /** `lstrip()` stops at the first non-whitespace character, so what
      follows it is kept as it is. */
  lemma {:induction false} TrimLeftThrough(x: string, c: char, y: string)
    requires !IsSpace(c)
    ensures TrimLeft(x + [c] + y) == TrimLeft(x) + [c] + y
  {
    if x == [] {
      assert x + [c] + y == [c] + y;
    } else {
      assert (x + [c] + y)[0] == x[0];
      assert (x + [c] + y)[1..] == x[1..] + [c] + y;
      TrimLeftThrough(x[1..], c, y);
    }
  }

  /** `rstrip()` stops at the last non-whitespace character, so what comes
      before it is kept as it is. */
  lemma {:induction false} TrimRightThrough(x: string, c: char, y: string)
    requires !IsSpace(c)
    ensures TrimRight(x + [c] + y) == x + [c] + TrimRight(y)
  {
    if y == [] {
      assert x + [c] + y == x + [c];
    } else {
      var s := x + [c] + y;
      assert s[|s| - 1] == y[|y| - 1];
      assert s[..|s| - 1] == x + [c] + y[..|y| - 1];
      TrimRightThrough(x, c, y[..|y| - 1]);
    }
  }

  /** `strip()` of text with a non-whitespace character inside strips the
      two sides apart. */
  lemma StripThrough(x: string, c: char, y: string)
    requires !IsSpace(c)
    ensures Strip(x + [c] + y) == TrimLeft(x) + [c] + TrimRight(y)
  {
    TrimLeftThrough(x, c, y);
    TrimRightThrough(TrimLeft(x), c, y);
  }

  /** What `lstrip()` and `rstrip()` keep adds no occurrence of `c`. */
  lemma TrimsAvoid(x: string, c: char)
    requires c !in x
    ensures c !in TrimLeft(x) && c !in TrimRight(x)
  {
    TrimLeftShape(x);
    TrimRightShape(x);
  }

  /** Stripping after an `lstrip()` is stripping. */
  lemma StripOfTrimLeft(x: string)
    ensures Strip(TrimLeft(x)) == Strip(x)
  {
    TrimLeftShape(x);
  }

  /** Stripping after an `rstrip()` is stripping. */
  lemma StripOfTrimRight(y: string)
    ensures Strip(TrimRight(y)) == Strip(y)
  {
    TrimRightShape(y);
    var r := TrimRight(y);
    var pad := y[|r|..];
    assert y == r + pad;
    assert AllSpace(pad);
    if r == [] {
      assert y == pad + [];
      TrimLeftOfPadding(pad, []);
    } else {
      var front, c := r[..|r| - 1], r[|r| - 1];
      assert r == front + [c] + [];
      assert y == front + [c] + pad;
      TrimLeftThrough(front, c, pad);
      TrimRightThrough(TrimLeft(front), c, pad);
      TrimRightOfPadding([], pad);
      assert [] + pad == pad;
      TrimLeftThrough(front, c, []);
      TrimRightThrough(TrimLeft(front), c, []);
    }
  }

  /** Python's `s.split(sep)` with an explicit separator: the pieces between
      consecutive separators, in order; the empty text gives one empty piece. */
  function Split(s: string, sep: char): (parts: seq<string>)
    ensures |parts| >= 1
  {
    if s == [] then [""]
    else
      var rest := Split(s[1..], sep);
      if s[0] == sep then [""] + rest else [[s[0]] + rest[0]] + rest[1..]
  }

  /** How many times `c` occurs in `s`. */
  function Count(s: string, c: char): nat {
    if s == [] then 0 else (if s[0] == c then 1 else 0) + Count(s[1..], c)
  }

  lemma {:induction false} CountConcat(a: string, b: string, c: char)
    ensures Count(a + b, c) == Count(a, c) + Count(b, c)
  {
    if a != [] {
      assert (a + b)[0] == a[0];
      assert (a + b)[1..] == a[1..] + b;
      CountConcat(a[1..], b, c);
      assert Count(a + b, c) == (if a[0] == c then 1 else 0) + Count(a[1..] + b, c);
    } else {
      assert a + b == b;
    }
  }

  /** `c` occurs nowhere in `s` exactly when it is counted zero times. */
  lemma {:induction false} CountZero(s: string, c: char)
    ensures Count(s, c) == 0 <==> c !in s
  {
    if s != [] {
      CountZero(s[1..], c);
      assert s == [s[0]] + s[1..];
    }
  }

  lemma {:induction false} CountOfSpaces(s: string, c: char)
    requires !IsSpace(c)
    requires forall k :: 0 <= k < |s| ==> IsSpace(s[k])
    ensures Count(s, c) == 0
  {
    if s != [] {
      CountOfSpaces(s[1..], c);
    }
  }

  lemma TrimLeftKeepsCount(s: string, c: char)
    requires !IsSpace(c)
    ensures Count(TrimLeft(s), c) == Count(s, c)
  {
    TrimLeftShape(s);
    var t := TrimLeft(s);
    var m := |s| - |t|;
    assert s == s[..m] + t;
    CountConcat(s[..m], t, c);
    CountOfSpaces(s[..m], c);
  }

  lemma TrimRightKeepsCount(s: string, c: char)
    requires !IsSpace(c)
    ensures Count(TrimRight(s), c) == Count(s, c)
  {
    TrimRightShape(s);
    var r := TrimRight(s);
    assert s == r + s[|r|..];
    CountConcat(r, s[|r|..], c);
    CountOfSpaces(s[|r|..], c);
  }

  /** `strip()` removes no character that is not whitespace. */
  lemma StripKeepsCount(s: string, c: char)
    requires !IsSpace(c)
    ensures Count(Strip(s), c) == Count(s, c)
  {
    TrimLeftKeepsCount(s, c);
    TrimRightKeepsCount(TrimLeft(s), c);
  }

  /** No piece of a split holds the separator. */
  lemma {:induction false} SplitPiecesAvoidSep(s: string, sep: char)
    ensures forall k :: 0 <= k < |Split(s, sep)| ==> sep !in Split(s, sep)[k]
  {
    if s != [] {
      SplitPiecesAvoidSep(s[1..], sep);
    }
  }

  /** `split` gives one more piece than there are separators. */
  lemma {:induction false} SplitSize(s: string, sep: char)
    ensures |Split(s, sep)| == Count(s, sep) + 1
  {
    if s != [] {
      SplitSize(s[1..], sep);
    }
  }

  /** Python's `sep.join(parts)`, the inverse of `Split`. */
  function Join(parts: seq<string>, sep: char): string
    requires |parts| >= 1
  {
    if |parts| == 1 then parts[0] else parts[0] + [sep] + Join(parts[1..], sep)
  }

  /** Joining the pieces of a split restores the text. */
  lemma {:induction false} JoinOfSplit(s: string, sep: char)
    ensures Join(Split(s, sep), sep) == s
  {
    if s != [] {
      var rest := Split(s[1..], sep);
      JoinOfSplit(s[1..], sep);
      if s[0] == sep {
        assert ([""] + rest)[1..] == rest;
      } else if |rest| == 1 {
        assert Split(s, sep) == [[s[0]] + rest[0]];
        assert s == [s[0]] + s[1..];
      } else {
        var parts := Split(s, sep);
        assert parts[1..] == rest[1..];
        assert s == [s[0]] + s[1..];
      }
    }
  }

  /** A piece without separators is split into itself. */
  lemma {:induction false} SplitOfPiece(a: string, sep: char)
    requires sep !in a
    ensures Split(a, sep) == [a]
  {
    if a != [] {
      SplitOfPiece(a[1..], sep);
      assert a == [a[0]] + a[1..];
    }
  }

  /** A separator-free piece followed by a separator splits off as the first part. */
  lemma {:induction false} SplitAfterPiece(a: string, t: string, sep: char)
    requires sep !in a
    ensures Split(a + [sep] + t, sep) == [a] + Split(t, sep)
  {
    if a == [] {
      assert [] + [sep] + t == [sep] + t;
      assert ([sep] + t)[1..] == t;
    } else {
      var s := a + [sep] + t;
      assert s[1..] == a[1..] + [sep] + t;
      SplitAfterPiece(a[1..], t, sep);
      assert a == [a[0]] + a[1..];
    }
  }

  /** Text with exactly one separator splits into the two sides. */
  lemma SplitOfPair(x: string, y: string, sep: char)
    requires sep !in x && sep !in y
    ensures Split(x + [sep] + y, sep) == [x, y]
  {
    SplitAfterPiece(x, y, sep);
    SplitOfPiece(y, sep);
  }

  /** Splitting the join of separator-free pieces gives the pieces back. */
  lemma {:induction false} SplitOfJoin(parts: seq<string>, sep: char)
    requires |parts| >= 1
    requires forall k :: 0 <= k < |parts| ==> sep !in parts[k]
    ensures Split(Join(parts, sep), sep) == parts
  {
    if |parts| == 1 {
      SplitOfPiece(parts[0], sep);
    } else {
      SplitOfJoin(parts[1..], sep);
      SplitAfterPiece(parts[0], Join(parts[1..], sep), sep);
    }
  }

  predicate IsDigit(c: char) {
    '0' <= c <= '9'
  }

  predicate AllDigits(s: string) {
    forall k :: 0 <= k < |s| ==> IsDigit(s[k])
  }

  function DigitChar(d: nat): (c: char)
    requires d < 10
    ensures IsDigit(c)
  {
    (48 + d) as char
  }

  function DigitValue(c: char): nat
    requires IsDigit(c)
  {
    (c as int) - 48
  }

  /** The value of a string of decimal digits, most significant first. */
  function DigitsValue(s: string): nat
    requires AllDigits(s)
  {
    if s == [] then 0 else DigitsValue(s[..|s| - 1]) * 10 + DigitValue(s[|s| - 1])
  }

  /** Python's `str(n)` for `n >= 0`: its decimal digits, without leading zeros. */
  function NatToString(n: nat): (r: string)
    ensures |r| >= 1 && AllDigits(r)
    ensures |r| > 1 ==> r[0] != '0'
  {
    if n < 10 then [DigitChar(n)] else NatToString(n / 10) + [DigitChar(n % 10)]
  }

  /** Python's `str(i)`: a minus sign before the digits of a negative one.
      Python refuses integers of more than 4300 digits; that limit is not
      modelled, so this is total. */
  function IntToString(i: int): (r: string)
    ensures |r| >= 1 && (r[0] == '-' || IsDigit(r[0])) && IsDigit(r[|r| - 1])
  {
    if i < 0 then "-" + NatToString(-i) else NatToString(i)
  }

  /** Python's `int(s)` on decimal text: surrounding whitespace, an optional sign,
      then ASCII digits; anything else raises, which is `None` here. */
  function ParseInt(s: string): (r: Option<int>)
    ensures r.Some? ==> var t := Strip(s); |t| >= 1 && IsDigit(t[|t| - 1]) && (r.value < 0 ==> t[0] == '-')
    ensures var t := Strip(s); t != [] && AllDigits(t) ==> r.Some? && r.value >= 0
  {
    var t := Strip(s);
    assert |t| >= 2 ==> t[|t| - 1] == t[1..][|t| - 2];
    ParseSigned(t)
  }

  function ParseSigned(t: string): Option<int> {
    if t != [] && (t[0] == '-' || t[0] == '+') then
      match ParseDigits(t[1..])
      case Some(n) => var v: int := n; Some(if t[0] == '-' then -v else v)
      case None => None
    else
      match ParseDigits(t)
      case Some(n) => Some(n)
      case None => None
  }

  function ParseDigits(t: string): Option<nat> {
    if t != [] && AllDigits(t) then Some(DigitsValue(t)) else None
  }

  /** Reading back the digits `str(n)` writes gives `n`. */
  lemma {:induction false} DigitsValueOfNat(n: nat)
    ensures DigitsValue(NatToString(n)) == n
  {
    var s := NatToString(n);
    if n < 10 {
      assert s[..0] == [];
    } else {
      assert s[..|s| - 1] == NatToString(n / 10);
      DigitsValueOfNat(n / 10);
    }
  }

  lemma ParseDigitsOfNat(n: nat)
    ensures ParseDigits(NatToString(n)) == Some(n)
  {
    DigitsValueOfNat(n);
  }

  /** `int(str(i)) == i` for every integer. */
  lemma ParseIntOfIntToString(i: int)
    ensures ParseInt(IntToString(i)) == Some(i)
  {
    IntToStringIsStripped(i);
    ParseSignedOfIntToString(i);
  }

  lemma ParseSignedOfIntToString(i: int)
    ensures ParseSigned(IntToString(i)) == Some(i)
  {
    if i < 0 {
      ParseNegative(-i);
    } else {
      ParseNonNegative(i);
    }
  }

  lemma IntToStringIsStripped(i: int)
    ensures Strip(IntToString(i)) == IntToString(i)
  {
    var t := IntToString(i);
    VisibleIsNotSpace(t[0]);
    VisibleIsNotSpace(t[|t| - 1]);
    StripOfStripped(t);
  }

  lemma ParseNonNegative(n: nat)
    ensures ParseSigned(NatToString(n)) == Some(n as int)
  {
    ParseDigitsOfNat(n);
  }

  lemma ParseNegative(n: nat)
    requires n > 0
    ensures ParseSigned("-" + NatToString(n)) == Some(-(n as int))
  {
    var t := "-" + NatToString(n);
    assert t[1..] == NatToString(n);
    ParseDigitsOfNat(n);
  }

  /** A row key in the form `str(row)` gives it: `int` reads it and `str` writes it back unchanged. */
  predicate IsCanonicalKey(k: string) {
    ParseInt(k).Some? && IntToString(ParseInt(k).value) == k
  }

  /** For a canonical key, comparing `int(key)` with a row is comparing the key with `str(row)`. */
  lemma CanonicalKeyMatchesRow(k: string, row: int)
    requires IsCanonicalKey(k)
    ensures ParseInt(k) == Some(row) <==> k == IntToString(row)
  {
    ParseIntOfIntToString(row);
  }

  /** Every key `str(row)` is canonical. */
  lemma IntToStringIsCanonical(i: int)
    ensures IsCanonicalKey(IntToString(i))
  {
    ParseIntOfIntToString(i);
  }
}
