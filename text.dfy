/**
 * The parts of Python's `str` and `int` semantics that the utilities rely on:
 * `str.isspace`, `str.strip`, ASCII `str.upper`/`str.lower`, `str.replace(c, '')`,
 * `str.split(sep)`, `str.startswith`, `int(s, base)` for bases 10 and 16, and the
 * decimal and hexadecimal formatting of integers.
 */
module Text {
  import opened Common

  /** `c.isspace()`: the characters CPython's `Py_UNICODE_ISSPACE` accepts. */
  predicate IsSpace(c: char) {
    var n := c as int;
    || 9 <= n <= 13 || 28 <= n <= 32 || n == 0x85 || n == 0xA0 || n == 0x1680
    || 0x2000 <= n <= 0x200A || n == 0x2028 || n == 0x2029 || n == 0x202F
    || n == 0x205F || n == 0x3000
  }

  /**
   * The whitespace `int()` skips around a literal: CPython keeps characters below
   * U+007F as they are and maps every other `isspace` character to a blank before
   * skipping C `isspace` characters, so U+001C..U+001F are not skipped.
   */
  predicate IntSpace(c: char) {
    var n := c as int;
    9 <= n <= 13 || n == 32 || (n >= 127 && IsSpace(c))
  }

  /** Everything `int()` skips is whitespace to `str.isspace`, but not the reverse. */
  lemma IntSpaceIsSpace(c: char)
    ensures IntSpace(c) ==> IsSpace(c)
    ensures IsSpace(c) && !IntSpace(c) <==> 28 <= c as int <= 31
  {
  }

  /** Which whitespace a trim drops: `str.strip`'s or the one `int()` skips. */
  datatype Spaces = StrSpaces | IntSpaces

  predicate IsSpaceOf(c: char, ws: Spaces) {
    if ws == StrSpaces then IsSpace(c) else IntSpace(c)
  }

  /** `\w` restricted to ASCII. */
  predicate IsWordChar(c: char) {
    'a' <= c <= 'z' || 'A' <= c <= 'Z' || '0' <= c <= '9' || c == '_'
  }

  predicate IsLowerAscii(c: char) { 'a' <= c <= 'z' }
  predicate IsUpperAscii(c: char) { 'A' <= c <= 'Z' }

  // ---------------------------------------------------------------------------
  // strip

  /** The first index at or after `i` whose character is not whitespace, or `|s|`. */
  function SkipSpaces(s: string, ws: Spaces, i: nat): (k: nat)
    requires i <= |s|
    ensures i <= k <= |s|
    ensures k < |s| ==> !IsSpaceOf(s[k], ws)
    decreases |s| - i
  {
    if i < |s| && IsSpaceOf(s[i], ws) then SkipSpaces(s, ws, i + 1) else i
  }

  /** The end of `s[..j]` once its trailing whitespace is dropped, never going below `lo`. */
  function SkipSpacesBack(s: string, ws: Spaces, lo: nat, j: nat): (k: nat)
    requires lo <= j <= |s|
    ensures lo <= k <= j
    ensures k > lo ==> !IsSpaceOf(s[k - 1], ws)
    decreases j
  {
    if j > lo && IsSpaceOf(s[j - 1], ws) then SkipSpacesBack(s, ws, lo, j - 1) else j
  }

  /** Every character `SkipSpaces` passes over is whitespace. */
  lemma {:induction false} SkipSpacesDropped(s: string, ws: Spaces, i: nat, k: nat)
    requires i <= k < |s| && k < SkipSpaces(s, ws, i)
    ensures IsSpaceOf(s[k], ws)
    decreases |s| - i
  {
    if i < k {
      SkipSpacesDropped(s, ws, i + 1, k);
    }
  }

  /** Every character `SkipSpacesBack` passes over is whitespace. */
  lemma {:induction false} SkipSpacesBackDropped(s: string, ws: Spaces, lo: nat, j: nat, k: nat)
    requires lo <= j <= |s| && SkipSpacesBack(s, ws, lo, j) <= k < j
    ensures IsSpaceOf(s[k], ws)
    decreases j
  {
    if k < j - 1 {
      SkipSpacesBackDropped(s, ws, lo, j - 1, k);
    }
  }

  /** Where the text kept by a trim starts. */
  function TrimStart(s: string, ws: Spaces): nat {
    SkipSpaces(s, ws, 0)
  }

  /** Drops leading, then trailing whitespace of the given kind, as CPython's `do_strip`
      does: the trailing scan stops where the leading one ended. */
  function Trim(s: string, ws: Spaces): (r: string)
    ensures |r| <= |s|
  {
    var a := TrimStart(s, ws);
    s[a..SkipSpacesBack(s, ws, a, |s|)]
  }

  /** `s.strip()`. */
  function Strip(s: string): (r: string)
    ensures |r| <= |s|
  {
    Trim(s, StrSpaces)
  }

  /** What `strip` keeps is the run of `s` between its leading and its trailing
      whitespace: it starts and ends with a non-space, and everything dropped is a space. */
  lemma StripShape(s: string)
    ensures var r, i := Strip(s), TrimStart(s, StrSpaces);
      && (r == [] || (!IsSpace(r[0]) && !IsSpace(r[|r| - 1])))
      && i + |r| <= |s| && r == s[i..i + |r|]
      && (forall k :: 0 <= k < i ==> IsSpace(s[k]))
      && (forall k :: i + |r| <= k < |s| ==> IsSpace(s[k]))
  {
    var a := TrimStart(s, StrSpaces);
    var b := SkipSpacesBack(s, StrSpaces, a, |s|);
    forall k | b <= k < |s| ensures IsSpace(s[k]) {
      SkipSpacesBackDropped(s, StrSpaces, a, |s|, k);
    }
    forall k | 0 <= k < a ensures IsSpace(s[k]) {
      SkipSpacesDropped(s, StrSpaces, 0, k);
    }
  }

  /** `SkipSpaces` from `i` stops at the first non-space `j`. */
  lemma {:induction false} SkipSpacesOver(s: string, ws: Spaces, i: nat, j: nat)
    requires i <= j <= |s|
    requires forall k :: i <= k < j ==> IsSpaceOf(s[k], ws)
    requires j == |s| || !IsSpaceOf(s[j], ws)
    ensures SkipSpaces(s, ws, i) == j
    decreases j - i
  {
    if i < j {
      SkipSpacesOver(s, ws, i + 1, j);
    }
  }

  /** `SkipSpacesBack` from `j` stops just after the last non-space `i`. */
  lemma {:induction false} SkipSpacesBackOver(s: string, ws: Spaces, lo: nat, i: nat, j: nat)
    requires lo <= i <= j <= |s|
    requires forall k :: i <= k < j ==> IsSpaceOf(s[k], ws)
    requires i == lo || !IsSpaceOf(s[i - 1], ws)
    ensures SkipSpacesBack(s, ws, lo, j) == i
    decreases j - i
  {
    if i < j {
      SkipSpacesBackOver(s, ws, lo, i, j - 1);
    }
  }

  /** Whitespace of the given kind around a word that neither starts nor ends with it is
      what a trim removes, and nothing else. */
  lemma TrimSurrounded(pre: string, w: string, post: string, ws: Spaces)
    requires forall k :: 0 <= k < |pre| ==> IsSpaceOf(pre[k], ws)
    requires forall k :: 0 <= k < |post| ==> IsSpaceOf(post[k], ws)
    requires w != [] && !IsSpaceOf(w[0], ws) && !IsSpaceOf(w[|w| - 1], ws)
    ensures Trim(pre + w + post, ws) == w
  {
    var s := pre + w + post;
    var a, b := |pre|, |pre| + |w|;
    forall k | 0 <= k < a ensures IsSpaceOf(s[k], ws) {
      assert s[k] == pre[k];
    }
    assert s[a] == w[0];
    SkipSpacesOver(s, ws, 0, a);
    forall k | b <= k < |s| ensures IsSpaceOf(s[k], ws) {
      assert s[k] == post[k - b];
    }
    assert s[b - 1] == w[|w| - 1];
    SkipSpacesBackOver(s, ws, a, b, |s|);
    assert s[a..b] == w;
  }

  /** Whitespace around a word that neither starts nor ends with whitespace is what
      `strip` removes, and nothing else. */
  lemma StripSurrounded(pre: string, w: string, post: string)
    requires forall k :: 0 <= k < |pre| ==> IsSpace(pre[k])
    requires forall k :: 0 <= k < |post| ==> IsSpace(post[k])
    requires w != [] && !IsSpace(w[0]) && !IsSpace(w[|w| - 1])
    ensures Strip(pre + w + post) == w
  {
    TrimSurrounded(pre, w, post, StrSpaces);
  }

  lemma TrimKeeps(s: string, ws: Spaces)
    requires s == [] || (!IsSpaceOf(s[0], ws) && !IsSpaceOf(s[|s| - 1], ws))
    ensures Trim(s, ws) == s
  {
    assert TrimStart(s, ws) == 0;
    assert s[0..|s|] == s;
  }

  /** A string that neither starts nor ends with whitespace is its own strip. */
  lemma StripKeeps(s: string)
    requires s == [] || (!IsSpace(s[0]) && !IsSpace(s[|s| - 1]))
    ensures Strip(s) == s
  {
    TrimKeeps(s, StrSpaces);
  }

  /** Stripping twice is stripping once. */
  lemma StripIdempotent(s: string)
    ensures Strip(Strip(s)) == Strip(s)
  {
    StripShape(s);
    StripKeeps(Strip(s));
  }

  // ---------------------------------------------------------------------------
  // case mapping and replace

  function UpperChar(c: char): (u: char)
    ensures !IsLowerAscii(u)
    ensures IsLowerAscii(c) ==> u as int == c as int - 32
    ensures !IsLowerAscii(c) ==> u == c
  {
    if IsLowerAscii(c) then (c as int - 32) as char else c
  }

  function LowerChar(c: char): (l: char)
    ensures !IsUpperAscii(l)
    ensures IsUpperAscii(c) ==> l as int == c as int + 32
    ensures !IsUpperAscii(c) ==> l == c
  {
    if IsUpperAscii(c) then (c as int + 32) as char else c
  }

  /** `s.upper()` for ASCII letters; every other character is kept. */
  function Upper(s: string): (r: string)
    ensures |r| == |s|
    ensures forall i :: 0 <= i < |s| ==> r[i] == UpperChar(s[i])
  {
    seq(|s|, i requires 0 <= i < |s| => UpperChar(s[i]))
  }

  /** `s.lower()` for ASCII letters; every other character is kept. */
  function Lower(s: string): (r: string)
    ensures |r| == |s|
    ensures forall i :: 0 <= i < |s| ==> r[i] == LowerChar(s[i])
  {
    seq(|s|, i requires 0 <= i < |s| => LowerChar(s[i]))
  }

  /** `s.replace(c, '')`: `s` with every occurrence of `c` removed, order kept. */
  function RemoveAll(s: string, c: char): (r: string)
    ensures |r| <= |s|
    ensures forall i :: 0 <= i < |r| ==> r[i] != c
    ensures s != [] && s[0] != c ==> r != [] && r[0] == s[0]
    decreases |s|
  {
    if s == [] then []
    else (if s[0] == c then [] else [s[0]]) + RemoveAll(s[1..], c)
  }

  lemma {:induction false} RemoveAllAppend(a: string, b: string, c: char)
    ensures RemoveAll(a + b, c) == RemoveAll(a, c) + RemoveAll(b, c)
    decreases |a|
  {
    if a != [] {
      var h := if a[0] == c then [] else [a[0]];
      assert (a + b)[1..] == a[1..] + b;
      assert RemoveAll(a + b, c) == h + RemoveAll(a[1..] + b, c);
      RemoveAllAppend(a[1..], b, c);
      assert RemoveAll(a, c) == h + RemoveAll(a[1..], c);
    } else {
      assert a + b == b;
    }
  }

  /** Every character `RemoveAll` keeps comes from the input. */
  lemma {:induction false} RemoveAllSource(s: string, c: char, i: nat) returns (j: nat)
    requires i < |RemoveAll(s, c)|
    ensures j < |s| && s[j] == RemoveAll(s, c)[i]
    decreases |s|
  {
    var h := if s[0] == c then [] else [s[0]];
    assert RemoveAll(s, c) == h + RemoveAll(s[1..], c);
    if i < |h| {
      j := 0;
    } else {
      var j' := RemoveAllSource(s[1..], c, i - |h|);
      j := j' + 1;
    }
  }

  lemma {:induction false} RemoveAllAbsent(s: string, c: char)
    requires c !in s
    ensures RemoveAll(s, c) == s
    decreases |s|
  {
    if s != [] {
      RemoveAllAbsent(s[1..], c);
    }
  }

  /** Lower-casing forgets an earlier upper-casing. */
  lemma LowerOfUpper(s: string)
    ensures Lower(Upper(s)) == Lower(s)
  {
    forall i | 0 <= i < |s| ensures Lower(Upper(s))[i] == Lower(s)[i] {
      assert Upper(s)[i] == UpperChar(s[i]);
    }
  }

  function StartsWith(s: string, prefix: string): bool {
    |prefix| <= |s| && s[..|prefix|] == prefix
  }

  // ---------------------------------------------------------------------------
  // split

  /** `s.split(sep)`: the pieces between separators, empty pieces included. */
  function Split(s: string, sep: char): (parts: seq<string>)
    ensures |parts| >= 1
    ensures forall k :: 0 <= k < |parts| ==> sep !in parts[k]
    decreases |s|
  {
    if s == [] then [[]]
    else
      var rest := Split(s[1..], sep);
      if s[0] == sep then [[]] + rest
      else [[s[0]] + rest[0]] + rest[1..]
  }

  /** `sep.join(parts)`. */
  function Join(parts: seq<string>, sep: char): string
    requires |parts| >= 1
    decreases |parts|
  {
    if |parts| == 1 then parts[0] else parts[0] + [sep] + Join(parts[1..], sep)
  }

  /** Joining the pieces of a split gives the string back. */
  lemma {:induction false} JoinSplit(s: string, sep: char)
    ensures Join(Split(s, sep), sep) == s
    decreases |s|
  {
    if s != [] {
      var rest := Split(s[1..], sep);
      JoinSplit(s[1..], sep);
      if s[0] != sep && |rest| > 1 {
        assert Split(s, sep)[1..] == rest[1..];
      }
    }
  }

  lemma {:induction false} SplitPrefix(w: string, rest: string, sep: char)
    requires sep !in w
    ensures Split(w + rest, sep) == [w + Split(rest, sep)[0]] + Split(rest, sep)[1..]
    decreases |w|
  {
    if w != [] {
      assert (w + rest)[1..] == w[1..] + rest;
      SplitPrefix(w[1..], rest, sep);
      assert [w[0]] + (w[1..] + Split(rest, sep)[0]) == w + Split(rest, sep)[0];
    } else {
      var parts := Split(rest, sep);
      assert w + rest == rest;
      assert w + parts[0] == parts[0];
      assert parts == [parts[0]] + parts[1..];
    }
  }

  /** Splitting the join of separator-free pieces gives the pieces back. */
  lemma {:induction false} SplitJoin(parts: seq<string>, sep: char)
    requires |parts| >= 1
    requires forall k :: 0 <= k < |parts| ==> sep !in parts[k]
    ensures Split(Join(parts, sep), sep) == parts
    decreases |parts|
  {
    if |parts| == 1 {
      SplitPrefix(parts[0], [], sep);
      assert parts[0] + [] == parts[0];
    } else {
      var tail := Join(parts[1..], sep);
      SplitJoin(parts[1..], sep);
      assert Split([sep] + tail, sep) == [[]] + parts[1..];
      SplitPrefix(parts[0], [sep] + tail, sep);
      assert parts[0] + [sep] + tail == parts[0] + ([sep] + tail);
      assert parts[0] + [] == parts[0];
    }
  }

  // ---------------------------------------------------------------------------
  // digits, int() and formatting

  /** The bases `int(s, base)` is called with in the utilities. */
  type Base = b: nat | b == 10 || b == 16 witness 10

  predicate IsDecDigit(c: char) { '0' <= c <= '9' }

  predicate IsHexDigit(c: char) { IsDecDigit(c) || 'a' <= c <= 'f' || 'A' <= c <= 'F' }

  predicate IsDigitOf(c: char, base: Base) {
    if base == 16 then IsHexDigit(c) else IsDecDigit(c)
  }

  predicate AllDigits(s: string, base: Base) {
    forall i :: 0 <= i < |s| ==> IsDigitOf(s[i], base)
  }

  /** A hexadecimal digit string in the canonical (upper-case) spelling. */
  predicate IsUpperHex(s: string) {
    forall i :: 0 <= i < |s| ==> IsDecDigit(s[i]) || 'A' <= s[i] <= 'F'
  }

  function DigitValue(c: char): (d: nat)
    requires IsHexDigit(c)
    ensures d < 16
    ensures IsDecDigit(c) <==> d < 10
  {
    if IsDecDigit(c) then c as int - '0' as int
    else if 'a' <= c <= 'f' then c as int - 'a' as int + 10
    else c as int - 'A' as int + 10
  }

  function Pow(b: nat, n: nat): (p: nat)
    ensures b > 0 ==> p > 0
  {
    if n == 0 then 1 else b * Pow(b, n - 1)
  }

  /** The big-endian value of a digit string: the first digit is the most significant. */
  function ValueOf(ds: string, base: Base): nat
    requires AllDigits(ds, base)
    decreases |ds|
  {
    if ds == [] then 0
    else ValueOf(ds[..|ds| - 1], base) * base + DigitValue(ds[|ds| - 1])
  }

  /** `n` digits hold a value below `base^n`. */
  lemma {:induction false} ValueBound(ds: string, base: Base)
    requires AllDigits(ds, base)
    ensures ValueOf(ds, base) < Pow(base, |ds|)
    decreases |ds|
  {
    if ds != [] {
      var pre := ds[..|ds| - 1];
      ValueBound(pre, base);
      var v, p := ValueOf(pre, base), Pow(base, |pre|);
      assert v * base <= (p - 1) * base;
      assert DigitValue(ds[|ds| - 1]) < base;
    }
  }

  /** Appending one digit multiplies by the base and adds the digit. */
  lemma ValueAppend(ds: string, c: char, base: Base)
    requires AllDigits(ds, base) && IsDigitOf(c, base)
    ensures AllDigits(ds + [c], base)
    ensures ValueOf(ds + [c], base) == ValueOf(ds, base) * base + DigitValue(c)
  {
    assert (ds + [c])[..|ds|] == ds;
  }

  /** Digits with single `_` separators between them, as `int()` accepts them. */
  predicate WellFormedDigits(s: string, base: Base) {
    && |s| > 0
    && IsDigitOf(s[0], base) && IsDigitOf(s[|s| - 1], base)
    && (forall i :: 0 <= i < |s| ==> IsDigitOf(s[i], base) || s[i] == '_')
    && (forall i :: 0 <= i < |s| - 1 ==> s[i] == '_' ==> s[i + 1] != '_')
  }

  lemma DigitsOfWellFormed(s: string, base: Base)
    requires WellFormedDigits(s, base)
    ensures var ds := RemoveAll(s, '_'); AllDigits(ds, base) && 0 < |ds| <= |s|
  {
    var ds := RemoveAll(s, '_');
    forall i | 0 <= i < |ds| ensures IsDigitOf(ds[i], base) {
      var j := RemoveAllSource(s, '_', i);
    }
  }

  /** After stripping and the sign, base 16 accepts a `0x`/`0X` prefix followed by at most one `_`. */
  function HexBody(u: string): string {
    if |u| >= 2 && u[0] == '0' && (u[1] == 'x' || u[1] == 'X') then
      if |u| >= 3 && u[2] == '_' then u[3..] else u[2..]
    else u
  }

  /** `t` without its leading `+` or `-`, if it has one. */
  function Unsigned(t: string): string {
    if |t| > 0 && (t[0] == '+' || t[0] == '-') then t[1..] else t
  }

  /** The part of an `int()` literal that must be digits: what is left after the
      surrounding whitespace, the sign and, in base 16, the `0x` prefix. */
  function DigitPart(s: string, base: Base): string {
    var u := Unsigned(Trim(s, IntSpaces));
    if base == 16 then HexBody(u) else u
  }

  predicate IsNegativeLiteral(s: string) {
    var t := Trim(s, IntSpaces);
    |t| > 0 && t[0] == '-'
  }

  /**
   * `int(s, base)`: `None` where Python raises `ValueError`. Surrounding whitespace
   * and one sign are allowed, base 16 also takes a `0x` prefix, and digits may be
   * grouped by single underscores. Only ASCII digits are recognised.
   */
  function ParseInt(s: string, base: Base): (r: Option<int>)
    ensures r.Some? && !IsNegativeLiteral(s) ==> r.value >= 0
    ensures r.Some? && IsNegativeLiteral(s) ==> r.value <= 0
    ensures r.Some? ==> |DigitPart(s, base)| > 0
  {
    var body := DigitPart(s, base);
    if WellFormedDigits(body, base) then
      DigitsOfWellFormed(body, base);
      var v: int := ValueOf(RemoveAll(body, '_'), base);
      Some(if IsNegativeLiteral(s) then -v else v)
    else None
  }

  /** A non-empty run of plain digits parses to its big-endian value. */
  lemma ParsePlainDigits(s: string, base: Base)
    requires |s| > 0 && AllDigits(s, base)
    ensures ParseInt(s, base) == Some(ValueOf(s, base))
  {
    assert IsDigitOf(s[0], base) && IsDigitOf(s[|s| - 1], base);
    assert !IntSpace(s[0]) && !IntSpace(s[|s| - 1]);
    TrimKeeps(s, IntSpaces);
    assert Unsigned(s) == s;
    if base == 16 && |s| >= 2 && s[0] == '0' {
      assert s[1] != 'x' && s[1] != 'X';
    }
    assert DigitPart(s, base) == s;
    assert !IsNegativeLiteral(s);
    assert '_' !in s;
    RemoveAllAbsent(s, '_');
    assert WellFormedDigits(s, base);
  }
  lemma HexDigitNotSpace(c: char)
    requires IsHexDigit(c)
    ensures !IntSpace(c) && !IsSpace(c)
  {
  }

  /** Whitespace that `int()` skips around a literal does not change what it parses to. */
  lemma ParseTrimmed(pre: string, s: string, post: string, base: Base)
    requires forall k :: 0 <= k < |pre| ==> IntSpace(pre[k])
    requires forall k :: 0 <= k < |post| ==> IntSpace(post[k])
    requires s != [] && !IntSpace(s[0]) && !IntSpace(s[|s| - 1])
    ensures ParseInt(pre + s + post, base) == ParseInt(s, base)
  {
    var t := pre + s + post;
    TrimSurrounded(pre, s, post, IntSpaces);
    TrimKeeps(s, IntSpaces);
    assert Trim(t, IntSpaces) == Trim(s, IntSpaces);
    assert DigitPart(t, base) == DigitPart(s, base);
    assert IsNegativeLiteral(t) == IsNegativeLiteral(s);
  }

  /** Single underscores between digits are dropped: the value is that of the digits. */
  lemma ParseUnderscores(s: string, base: Base)
    requires WellFormedDigits(s, base)
    ensures AllDigits(RemoveAll(s, '_'), base)
    ensures ParseInt(s, base).Some? && ParseInt(s, base).value == ValueOf(RemoveAll(s, '_'), base) as int
  {
    DigitsOfWellFormed(s, base);
    HexDigitNotSpace(s[0]);
    HexDigitNotSpace(s[|s| - 1]);
    TrimKeeps(s, IntSpaces);
    assert Unsigned(s) == s;
    assert DigitPart(s, base) == s;
    assert !IsNegativeLiteral(s);
  }

  /** A `0X` prefix in front of hex digits is skipped. */
  lemma ParsePrefixedHex(ds: string)
    requires |ds| > 0 && AllDigits(ds, 16)
    ensures ParseInt("0X" + ds, 16) == Some(ValueOf(ds, 16))
  {
    var s := "0X" + ds;
    assert s[0] == '0' && s[1] == 'X' && s[2] == ds[0];
    assert s[|s| - 1] == ds[|ds| - 1];
    HexDigitNotSpace(ds[|ds| - 1]);
    HexDigitNotSpace('0');
    TrimKeeps(s, IntSpaces);
    assert Unsigned(s) == s;
    assert s[2..] == ds;
    assert HexBody(s) == ds;
    assert DigitPart(s, 16) == ds;
    assert !IsNegativeLiteral(s);
    assert '_' !in ds;
    RemoveAllAbsent(ds, '_');
    assert WellFormedDigits(ds, 16);
  }

  /** A literal without `-` never parses to a negative number, and one of n characters
      stays below base^n. */
  lemma ParseBound(s: string, base: Base)
    requires ParseInt(s, base).Some? && '-' !in s
    ensures 0 <= ParseInt(s, base).value < Pow(base, |s|)
  {
    NoMinusNotNegative(s);
    var body := DigitPart(s, base);
    DigitPartShorter(s, base);
    DigitsOfWellFormed(body, base);
    var ds := RemoveAll(body, '_');
    ValueBound(ds, base);
    PowMonotone(base, |ds|, |s|);
  }

  lemma NoMinusNotNegative(s: string)
    requires '-' !in s
    ensures !IsNegativeLiteral(s)
  {
    var t := Trim(s, IntSpaces);
    if |t| > 0 {
      assert t[0] == s[TrimStart(s, IntSpaces)];
    }
  }

  /** A character that is not whitespace keeps a place in the trimmed text. */
  lemma TrimPosition(s: string, ws: Spaces, i: nat) returns (j: nat)
    requires i < |s| && !IsSpaceOf(s[i], ws)
    ensures j < |Trim(s, ws)| && Trim(s, ws)[j] == s[i]
  {
    var a := TrimStart(s, ws);
    if i < a {
      SkipSpacesDropped(s, ws, 0, i);
    }
    var b := SkipSpacesBack(s, ws, a, |s|);
    if b <= i {
      SkipSpacesBackDropped(s, ws, a, |s|, i);
    }
    j := i - a;
  }

  lemma UnsignedPosition(t: string, j: nat) returns (j': nat)
    requires j < |t| && t[j] != '+' && t[j] != '-'
    ensures j' < |Unsigned(t)| && Unsigned(t)[j'] == t[j]
  {
    j' := if |t| > 0 && (t[0] == '+' || t[0] == '-') then j - 1 else j;
  }

  lemma HexBodyPosition(u: string, j: nat) returns (j': nat)
    requires j < |u| && u[j] != '0' && u[j] != 'x' && u[j] != 'X' && u[j] != '_'
    ensures j' < |HexBody(u)| && HexBody(u)[j'] == u[j]
  {
    var d := if |u| >= 2 && u[0] == '0' && (u[1] == 'x' || u[1] == 'X') then
      (if |u| >= 3 && u[2] == '_' then 3 else 2) else 0;
    j' := j - d;
  }

  /** A character that is none of whitespace, sign, `0`, `x`, `X` or `_` cannot be
      consumed before the digits, so `int(s, 16)` must read it as a digit. */
  lemma DigitPartKeeps(s: string, i: nat)
    requires i < |s| && !IntSpace(s[i]) && s[i] !in "+-0xX_"
    ensures s[i] in DigitPart(s, 16)
  {
    var j := TrimPosition(s, IntSpaces, i);
    var t := Trim(s, IntSpaces);
    var j2 := UnsignedPosition(t, j);
    var j3 := HexBodyPosition(Unsigned(t), j2);
  }

  /** A character that is neither a digit of the base nor one `int()` may skip makes the
      literal invalid. */
  lemma ParseRejects(s: string, i: nat)
    requires i < |s| && !IntSpace(s[i]) && s[i] !in "+-0xX_" && !IsHexDigit(s[i])
    ensures ParseInt(s, 16) == None
  {
    DigitPartKeeps(s, i);
  }

  lemma DigitPartShorter(s: string, base: Base)
    ensures |DigitPart(s, base)| <= |s|
  {
  }

  lemma {:induction false} PowMonotone(b: nat, m: nat, n: nat)
    requires b > 0 && m <= n
    ensures Pow(b, m) <= Pow(b, n)
    decreases n
  {
    if m < n {
      PowMonotone(b, m, n - 1);
    }
  }

  function HexDigit(d: nat): (c: char)
    requires d < 16
    ensures IsHexDigit(c) && DigitValue(c) == d
    ensures IsDecDigit(c) || 'A' <= c <= 'F'
  {
    if d < 10 then ('0' as int + d) as char else ('A' as int + d - 10) as char
  }

  /** The low `width` hexadecimal digits of `n`, upper-case. For `n < 16^width` this is
      `'%0*X' % (width, n)`, zero-padded to `width`; a larger `n` would need more digits,
      which this function drops. */
  function FormatHex(n: nat, width: nat): (r: string)
    ensures |r| == width && IsUpperHex(r) && AllDigits(r, 16)
  {
    if width == 0 then [] else FormatHex(n / 16, width - 1) + [HexDigit(n % 16)]
  }

  /** Formatting a value that fits in `width` digits and reading it back gives the value. */
  lemma {:induction false} ValueOfFormatHex(n: nat, width: nat)
    requires n < Pow(16, width)
    ensures ValueOf(FormatHex(n, width), 16) == n
    decreases width
  {
    if width > 0 {
      var pre := FormatHex(n / 16, width - 1);
      ValueOfFormatHex(n / 16, width - 1);
      ValueAppend(pre, HexDigit(n % 16), 16);
    }
  }

  /** Reading an upper-case hex string and formatting it back to its width gives the string. */
  lemma {:induction false} FormatHexOfValue(s: string)
    requires IsUpperHex(s)
    ensures AllDigits(s, 16) && FormatHex(ValueOf(s, 16), |s|) == s
    decreases |s|
  {
    if s != [] {
      var pre := s[..|s| - 1];
      var c := s[|s| - 1];
      FormatHexOfValue(pre);
      var v := ValueOf(pre, 16) * 16 + DigitValue(c);
      assert v / 16 == ValueOf(pre, 16) && v % 16 == DigitValue(c);
      assert HexDigit(DigitValue(c)) == c;
      assert s == pre + [c];
    }
  }

  function DecDigit(d: nat): (c: char)
    requires d < 10
    ensures IsDecDigit(c) && DigitValue(c) == d
  {
    ('0' as int + d) as char
  }

  /** `str(n)` for a natural number: decimal digits without leading zeros. */
  function FormatNat(n: nat): (r: string)
    ensures |r| > 0 && AllDigits(r, 10)
    ensures r[0] == '0' ==> n == 0
  {
    if n < 10 then [DecDigit(n)] else FormatNat(n / 10) + [DecDigit(n % 10)]
  }

  /** `str(i)` for any integer. */
  function FormatInt(i: int): string {
    if i < 0 then "-" + FormatNat(-i) else FormatNat(i)
  }

  lemma {:induction false} ValueOfFormatNat(n: nat)
    ensures ValueOf(FormatNat(n), 10) == n
  {
    if n >= 10 {
      ValueOfFormatNat(n / 10);
      ValueAppend(FormatNat(n / 10), DecDigit(n % 10), 10);
    }
  }

  /** A `-` in front of decimal digits negates their value. */
  lemma ParseNegativeDigits(ds: string)
    requires |ds| > 0 && AllDigits(ds, 10)
    ensures ParseInt("-" + ds, 10).Some? && ParseInt("-" + ds, 10).value == -(ValueOf(ds, 10) as int)
  {
    var s := "-" + ds;
    assert s[0] == '-' && s[|s| - 1] == ds[|ds| - 1];
    HexDigitNotSpace(ds[|ds| - 1]);
    assert !IntSpace('-');
    TrimKeeps(s, IntSpaces);
    assert s[1..] == ds;
    assert DigitPart(s, 10) == ds;
    assert IsNegativeLiteral(s);
    assert '_' !in ds;
    RemoveAllAbsent(ds, '_');
    assert WellFormedDigits(ds, 10);
  }

  /** `int(str(i)) == i`. */
  lemma ParseFormatInt(i: int)
    ensures ParseInt(FormatInt(i), 10) == Some(i)
  {
    var digits := FormatNat(if i < 0 then -i else i);
    ValueOfFormatNat(if i < 0 then -i else i);
    if i < 0 {
      ParseNegativeDigits(digits);
    } else {
      ParsePlainDigits(digits, 10);
    }
  }
}
