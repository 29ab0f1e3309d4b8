/**
 * The MAC address value type `NetworkAddress` of src/utils/network.py: the input is
 * stripped of `:` and `-`, upper-cased, required to be 12 characters long and read
 * as a base-16 integer. The object is never changed after construction, so it is a
 * datatype here.
 */
module Network {
  import opened Common
  import opened Text

  /** The two `ValueError`s construction raises. */
  datatype AddressError =
    | InvalidFormat                 // 'Invalid MAC address format': the normalised length is not 12
    | InvalidLiteral(text: string)  // raised by int(text, 16) on a 12-character text

  predicate IsSeparator(c: char) { c == ':' || c == '-' }

  /** `mac_str.replace(':', '').replace('-', '').upper()`. */
  function Normalize(macStr: string): (r: string)
    ensures |r| <= |macStr|
  {
    Upper(RemoveAll(RemoveAll(macStr, ':'), '-'))
  }

  /** A reference reading of the normalisation: one left-to-right pass that drops each
      separator and upper-cases every other character. */
  function Canonicalize(s: string): string
    decreases |s|
  {
    if s == [] then []
    else (if IsSeparator(s[0]) then [] else [UpperChar(s[0])]) + Canonicalize(s[1..])
  }

  /** What normalisation produces: no separator and no lower-case ASCII letter. */
  predicate IsNormalized(s: string) {
    forall i :: 0 <= i < |s| ==> !IsSeparator(s[i]) && !IsLowerAscii(s[i])
  }

  lemma UpperAppend(a: string, b: string)
    ensures Upper(a + b) == Upper(a) + Upper(b)
  {
  }

  /** The chained `replace`/`upper` calls compute the one-pass reference. */
  lemma {:induction false} NormalizeIsCanonicalize(s: string)
    ensures Normalize(s) == Canonicalize(s)
    decreases |s|
  {
    if s != [] {
      var head := if s[0] == ':' then [] else [s[0]];
      var rest := RemoveAll(s[1..], ':');
      assert RemoveAll(s, ':') == head + rest;
      RemoveAllAppend(head, rest, '-');
      UpperAppend(RemoveAll(head, '-'), RemoveAll(rest, '-'));
      NormalizeIsCanonicalize(s[1..]);
    }
  }

  lemma {:induction false} CanonicalizeAppend(a: string, b: string)
    ensures Canonicalize(a + b) == Canonicalize(a) + Canonicalize(b)
    decreases |a|
  {
    if a == [] {
      assert a + b == b;
    } else {
      assert (a + b)[1..] == a[1..] + b;
      CanonicalizeAppend(a[1..], b);
    }
  }

  lemma {:induction false} CanonicalizeIsNormalized(s: string)
    ensures IsNormalized(Canonicalize(s))
    decreases |s|
  {
    if s != [] {
      CanonicalizeIsNormalized(s[1..]);
    }
  }

  lemma {:induction false} CanonicalizeKeepsNormalized(s: string)
    requires IsNormalized(s)
    ensures Canonicalize(s) == s
    decreases |s|
  {
    if s != [] {
      CanonicalizeKeepsNormalized(s[1..]);
    }
  }

  /** The stored string has no separators and no lower-case letters, and a string
      that already has neither is left as it is. */
  lemma NormalizeShape(s: string)
    ensures IsNormalized(Normalize(s))
    ensures IsNormalized(s) ==> Normalize(s) == s
  {
    NormalizeIsCanonicalize(s);
    CanonicalizeIsNormalized(s);
    if IsNormalized(s) {
      CanonicalizeKeepsNormalized(s);
    }
  }

  /** A separator is dropped wherever it occurs. */
  lemma NormalizeDropsSeparator(a: string, c: char, b: string)
    requires IsSeparator(c)
    ensures Normalize(a + [c] + b) == Normalize(a + b)
  {
    NormalizeIsCanonicalize(a + [c] + b);
    NormalizeIsCanonicalize(a + b);
    CanonicalizeAppend(a + [c], b);
    CanonicalizeAppend(a, [c]);
    CanonicalizeAppend(a, b);
  }

  /** Normalising a normalised string changes nothing. */
  lemma NormalizeIdempotent(s: string)
    ensures Normalize(Normalize(s)) == Normalize(s)
  {
    NormalizeShape(s);
    NormalizeShape(Normalize(s));
  }

  /** An address as constructed: `_STR_REPR` and `_INT_REPR`. */
  datatype NetworkAddress = NetworkAddress(strRepr: string, intRepr: int) {

    /** The `string` property. */
    function String(): string { strRepr }

    /** The `hex` property: the same text as `string`. */
    function Hex(): string { strRepr }

    /** The `integer` property. */
    function Integer(): int { intRepr }

    /** `str(address)`: the same text as `string`. */
    function ToString(): string { strRepr }

    /** `repr(address)`. */
    function Repr(): string {
      "NetworkAddress(string=" + strRepr + ", integer=" + FormatInt(intRepr) + ")"
    }

    /** What every constructed address satisfies. */
    ghost predicate Valid() {
      |strRepr| == 12 && IsNormalized(strRepr) && ParseInt(strRepr, 16) == Some(intRepr)
    }
  }

  /**
   * `NetworkAddress(mac_str)`: `Err` where the constructor raises `ValueError`,
   * first for a normalised length other than 12, then for a text `int(_, 16)` rejects.
   */
  function Create(macStr: string): (r: Result<NetworkAddress, AddressError>)
    ensures r.Ok? <==> |Normalize(macStr)| == 12 && ParseInt(Normalize(macStr), 16).Some?
    ensures r.Ok? ==> r.value.Valid() && r.value.String() == Normalize(macStr)
    ensures r == Err(InvalidFormat) <==> |Normalize(macStr)| != 12
  {
    var s := Normalize(macStr);
    NormalizeShape(macStr);
    if |s| != 12 then Err(InvalidFormat)
    else match ParseInt(s, 16)
      case None => Err(InvalidLiteral(s))
      case Some(v) => Ok(NetworkAddress(s, v))
  }

  /** `string`, `hex` and `str()` give the same text. */
  lemma ViewsAgree(a: NetworkAddress)
    ensures a.String() == a.Hex() == a.ToString()
  {
  }

  /** Constructing from an address's own `string` gives the same address back. */
  lemma CreateIdempotent(macStr: string)
    requires Create(macStr).Ok?
    ensures Create(Create(macStr).value.String()) == Create(macStr)
  {
    NormalizeIdempotent(macStr);
  }

  lemma Pow16Is48Bits()
    ensures Pow(16, 12) == 0x1_0000_0000_0000
  {
    assert Pow(16, 4) == 0x1_0000;
    assert Pow(16, 8) == 0x1_0000_0000 by {
      assert Pow(16, 8) == 16 * 16 * 16 * 16 * Pow(16, 4);
    }
    assert Pow(16, 12) == 16 * 16 * 16 * 16 * Pow(16, 8);
  }

  /** The integer of every address lies in 0 .. 2^48 - 1. */
  lemma IntegerBound(a: NetworkAddress)
    requires a.Valid()
    ensures 0 <= a.Integer() < 0x1_0000_0000_0000
  {
    assert forall i :: 0 <= i < |a.strRepr| ==> a.strRepr[i] != '-';
    ParseBound(a.strRepr, 16);
    Pow16Is48Bits();
  }

  /** For a string of twelve hex digits, `integer` is its big-endian value, and formatting
      it as 12 zero-padded upper-case hex digits gives `string` back. */
  lemma HexRoundTrip(a: NetworkAddress)
    requires a.Valid() && AllDigits(a.String(), 16)
    ensures a.Integer() == ValueOf(a.String(), 16)
    ensures FormatHex(a.Integer(), 12) == a.String()
  {
    ParsePlainDigits(a.strRepr, 16);
    assert IsUpperHex(a.strRepr) by {
      forall i | 0 <= i < 12 ensures IsDecDigit(a.strRepr[i]) || 'A' <= a.strRepr[i] <= 'F' {
        assert IsHexDigit(a.strRepr[i]) && !IsLowerAscii(a.strRepr[i]);
      }
    }
    FormatHexOfValue(a.strRepr);
  }

  /** Every 48-bit integer, written as 12 hex digits, constructs the address with that integer. */
  lemma FromInteger(n: int)
    requires 0 <= n < 0x1_0000_0000_0000
    ensures Create(FormatHex(n, 12)) == Ok(NetworkAddress(FormatHex(n, 12), n))
  {
    var s := FormatHex(n, 12);
    assert IsNormalized(s) by {
      forall i | 0 <= i < |s| ensures !IsSeparator(s[i]) && !IsLowerAscii(s[i]) {
        assert IsDecDigit(s[i]) || 'A' <= s[i] <= 'F';
      }
    }
    NormalizeShape(s);
    ParsePlainDigits(s, 16);
    Pow16Is48Bits();
    ValueOfFormatHex(n, 12);
  }

  /** Without separators, normalisation is upper-casing alone. */
  lemma NormalizeWithoutSeparators(s: string)
    requires ':' !in s && '-' !in s
    ensures Normalize(s) == Upper(s)
  {
    RemoveAllAbsent(s, ':');
    RemoveAllAbsent(s, '-');
  }

  /** A `:` or `-` anywhere in the input does not change the address built. */
  lemma CreateIgnoresSeparator(a: string, c: char, b: string)
    requires IsSeparator(c)
    ensures Create(a + [c] + b) == Create(a + b)
  {
    NormalizeDropsSeparator(a, c, b);
  }

  lemma {:induction false} CanonicalizeUpper(s: string)
    ensures Canonicalize(Upper(s)) == Canonicalize(s)
    decreases |s|
  {
    if s != [] {
      assert Upper(s)[1..] == Upper(s[1..]);
      CanonicalizeUpper(s[1..]);
    }
  }

  /** The input's letter case does not change the address built. */
  lemma CreateIgnoresCase(s: string)
    ensures Create(Upper(s)) == Create(s)
  {
    NormalizeIsCanonicalize(s);
    NormalizeIsCanonicalize(Upper(s));
    CanonicalizeUpper(s);
  }

  /** Eight characters, six once the colons are dropped: construction fails with the
      length error. */
  lemma ShortExample()
    ensures Create("AA:BB:CC") == Err(InvalidFormat)
  {
    assert "AA:BB:CC" == "AA" + [':'] + "BB:CC";
    NormalizeDropsSeparator("AA", ':', "BB:CC");
    assert "AABB:CC" == "AABB" + [':'] + "CC";
    NormalizeDropsSeparator("AABB", ':', "CC");
    NormalizeWithoutSeparators("AABBCC");
  }

  /** A normalised text of twelve characters with a letter beyond `F` (other than the
      `X` of a prefix) is refused by `int(_, 16)`. */
  lemma NonHexRejected(macStr: string, i: nat)
    requires |Normalize(macStr)| == 12 && i < 12
    requires 'G' <= Normalize(macStr)[i] <= 'Z' && Normalize(macStr)[i] != 'X'
    ensures Create(macStr) == Err(InvalidLiteral(Normalize(macStr)))
  {
    ParseRejects(Normalize(macStr), i);
  }

  /**
   * The length test counts characters, not hex digits: `int(_, 16)` also takes a
   * `0X` prefix, so `0X` followed by ten hex digits is accepted with the value of the
   * ten digits, and that value formatted as 12 hex digits is not the stored string.
   */
  lemma PrefixAccepted(n: nat)
    requires n < 0x100_0000_0000
    ensures var s := "0X" + FormatHex(n, 10);
      && Create(s) == Ok(NetworkAddress(s, n))
      && FormatHex(n, 12) != s
  {
    var digits := FormatHex(n, 10);
    var s := "0X" + digits;
    assert IsNormalized(s) by {
      forall k | 0 <= k < |s| ensures !IsSeparator(s[k]) && !IsLowerAscii(s[k]) {
        if k >= 2 {
          assert s[k] == digits[k - 2];
        }
      }
    }
    NormalizeShape(s);
    ParsePrefixedHex(digits);
    assert Pow(16, 10) == 0x100_0000_0000 by {
      Pow16Is48Bits();
    }
    ValueOfFormatHex(n, 10);
    assert FormatHex(n, 12)[1] != 'X';
  }
}
