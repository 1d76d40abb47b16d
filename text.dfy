/**
 * Text handling that the task form relies on: splitting on a separator,
 * trimming JavaScript white space, and JavaScript `parseInt` with no radix
 * argument (optional sign, optional `0x` prefix, longest run of digits).
 * Also the decimal rendering of integers, used for round-trip lemmas.
 */
module Text {

  datatype Option<T> = None | Some(value: T)

  /** `String.prototype.length`: the number of UTF-16 code units, two for
      a character outside the Basic Multilingual Plane. */
  function Utf16Length(s: string): (n: nat)
    ensures |s| <= n <= 2 * |s|
  {
    if |s| == 0 then 0
    else Utf16Length(s[..|s| - 1]) + (if s[|s| - 1] as int > 0xFFFF then 2 else 1)
  }

  /** The UTF-16 length is the number of characters exactly when every
      character lies in the Basic Multilingual Plane. */
  lemma {:induction false} Utf16LengthBmp(s: string)
    ensures Utf16Length(s) == |s| <==> forall i :: 0 <= i < |s| ==> s[i] as int <= 0xFFFF
  {
    if |s| > 0 {
      var init := s[..|s| - 1];
      Utf16LengthBmp(init);
      assert forall i :: 0 <= i < |init| ==> init[i] == s[i];
    }
  }

  /** The UTF-16 length is twice the number of characters exactly when
      every character lies outside the Basic Multilingual Plane. */
  lemma {:induction false} Utf16LengthAstral(s: string)
    ensures Utf16Length(s) == 2 * |s| <==> forall i :: 0 <= i < |s| ==> s[i] as int > 0xFFFF
  {
    if |s| > 0 {
      var init := s[..|s| - 1];
      Utf16LengthAstral(init);
      assert forall i :: 0 <= i < |init| ==> init[i] == s[i];
    }
  }

  /** The characters that `String.prototype.trim` and `parseInt` treat as
      white space or line terminators. */
  predicate IsJsWhitespace(c: char)
  {
    var u := c as int;
    (0x9 <= u <= 0xD) || u == 0x20 || u == 0xA0 || u == 0x1680 ||
    (0x2000 <= u <= 0x200A) || u == 0x2028 || u == 0x2029 || u == 0x202F ||
    u == 0x205F || u == 0x3000 || u == 0xFEFF
  }

  /** Drops the leading white space. */
  function TrimStart(s: string): (r: string)
    ensures |r| <= |s| && r == s[|s| - |r|..]
  {
    if |s| > 0 && IsJsWhitespace(s[0]) then TrimStart(s[1..]) else s
  }

  /** Drops the trailing white space. */
  function TrimEnd(s: string): (r: string)
    ensures |r| <= |s| && r == s[..|r|]
  {
    if |s| > 0 && IsJsWhitespace(s[|s| - 1]) then TrimEnd(s[..|s| - 1]) else s
  }

  /** What `TrimStart` drops is white space, and what it keeps does not
      start with white space. */
  lemma {:induction false} TrimStartDropsWhitespace(s: string)
    ensures var r := TrimStart(s);
      (r == [] || !IsJsWhitespace(r[0])) &&
      forall i :: 0 <= i < |s| - |r| ==> IsJsWhitespace(s[i])
  {
    if |s| > 0 && IsJsWhitespace(s[0]) {
      TrimStartDropsWhitespace(s[1..]);
      var r := TrimStart(s);
      forall i | 1 <= i < |s| - |r| ensures IsJsWhitespace(s[i]) {
        assert s[i] == s[1..][i - 1];
      }
    }
  }

  /** What `TrimEnd` drops is white space, and what it keeps does not end
      with white space. */
  lemma {:induction false} TrimEndDropsWhitespace(s: string)
    ensures var r := TrimEnd(s);
      (r == [] || !IsJsWhitespace(r[|r| - 1])) &&
      forall i :: |r| <= i < |s| ==> IsJsWhitespace(s[i])
  {
    if |s| > 0 && IsJsWhitespace(s[|s| - 1]) {
      TrimEndDropsWhitespace(s[..|s| - 1]);
      var r := TrimEnd(s);
      forall i | |r| <= i < |s| - 1 ensures IsJsWhitespace(s[i]) {
        assert s[i] == s[..|s| - 1][i];
      }
    }
  }

  /** `s.trim()`: white space removed at both ends. */
  function Trim(s: string): string
  {
    TrimEnd(TrimStart(s))
  }

  /** `Trim` keeps one contiguous slice of `s`, starting where `TrimStart`
      stopped. */
  lemma TrimKeepsSlice(s: string)
    ensures |s| - |TrimStart(s)| + |Trim(s)| <= |s|
    ensures Trim(s) == s[|s| - |TrimStart(s)|..|s| - |TrimStart(s)| + |Trim(s)|]
  {
    var t := TrimStart(s);
    var r := TrimEnd(t);
    assert r == t[..|r|] && t == s[|s| - |t|..];
  }

  /** The slice `Trim` keeps neither starts nor ends with white space. */
  lemma TrimEndsNotWhitespace(s: string)
    ensures Trim(s) == [] || (!IsJsWhitespace(Trim(s)[0]) && !IsJsWhitespace(Trim(s)[|Trim(s)| - 1]))
  {
    var t := TrimStart(s);
    var r := TrimEnd(t);
    TrimStartDropsWhitespace(s);
    TrimEndDropsWhitespace(t);
    if r != [] {
      assert r[0] == t[0];
    }
  }

  /** Everything `Trim` drops on either side of the slice it keeps is white
      space. */
  lemma TrimDropsWhitespace(s: string)
    ensures forall i :: 0 <= i < |s| - |TrimStart(s)| ==> IsJsWhitespace(s[i])
    ensures forall i :: |s| - |TrimStart(s)| + |Trim(s)| <= i < |s| ==> IsJsWhitespace(s[i])
  {
    var t := TrimStart(s);
    var r := TrimEnd(t);
    var k := |s| - |t|;
    TrimStartDropsWhitespace(s);
    TrimEndDropsWhitespace(t);
    WhitespaceTail(s, k, |r|);
  }

  /** Helper: white space past `k + n` in `s` is white space past `n` in `s[k..]`. */
  lemma WhitespaceTail(s: string, k: nat, n: nat)
    requires k + n <= |s|
    requires forall i :: n <= i < |s[k..]| ==> IsJsWhitespace(s[k..][i])
    ensures forall i :: k + n <= i < |s| ==> IsJsWhitespace(s[i])
  {
    forall i | k + n <= i < |s| ensures IsJsWhitespace(s[i]) {
      assert s[i] == s[k..][i - k];
    }
  }

  /** A string with no white space at either end is its own trim. */
  lemma TrimNoWhitespace(s: string)
    requires forall i :: 0 <= i < |s| ==> !IsJsWhitespace(s[i])
    ensures Trim(s) == s
  {
  }

  /** `s.split(sep)`: the fields between separators, in order; the empty
      string splits into one empty field. */
  function Split(s: string, sep: char): (r: seq<string>)
    ensures |r| >= 1
    ensures forall i :: 0 <= i < |r| ==> sep !in r[i]
    decreases |s|
  {
    if |s| == 0 then [""]
    else if s[0] == sep then [""] + Split(s[1..], sep)
    else
      var rest := Split(s[1..], sep);
      [[s[0]] + rest[0]] + rest[1..]
  }

  /** `parts.join(sep)` for a non-empty list of parts. */
  function Join(parts: seq<string>, sep: char): string
    requires |parts| >= 1
  {
    if |parts| == 1 then parts[0] else parts[0] + [sep] + Join(parts[1..], sep)
  }

  /** A field with no separator in it, followed by a separator, becomes the
      first field of the split. */
  lemma {:induction false} SplitField(p: string, sep: char, rest: string)
    requires sep !in p
    ensures Split(p + [sep] + rest, sep) == [p] + Split(rest, sep)
    decreases |p|
  {
    if |p| == 0 {
      assert p + [sep] + rest == [sep] + rest;
      assert ([sep] + rest)[1..] == rest;
    } else {
      SplitField(p[1..], sep, rest);
      assert (p + [sep] + rest)[1..] == p[1..] + [sep] + rest;
      assert [p[0]] + p[1..] == p;
    }
  }

  /** A field with no separator in it splits into itself. */
  lemma {:induction false} SplitSingle(p: string, sep: char)
    requires sep !in p
    ensures Split(p, sep) == [p]
    decreases |p|
  {
    if |p| > 0 {
      SplitSingle(p[1..], sep);
      assert [p[0]] + p[1..] == p;
    }
  }

  /** Splitting undoes joining, as long as no part holds the separator. */
  lemma {:induction false} SplitJoin(parts: seq<string>, sep: char)
    requires |parts| >= 1
    requires forall i :: 0 <= i < |parts| ==> sep !in parts[i]
    ensures Split(Join(parts, sep), sep) == parts
    decreases |parts|
  {
    if |parts| == 1 {
      SplitSingle(parts[0], sep);
    } else {
      SplitJoin(parts[1..], sep);
      SplitField(parts[0], sep, Join(parts[1..], sep));
      assert [parts[0]] + parts[1..] == parts;
    }
  }

  /** The value of `c` as a digit in base `radix` (10 or 16), if it is one. */
  function DigitValue(c: char, radix: nat): (r: Option<nat>)
    ensures r.Some? ==> r.value < radix
  {
    if '0' <= c <= '9' && (c as int - '0' as int) < radix then Some(c as int - '0' as int)
    else if 'a' <= c <= 'f' && radix == 16 then Some(c as int - 'a' as int + 10)
    else if 'A' <= c <= 'F' && radix == 16 then Some(c as int - 'A' as int + 10)
    else None
  }

  predicate IsDigit(c: char, radix: nat)
  {
    DigitValue(c, radix).Some?
  }

  /** Length of the longest prefix of `s` made of digits in base `radix`. */
  function DigitRun(s: string, radix: nat): (n: nat)
    ensures n <= |s|
    ensures forall i :: 0 <= i < n ==> IsDigit(s[i], radix)
    ensures n < |s| ==> !IsDigit(s[n], radix)
  {
    if |s| > 0 && IsDigit(s[0], radix) then 1 + DigitRun(s[1..], radix) else 0
  }

  /** The number written by the digits `s` in base `radix` (10 or 16), most
      significant digit first. */
  function DigitsValue(s: string, radix: nat): nat
    requires radix == 10 || radix == 16
    requires forall i :: 0 <= i < |s| ==> IsDigit(s[i], radix)
  {
    if |s| == 0 then 0
    else
      var init := s[..|s| - 1];
      assert forall i :: 0 <= i < |init| ==> init[i] == s[i];
      assert IsDigit(s[|s| - 1], radix);
      var high := DigitsValue(init, radix);
      (if radix == 16 then 16 * high else 10 * high) + DigitValue(s[|s| - 1], radix).value
  }

  /** The unsigned part of `parseInt`: an optional `0x`/`0X` prefix that
      switches to base 16, then the longest run of digits, of which there must
      be at least one. */
  function ParseUnsigned(u: string): (r: Option<nat>)
    ensures r.Some? ==> |u| > 0 && IsDigit(u[0], 16)
  {
    var hex := |u| >= 2 && u[0] == '0' && (u[1] == 'x' || u[1] == 'X');
    var radix := if hex then 16 else 10;
    var digits := if hex then u[2..] else u;
    var n := DigitRun(digits, radix);
    if n == 0 then None else Some(DigitsValue(digits[..n], radix))
  }

  /** What `parseInt` reads once white space is skipped: one optional sign,
      then the unsigned part. */
  function ParseSigned(t: string): (r: Option<int>)
    ensures r.Some? ==> exists k :: 0 <= k < |t| && IsDigit(t[k], 16)
  {
    var negative := |t| > 0 && t[0] == '-';
    var u := if |t| > 0 && (t[0] == '-' || t[0] == '+') then t[1..] else t;
    match ParseUnsigned(u)
    case None => None
    case Some(v) =>
      assert u[0] == t[|t| - |u|];
      var value: int := if negative then -(v as int) else v;
      Some(value)
  }

  /** JavaScript `parseInt(s)` with no radix, None standing for NaN: leading
      white space skipped, then a signed number. */
  function ParseInt(s: string): (r: Option<int>)
    ensures r.Some? ==> exists k :: 0 <= k < |s| && IsDigit(s[k], 16)
  {
    var t := TrimStart(s);
    assert forall k :: 0 <= k < |t| ==> t[k] == s[|s| - |t| + k];
    ParseSigned(t)
  }

  /** The decimal digits of `n`, without sign or leading zeros. */
  function DecimalString(n: nat): (r: string)
    ensures |r| >= 1
    ensures forall i :: 0 <= i < |r| ==> '0' <= r[i] <= '9'
  {
    if n < 10 then ['0' + n as char]
    else DecimalString(n / 10) + ['0' + (n % 10) as char]
  }

  /** `String(i)` for an integer: a minus sign for negative values. */
  function IntString(i: int): (r: string)
    ensures |r| >= 1 && (r[0] == '-' <==> i < 0)
    ensures forall k :: 0 <= k < |r| ==> r[k] == '-' || '0' <= r[k] <= '9'
  {
    if i < 0 then "-" + DecimalString(-i) else DecimalString(i)
  }

  /** The decimal digits of `n` read back in base 10 give `n`. */
  lemma {:induction false} DecimalDigitsValue(n: nat)
    ensures forall i :: 0 <= i < |DecimalString(n)| ==> IsDigit(DecimalString(n)[i], 10)
    ensures DigitsValue(DecimalString(n), 10) == n
  {
    var d := DecimalString(n);
    if n >= 10 {
      DecimalDigitsValue(n / 10);
      assert d[..|d| - 1] == DecimalString(n / 10);
    }
  }

  /** The digit run of a string made only of digits is the whole string. */
  lemma {:induction false} DigitRunAll(s: string, radix: nat)
    requires forall i :: 0 <= i < |s| ==> IsDigit(s[i], radix)
    ensures DigitRun(s, radix) == |s|
  {
    if |s| > 0 {
      DigitRunAll(s[1..], radix);
    }
  }

  lemma DecimalIsDigit(c: char)
    requires '0' <= c <= '9'
    ensures IsDigit(c, 10)
  {
  }

  /** A non-empty string of decimal digits is read back whole by the
      unsigned parser. */
  lemma ParseUnsignedDigits(d: string)
    requires |d| >= 1
    requires forall i :: 0 <= i < |d| ==> '0' <= d[i] <= '9'
    ensures forall i :: 0 <= i < |d| ==> IsDigit(d[i], 10)
    ensures ParseUnsigned(d) == Some(DigitsValue(d, 10))
  {
    forall i | 0 <= i < |d| ensures IsDigit(d[i], 10) {
      DecimalIsDigit(d[i]);
    }
    DigitRunAll(d, 10);
    assert !(|d| >= 2 && d[0] == '0' && (d[1] == 'x' || d[1] == 'X')) by {
      if |d| >= 2 {
        assert '0' <= d[1] <= '9';
      }
    }
    assert d[..|d|] == d;
  }

  /** The decimal rendering of `n` is read back as `n` by the unsigned parser. */
  lemma ParseUnsignedDecimal(n: nat)
    ensures ParseUnsigned(DecimalString(n)) == Some(n)
  {
    ParseUnsignedDigits(DecimalString(n));
    DecimalDigitsValue(n);
  }

  /** With no sign, the signed reader is the unsigned parser. */
  lemma ParseSignedUnsigned(s: string, n: nat)
    requires |s| > 0 && s[0] != '-' && s[0] != '+'
    requires ParseUnsigned(s) == Some(n)
    ensures ParseSigned(s) == Some(n as int)
  {
  }

  /** After a minus sign, the signed reader negates what the unsigned parser
      reads. */
  lemma ParseSignedMinus(u: string, n: nat)
    requires ParseUnsigned(u) == Some(n)
    ensures ParseSigned("-" + u) == Some(-(n as int))
  {
    assert ("-" + u)[1..] == u;
  }

  /** With no leading white space, `parseInt` is the signed reader. */
  lemma ParseIntNoLeadingSpace(s: string)
    requires |s| > 0 && !IsJsWhitespace(s[0])
    ensures ParseInt(s) == ParseSigned(s)
  {
    assert TrimStart(s) == s;
  }

  /** `parseInt` on a string starting with a digit reads its unsigned part. */
  lemma ParseIntDigitFirst(s: string, n: nat)
    requires |s| > 0 && '0' <= s[0] <= '9' && ParseUnsigned(s) == Some(n)
    ensures ParseInt(s) == Some(n as int)
  {
    ParseIntNoLeadingSpace(s);
    ParseSignedUnsigned(s, n);
  }

  /** `parseInt` on a minus sign and an unsigned number reads its negation. */
  lemma ParseIntMinus(u: string, n: nat)
    requires ParseUnsigned(u) == Some(n)
    ensures ParseInt("-" + u) == Some(-(n as int))
  {
    var s := "-" + u;
    assert s[0] == '-';
    ParseIntNoLeadingSpace(s);
    ParseSignedMinus(u, n);
  }

  lemma ParseIntDecimal(n: nat)
    ensures ParseInt(DecimalString(n)) == Some(n)
  {
    var s := DecimalString(n);
    ParseUnsignedDecimal(n);
    ParseIntDigitFirst(s, n);
  }

  lemma ParseIntNegative(n: nat)
    ensures ParseInt("-" + DecimalString(n)) == Some(-(n as int))
  {
    ParseUnsignedDecimal(n);
    ParseIntMinus(DecimalString(n), n);
  }

  /** `parseInt(String(i)) === i`: the parser reads back every integer the
      decimal rendering writes. */
  lemma ParseIntString(i: int)
    ensures ParseInt(IntString(i)) == Some(i)
  {
    if i < 0 {
      var n: nat := -i;
      assert IntString(i) == "-" + DecimalString(n);
      ParseIntNegative(n);
    } else {
      assert IntString(i) == DecimalString(i);
      ParseIntDecimal(i);
    }
  }
}
