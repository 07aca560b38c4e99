/** An optional value: JavaScript's `undefined`/`null`/`NaN` become None. */
module Opt {
  datatype Option<T> = None | Some(value: T)
}

/**
 * The few JavaScript string built-ins the server and the page rely on:
 * whitespace (String.prototype.trim and the regex class \s), lower-casing,
 * `includes`, decimal printing of integers (`String(n)`, template literals),
 * `Number.parseInt(s, 10)` and `padStart`.
 */
module Text {
  import opened Opt

  /** The characters JavaScript counts as white space or line terminators. */
  predicate IsWhitespace(c: char) {
    c == '\t' || c == '\n' || c == '\U{B}' || c == '\U{C}' || c == '\r' || c == ' '
    || c == '\U{A0}' || c == '\U{1680}' || ('\U{2000}' <= c <= '\U{200A}')
    || c == '\U{2028}' || c == '\U{2029}' || c == '\U{202F}' || c == '\U{205F}'
    || c == '\U{3000}' || c == '\U{FEFF}'
  }

  predicate IsDigit(c: char) { '0' <= c <= '9' }

  predicate AllDigits(s: string) {
    forall i :: 0 <= i < |s| ==> IsDigit(s[i])
  }

  // ---------------------------------------------------------------------
  // Lower-casing (ASCII letters only)

  function LowerChar(c: char): char {
    if 'A' <= c <= 'Z' then (c as int + 32) as char else c
  }

  function ToLower(s: string): (r: string)
    ensures |r| == |s|
    ensures forall i :: 0 <= i < |s| ==> r[i] == LowerChar(s[i])
  {
    if s == [] then [] else [LowerChar(s[0])] + ToLower(s[1..])
  }

  lemma {:induction false} ToLowerConcat(a: string, b: string)
    ensures ToLower(a + b) == ToLower(a) + ToLower(b)
  {
    var l, r := ToLower(a + b), ToLower(a) + ToLower(b);
    assert |l| == |r|;
    forall i | 0 <= i < |l| ensures l[i] == r[i] {
      if i < |a| { assert (a + b)[i] == a[i]; } else { assert (a + b)[i] == b[i - |a|]; }
    }
  }

  lemma {:induction false} ToLowerIdempotent(s: string)
    ensures ToLower(ToLower(s)) == ToLower(s)
  {
    var l, r := ToLower(ToLower(s)), ToLower(s);
    assert |l| == |r|;
    forall i | 0 <= i < |l| ensures l[i] == r[i] {
      assert l[i] == LowerChar(r[i]);
    }
  }

  // ---------------------------------------------------------------------
  // Substring search, as String.prototype.includes

  predicate StartsWith(s: string, p: string) {
    |p| <= |s| && s[..|p|] == p
  }

  predicate EndsWith(s: string, p: string) {
    |p| <= |s| && s[|s| - |p|..] == p
  }

  /** `t` occurs in `s` starting at index `i`. */
  predicate OccursAt(s: string, t: string, i: int) {
    0 <= i && i + |t| <= |s| && s[i..i + |t|] == t
  }

  /** `t` occurs somewhere in `s`. */
  ghost predicate Mentions(s: string, t: string) {
    exists i :: OccursAt(s, t, i)
  }

  /** `s.includes(t)`: try each start position from the left. */
  predicate Contains(s: string, t: string)
    decreases |s|
  {
    StartsWith(s, t) || (|s| > 0 && Contains(s[1..], t))
  }

  lemma {:induction false} ContainsIff(s: string, t: string)
    ensures Contains(s, t) <==> Mentions(s, t)
    decreases |s|
  {
    if |s| > 0 {
      ContainsIff(s[1..], t);
    }
    if Contains(s, t) {
      if StartsWith(s, t) {
        assert OccursAt(s, t, 0);
      } else {
        var i :| OccursAt(s[1..], t, i);
        assert s[1..][i..i + |t|] == s[i + 1..i + 1 + |t|];
        assert OccursAt(s, t, i + 1);
      }
    }
    if exists i :: OccursAt(s, t, i) {
      var i :| OccursAt(s, t, i);
      if i == 0 {
        assert StartsWith(s, t);
      } else {
        assert s[1..][i - 1..i - 1 + |t|] == s[i..i + |t|];
        assert OccursAt(s[1..], t, i - 1);
      }
    }
  }

  /** A string cannot contain a piece holding a character the string lacks. */
  lemma AbsentCharNotMentioned(s: string, t: string, c: char)
    requires c in t && c !in s
    ensures !Mentions(s, t) && !Contains(s, t)
  {
    ContainsIff(s, t);
  }

  /** Lower-casing cannot produce a lower-case letter whose two forms are both absent. */
  lemma ToLowerAbsent(s: string, c: char)
    requires 'a' <= c <= 'z'
    requires c !in s && (c as int - 32) as char !in s
    ensures c !in ToLower(s)
  {
    var r := ToLower(s);
    forall i | 0 <= i < |r| ensures r[i] != c {
      assert s[i] != c && s[i] != (c as int - 32) as char;
    }
  }

  /** Whatever surrounds it, a string contains its own middle part. */
  lemma ContainsInfix(pre: string, t: string, post: string)
    ensures Contains(pre + t + post, t)
  {
    var s := pre + t + post;
    assert s[|pre|..|pre| + |t|] == t;
    assert OccursAt(s, t, |pre|);
    ContainsIff(s, t);
  }

  // ---------------------------------------------------------------------
  // Trimming

  /** Drops leading white space, as String.prototype.trimStart. */
  function TrimStart(s: string): (r: string)
    ensures |r| <= |s| && r == s[|s| - |r|..]
    ensures forall i :: 0 <= i < |s| - |r| ==> IsWhitespace(s[i])
    ensures r == [] || !IsWhitespace(r[0])
  {
    if s != [] && IsWhitespace(s[0]) then
      var r := TrimStart(s[1..]);
      assert s[1..][|s| - 1 - |r|..] == s[|s| - |r|..];
      assert forall i :: 1 <= i < |s| - |r| ==> s[i] == s[1..][i - 1];
      r
    else s
  }

  /** Drops trailing white space, as String.prototype.trimEnd. */
  function TrimEnd(s: string): (r: string)
    ensures |r| <= |s| && r == s[..|r|]
    ensures forall i :: |r| <= i < |s| ==> IsWhitespace(s[i])
    ensures r == [] || !IsWhitespace(r[|r| - 1])
  {
    if s != [] && IsWhitespace(s[|s| - 1]) then
      var r := TrimEnd(s[..|s| - 1]);
      assert s[..|s| - 1][..|r|] == s[..|r|];
      assert forall i :: |r| <= i < |s| - 1 ==> s[i] == s[..|s| - 1][i];
      r
    else s
  }

  /** Where `Trim(s)` starts inside `s`: the length of its leading white space. */
  function TrimOffset(s: string): nat {
    |s| - |TrimStart(s)|
  }

  /**
   * String.prototype.trim: the piece of `s` left after dropping the white
   * space at both ends, and nothing else; it neither starts nor ends with
   * white space.
   */
  function Trim(s: string): (r: string)
    ensures TrimOffset(s) + |r| <= |s| && r == s[TrimOffset(s)..TrimOffset(s) + |r|]
    ensures forall i :: 0 <= i < TrimOffset(s) ==> IsWhitespace(s[i])
    ensures forall i :: TrimOffset(s) + |r| <= i < |s| ==> IsWhitespace(s[i])
    ensures r == [] || (!IsWhitespace(r[0]) && !IsWhitespace(r[|r| - 1]))
  {
    var t := TrimStart(s);
    var r := TrimEnd(t);
    assert r != [] ==> r[0] == t[0];
    TrimParts(s, TrimOffset(s), t, r);
    r
  }

  /** Trimming the front, then the end, leaves a middle piece with only white space around it. */
  lemma TrimParts(s: string, lo: nat, t: string, r: string)
    requires lo <= |s| && t == s[lo..]
    requires forall i :: 0 <= i < lo ==> IsWhitespace(s[i])
    requires |r| <= |t| && r == t[..|r|]
    requires forall i :: |r| <= i < |t| ==> IsWhitespace(t[i])
    ensures lo + |r| <= |s| && r == s[lo..lo + |r|]
    ensures forall i :: lo + |r| <= i < |s| ==> IsWhitespace(s[i])
  {
    SliceOfSuffix(s, lo, t, r);
    BlankTailOfSuffix(s, lo, t, |r|);
  }

  /** White space at the end of a suffix is white space at the end of the whole string. */
  lemma BlankTailOfSuffix(s: string, lo: nat, t: string, k: nat)
    requires lo <= |s| && t == s[lo..] && k <= |t|
    requires forall i :: k <= i < |t| ==> IsWhitespace(t[i])
    ensures forall i :: lo + k <= i < |s| ==> IsWhitespace(s[i])
  {
    forall i | lo + k <= i < |s| ensures IsWhitespace(s[i]) {
      assert s[i] == t[i - lo];
    }
  }

  /** A prefix of a suffix is a middle slice. */
  lemma SliceOfSuffix(s: string, lo: nat, t: string, r: string)
    requires lo <= |s| && t == s[lo..]
    requires |r| <= |t| && r == t[..|r|]
    ensures lo + |r| <= |s| && r == s[lo..lo + |r|]
  {
  }

  // ---------------------------------------------------------------------
  // Decimal numerals

  function DigitChar(d: nat): (c: char)
    requires d < 10
    ensures IsDigit(c)
  {
    ('0' as int + d) as char
  }

  function DigitValue(c: char): (d: nat)
    requires IsDigit(c)
    ensures d < 10
  {
    c as int - '0' as int
  }

  /** `String(n)` for a natural number: shortest decimal numeral, no leading zeros. */
  function NatToString(n: nat): (r: string)
    ensures |r| >= 1 && AllDigits(r)
    ensures |r| > 1 ==> r[0] != '0'
    decreases n
  {
    if n < 10 then [DigitChar(n)] else NatToString(n / 10) + [DigitChar(n % 10)]
  }

  lemma SingleDigitNumeral(n: nat)
    requires n < 10
    ensures NatToString(n) == [DigitChar(n)]
  {
  }

  lemma TwoDigitNumeral(n: nat)
    requires 10 <= n < 100
    ensures NatToString(n) == [DigitChar(n / 10), DigitChar(n % 10)]
  {
    SingleDigitNumeral(n / 10);
  }

  /** `String(i)` for any integer. */
  function IntToString(i: int): (r: string)
    ensures |r| >= 1
  {
    if i < 0 then "-" + NatToString(-i) else NatToString(i)
  }

  /** The value of a string of digits, read left to right. */
  function DigitsValue(ds: string): nat
    requires AllDigits(ds)
  {
    if ds == [] then 0 else DigitsValue(ds[..|ds| - 1]) * 10 + DigitValue(ds[|ds| - 1])
  }

  lemma {:induction false} DigitsValueOfNatToString(n: nat)
    ensures DigitsValue(NatToString(n)) == n
    decreases n
  {
    var s := NatToString(n);
    if n >= 10 {
      DigitsValueOfNatToString(n / 10);
      assert s[..|s| - 1] == NatToString(n / 10);
    }
  }

  lemma NatToStringInjective(a: nat, b: nat)
    ensures NatToString(a) == NatToString(b) ==> a == b
  {
    DigitsValueOfNatToString(a);
    DigitsValueOfNatToString(b);
  }

  /** The longest prefix of `s` made of decimal digits. */
  function LeadingDigits(s: string): (r: string)
    ensures |r| <= |s| && r == s[..|r|] && AllDigits(r)
    ensures |r| == |s| || !IsDigit(s[|r|])
  {
    if s != [] && IsDigit(s[0]) then [s[0]] + LeadingDigits(s[1..]) else []
  }

  /**
   * `Number.parseInt(s, 10)`: skip leading white space, read an optional
   * sign, then as many decimal digits as follow; None (NaN) when there are none.
   */
  function ParseInt(s: string): (r: Option<int>)
    ensures TrimStart(s) == [] ==> r == None
    ensures TrimStart(s) != [] && !IsDigit(TrimStart(s)[0]) && TrimStart(s)[0] != '-' && TrimStart(s)[0] != '+' ==> r == None
    ensures r.Some? && r.value < 0 ==> TrimStart(s) != [] && TrimStart(s)[0] == '-'
  {
    ReadSigned(TrimStart(s))
  }

  /** An optional sign and the decimal digits that follow it, read from the start of `t`. */
  function ReadSigned(t: string): (r: Option<int>)
    ensures t == [] ==> r == None
    ensures t != [] && !IsDigit(t[0]) && t[0] != '-' && t[0] != '+' ==> r == None
    ensures r.Some? && r.value < 0 ==> t != [] && t[0] == '-'
  {
    var negative := |t| > 0 && t[0] == '-';
    var body := if |t| > 0 && (t[0] == '-' || t[0] == '+') then t[1..] else t;
    var ds := LeadingDigits(body);
    if ds == [] then None
    else
      var v: int := DigitsValue(ds);
      Some(if negative then -v else v)
  }

  /** The digits of a numeral followed by a non-digit are read up to the non-digit. */
  lemma {:induction false} LeadingDigitsOfNumeral(ds: string, rest: string)
    requires AllDigits(ds)
    requires rest == [] || !IsDigit(rest[0])
    ensures LeadingDigits(ds + rest) == ds
  {
    if ds != [] {
      assert (ds + rest)[1..] == ds[1..] + rest;
      LeadingDigitsOfNumeral(ds[1..], rest);
      assert [ds[0]] + ds[1..] == ds;
    } else {
      assert ds + rest == rest;
    }
  }

  /**
   * Printing a natural number and parsing it back gives the number, also when
   * text that does not start with a digit follows it (`parseInt("720p")` is 720).
   */
  lemma ParseIntOfNumeral(n: nat, rest: string)
    requires rest == [] || !IsDigit(rest[0])
    ensures ParseInt(NatToString(n) + rest) == Some(n)
  {
    var s := NatToString(n);
    var t := s + rest;
    assert t[0] == s[0] && IsDigit(s[0]);
    ParseIntOfDigitStart(t);
    LeadingDigitsOfNumeral(s, rest);
    DigitsValueOfNatToString(n);
  }

  /** Printing a natural number and parsing it back gives the number. */
  lemma ParseIntOfNatToString(n: nat)
    ensures ParseInt(NatToString(n)) == Some(n)
  {
    ParseIntOfNumeral(n, []);
    assert NatToString(n) + [] == NatToString(n);
  }

  /** Text that starts with a digit is read as the value of its leading digits. */
  lemma ParseIntOfDigitStart(t: string)
    requires t != [] && IsDigit(t[0])
    ensures ParseInt(t) == Some(DigitsValue(LeadingDigits(t)) as int)
  {
    assert !IsWhitespace(t[0]);
    assert TrimStart(t) == t;
    assert t[0] != '-' && t[0] != '+';
  }

  /** Leading white space followed by `b` trims to `b` when `b` does not start with white space. */
  lemma {:induction false} TrimStartRun(w: string, b: string)
    requires forall i :: 0 <= i < |w| ==> IsWhitespace(w[i])
    requires b == [] || !IsWhitespace(b[0])
    ensures TrimStart(w + b) == b
    decreases |w|
  {
    if w == [] {
      assert w + b == b;
    } else {
      assert (w + b)[0] == w[0] && (w + b)[1..] == w[1..] + b;
      TrimStartRun(w[1..], b);
    }
  }

  /** Leading white space does not change what is read. */
  lemma ParseIntAfterBlank(w: string, t: string)
    requires forall i :: 0 <= i < |w| ==> IsWhitespace(w[i])
    requires t == [] || !IsWhitespace(t[0])
    ensures ParseInt(w + t) == ParseInt(t)
  {
    TrimStartRun(w, t);
    TrimStartRun([], t);
    assert [] + t == t;
    assert TrimStart(w + t) == TrimStart(t);
  }

  /** A numeral behind a `+` or `-` is read with that sign, whatever follows its digits. */
  lemma ReadSignedOfNumeral(c: char, n: nat, rest: string)
    requires c == '+' || c == '-'
    requires rest == [] || !IsDigit(rest[0])
    ensures ReadSigned([c] + NatToString(n) + rest) == Some(if c == '-' then -(n as int) else n as int)
  {
    var num := NatToString(n);
    var t := [c] + num + rest;
    assert t[0] == c && t[1..] == num + rest;
    LeadingDigitsOfNumeral(num, rest);
    DigitsValueOfNatToString(n);
  }

  /**
   * A numeral behind an optional sign is read with that sign, whatever
   * follows its digits: `parseInt("+720")` is 720, `parseInt("-5px")` is -5.
   */
  lemma ParseIntOfSign(sign: string, n: nat, rest: string)
    requires sign == "" || sign == "+" || sign == "-"
    requires rest == [] || !IsDigit(rest[0])
    ensures ParseInt(sign + NatToString(n) + rest) == Some(if sign == "-" then -(n as int) else n as int)
  {
    if sign == "" {
      assert sign + NatToString(n) + rest == NatToString(n) + rest;
      ParseIntOfNumeral(n, rest);
    } else {
      assert sign == [sign[0]];
      ParseIntOfSignChar(sign[0], n, rest);
    }
  }

  /** A numeral behind a `+` or `-` with nothing in front of the sign. */
  lemma ParseIntOfSignChar(c: char, n: nat, rest: string)
    requires c == '+' || c == '-'
    requires rest == [] || !IsDigit(rest[0])
    ensures ParseInt([c] + NatToString(n) + rest) == Some(if c == '-' then -(n as int) else n as int)
  {
    var t := [c] + NatToString(n) + rest;
    TrimStartRun([], t);
    assert [] + t == t;
    ReadSignedOfNumeral(c, n, rest);
  }

  /**
   * Leading white space, an optional sign and a numeral followed by anything
   * that is not a digit are read as the signed value of the numeral.
   */
  lemma ParseIntOfSignedNumeral(w: string, sign: string, n: nat, rest: string)
    requires forall i :: 0 <= i < |w| ==> IsWhitespace(w[i])
    requires sign == "" || sign == "+" || sign == "-"
    requires rest == [] || !IsDigit(rest[0])
    ensures ParseInt(w + sign + NatToString(n) + rest) == Some(if sign == "-" then -(n as int) else n as int)
  {
    var t := sign + NatToString(n) + rest;
    assert !IsWhitespace(t[0]) by {
      assert t[0] == if sign == "" then NatToString(n)[0] else sign[0];
    }
    ConcatAssoc(w, sign, NatToString(n), rest);
    ParseIntAfterBlank(w, t);
    ParseIntOfSign(sign, n, rest);
  }

  lemma ConcatAssoc(a: string, b: string, c: string, d: string)
    ensures a + b + c + d == a + (b + c + d)
  {
  }

  /** A sign that no digit follows is read as NaN. */
  lemma ReadSignedWithoutDigits(c: char, rest: string)
    requires c == '+' || c == '-'
    requires rest == [] || !IsDigit(rest[0])
    ensures ReadSigned([c] + rest) == None
  {
    assert ([c] + rest)[1..] == rest;
  }

  /**
   * A sign that no digit follows reads as NaN, and so does text whose first
   * character after the leading white space is neither a digit nor a sign.
   */
  lemma ParseIntWithoutDigits(w: string, sign: string, rest: string)
    requires forall i :: 0 <= i < |w| ==> IsWhitespace(w[i])
    requires sign == "+" || sign == "-" || sign == ""
    requires rest == [] || !IsDigit(rest[0])
    requires sign == "" ==> rest == [] || (!IsWhitespace(rest[0]) && rest[0] != '-' && rest[0] != '+')
    ensures ParseInt(w + sign + rest) == None
  {
    var t := sign + rest;
    assert w + sign + rest == w + t;
    if sign == "" {
      assert t == rest;
      TrimStartRun(w, t);
    } else {
      assert t == [sign[0]] + rest;
      TrimStartRun(w, t);
      ReadSignedWithoutDigits(sign[0], rest);
    }
  }

  // ---------------------------------------------------------------------
  // Padding and splitting

  /** `s.padStart(n, c)` for a one-character pad string. */
  function PadStart(s: string, n: nat, c: char): (r: string)
    ensures |r| == if |s| >= n then |s| else n
    ensures r[|r| - |s|..] == s
    ensures forall i :: 0 <= i < |r| - |s| ==> r[i] == c
    decreases n - |s|
  {
    if |s| >= n then s else PadStart([c] + s, n, c)
  }

  /** Padding one character to two puts one pad character in front. */
  lemma PadOneToTwo(s: string, c: char)
    requires |s| == 1
    ensures PadStart(s, 2, c) == [c] + s
  {
    var r := PadStart(s, 2, c);
    assert r[1..] == s && r[0] == c;
  }

  /** The pieces of `s` between occurrences of `sep`, as String.prototype.split with a one-character separator. */
  function SplitOn(s: string, sep: char): (parts: seq<string>)
    ensures |parts| >= 1
  {
    if s == [] then [""]
    else
      var rest := SplitOn(s[1..], sep);
      if s[0] == sep then [""] + rest else [[s[0]] + rest[0]] + rest[1..]
  }

  lemma {:induction false} SplitOnWithoutSep(a: string, sep: char)
    requires sep !in a
    ensures SplitOn(a, sep) == [a]
  {
    if a != [] {
      SplitOnWithoutSep(a[1..], sep);
      assert [a[0]] + a[1..] == a;
    }
  }

  lemma {:induction false} SplitOnJoin(a: string, sep: char, b: string)
    requires sep !in a
    ensures SplitOn(a + [sep] + b, sep) == [a] + SplitOn(b, sep)
  {
    if a == [] {
      assert a + [sep] + b == [sep] + b;
      assert ([sep] + b)[1..] == b;
    } else {
      var s := a + [sep] + b;
      assert s[1..] == a[1..] + [sep] + b;
      SplitOnJoin(a[1..], sep, b);
      assert [a[0]] + a[1..] == a;
    }
  }
}
