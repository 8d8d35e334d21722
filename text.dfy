/**
  The handful of Python string operations the file formats use: `str.strip()`,
  `str.split()`, `str.split(sep)`, `in`, `startswith`, `str(int)`, and `int()`
  and `float()` as partial parses.
*/
module Text {
  import opened Base

  /** The characters Python's `str.split()` and `str.strip()` treat as whitespace: the ASCII
      and Latin-1 ones and the Unicode space separators. */
  predicate IsSpace(c: char) {
    c == ' ' || c == '\t' || c == '\n' || c == '\r' || c == '\U{0B}' || c == '\U{0C}'
    || ('\U{1C}' <= c <= '\U{1F}') || c == '\U{85}' || c == '\U{A0}'
    || c == '\U{1680}' || ('\U{2000}' <= c <= '\U{200A}') || c == '\U{2028}' || c == '\U{2029}'
    || c == '\U{202F}' || c == '\U{205F}' || c == '\U{3000}'
  }

  predicate NoSpace(s: string) {
    forall i :: 0 <= i < |s| ==> !IsSpace(s[i])
  }

  predicate AllSpace(s: string) {
    forall i :: 0 <= i < |s| ==> IsSpace(s[i])
  }

  /** `s.lstrip()`: leading whitespace removed. */
  function TrimLeft(s: string): (r: string)
    ensures |r| <= |s|
  {
    if s != [] && IsSpace(s[0]) then
      TrimLeft(s[1..])
    else s
  }

  /** What lstrip removes is whitespace, and what it keeps is the rest of s. */
  lemma {:induction false} TrimLeftShape(s: string)
    ensures TrimLeft(s) == s[|s| - |TrimLeft(s)|..]
    ensures TrimLeft(s) == [] || !IsSpace(TrimLeft(s)[0])
    ensures AllSpace(s[..|s| - |TrimLeft(s)|])
  {
    if s != [] && IsSpace(s[0]) {
      TrimLeftShape(s[1..]);
      var r := TrimLeft(s);
      assert s[..|s| - |r|] == [s[0]] + s[1..][..|s| - 1 - |r|];
    }
  }

  /** `s.strip()`: whitespace removed from both ends. */
  function Strip(s: string): (r: string)
    ensures |r| <= |s|
    ensures r == [] || (!IsSpace(r[0]) && !IsSpace(r[|r| - 1]))
  {
    if s != [] && IsSpace(s[0]) then Strip(s[1..])
    else if s != [] && IsSpace(s[|s| - 1]) then Strip(s[..|s| - 1])
    else s
  }

  /** strip keeps a contiguous middle part of s and removes only whitespace around it. */
  lemma StripShape(s: string)
    ensures exists i, j :: (0 <= i <= j <= |s| && Strip(s) == s[i..j]
      && AllSpace(s[..i]) && AllSpace(s[j..]))
  {
    var i, j := StripBounds(s);
  }

  lemma {:induction false} StripBounds(s: string) returns (i: nat, j: nat)
    ensures i <= j <= |s| && Strip(s) == s[i..j]
    ensures AllSpace(s[..i]) && AllSpace(s[j..])
    decreases |s|, 1
  {
    if s != [] && IsSpace(s[0]) {
      i, j := StripBoundsFront(s);
    } else if s != [] && IsSpace(s[|s| - 1]) {
      i, j := StripBoundsBack(s);
    } else {
      i, j := 0, |s|;
      assert s[i..j] == s;
    }
  }

  lemma {:induction false} StripBoundsFront(s: string) returns (i: nat, j: nat)
    requires s != [] && IsSpace(s[0])
    ensures i <= j <= |s| && Strip(s) == s[i..j]
    ensures AllSpace(s[..i]) && AllSpace(s[j..])
    decreases |s|, 0
  {
    var t := s[1..];
    assert Strip(s) == Strip(t);
    var i', j' := StripBounds(t);
    i, j := i' + 1, j' + 1;
    assert s[..i] == [s[0]] + t[..i'];
    AllSpaceConcat([s[0]], t[..i']);
    assert s[j..] == t[j'..];
    assert s[i..j] == t[i'..j'];
  }

  lemma {:induction false} StripBoundsBack(s: string) returns (i: nat, j: nat)
    requires s != [] && !IsSpace(s[0]) && IsSpace(s[|s| - 1])
    ensures i <= j <= |s| && Strip(s) == s[i..j]
    ensures AllSpace(s[..i]) && AllSpace(s[j..])
    decreases |s|, 0
  {
    var t := s[..|s| - 1];
    assert Strip(s) == Strip(t);
    i, j := StripBounds(t);
    assert s[..i] == t[..i];
    assert s[j..] == t[j..] + [s[|s| - 1]];
    AllSpaceConcat(t[j..], [s[|s| - 1]]);
    assert s[i..j] == t[i..j];
  }

  lemma AllSpaceConcat(a: string, b: string)
    requires AllSpace(a) && AllSpace(b)
    ensures AllSpace(a + b)
  {
  }

  /** A string with no whitespace at either end is its own strip. */
  lemma StripUnchanged(s: string)
    requires s == [] || (!IsSpace(s[0]) && !IsSpace(s[|s| - 1]))
    ensures Strip(s) == s
  {
  }

  /** The length of the leading run of non-space characters. */
  function TokenEnd(s: string): (n: nat)
    ensures n <= |s|
  {
    if s == [] || IsSpace(s[0]) then 0 else
      1 + TokenEnd(s[1..])
  }

  /** The run TokenEnd measures holds no whitespace and ends at whitespace or at the end. */
  lemma {:induction false} TokenEndShape(s: string)
    ensures NoSpace(s[..TokenEnd(s)])
    ensures TokenEnd(s) == |s| || IsSpace(s[TokenEnd(s)])
  {
    if s != [] && !IsSpace(s[0]) {
      TokenEndShape(s[1..]);
      var n := TokenEnd(s);
      assert s[..n] == [s[0]] + s[1..][..n - 1];
    }
  }

  /** `s.split()`: the maximal runs of non-space characters, in order. */
  function Split(s: string): (r: seq<string>)
    decreases |s|
  {
    var t := TrimLeft(s);
    if t == [] then [] else
      var n := TokenEnd(t);
      [t[..n]] + Split(t[n..])
  }

  /** Every field of a split is non-empty and holds no whitespace. */
  lemma {:induction false} SplitFields(s: string)
    ensures forall k :: 0 <= k < |Split(s)| ==> Split(s)[k] != [] && NoSpace(Split(s)[k])
    decreases |s|
  {
    var t := TrimLeft(s);
    if t != [] {
      TrimLeftShape(s);
      TokenEndShape(t);
      var n := TokenEnd(t);
      SplitFields(t[n..]);
      assert Split(s) == [t[..n]] + Split(t[n..]);
    }
  }

  /** A whitespace-only string splits into nothing. */
  lemma SplitAllSpace(s: string)
    requires AllSpace(s)
    ensures Split(s) == []
  {
    if s != [] {
      assert IsSpace(s[0]);
      SplitAllSpace(s[1..]);
    }
  }

  /** A token followed by whitespace splits off as the first field. */
  lemma {:induction false} SplitToken(tok: string, sep: string, rest: string)
    requires tok != [] && NoSpace(tok)
    requires sep != [] && AllSpace(sep)
    ensures Split(tok + sep + rest) == [tok] + Split(sep + rest)
  {
    var s := tok + sep + rest;
    assert s[0] == tok[0];
    assert TrimLeft(s) == s;
    TokenEndOf(tok, sep + rest);
    assert s == tok + (sep + rest);
    assert s[..|tok|] == tok;
    assert s[|tok|..] == sep + rest;
  }

  lemma {:induction false} TokenEndOf(tok: string, rest: string)
    requires NoSpace(tok)
    requires rest == [] || IsSpace(rest[0])
    ensures TokenEnd(tok + rest) == |tok|
  {
    if tok != [] {
      assert (tok + rest)[1..] == tok[1..] + rest;
      TokenEndOf(tok[1..], rest);
    } else {
      assert tok + rest == rest;
    }
  }

  /** Leading whitespace does not change the split. */
  lemma {:induction false} SplitSkipsSpace(sep: string, rest: string)
    requires AllSpace(sep)
    ensures Split(sep + rest) == Split(rest)
  {
    if sep != [] {
      assert (sep + rest)[0] == sep[0];
      assert (sep + rest)[1..] == sep[1..] + rest;
      SplitSkipsSpace(sep[1..], rest);
      assert TrimLeft(sep + rest) == TrimLeft(sep[1..] + rest);
    } else {
      assert sep + rest == rest;
    }
  }

  /** A single token splits into itself. */
  lemma SplitOne(tok: string)
    requires tok != [] && NoSpace(tok)
    ensures Split(tok) == [tok]
  {
    TokenEndOf(tok, []);
    assert tok + [] == tok;
    assert tok[|tok|..] == [];
  }

  /** A line of three tokens joined by one whitespace separator and ended by a newline strips
      and splits back into the three tokens. */
  lemma SplitLine(a: string, b: string, c: string, sep: string)
    requires a != [] && NoSpace(a) && b != [] && NoSpace(b) && c != [] && NoSpace(c)
    requires sep != [] && AllSpace(sep)
    ensures Split(Strip(a + sep + b + sep + c + "\n")) == [a, b, c]
  {
    var core := a + sep + b + sep + c;
    assert core[0] == a[0] && core[|core| - 1] == c[|c| - 1];
    StripNewline(core);
    SplitThree(a, b, c, sep);
  }

  lemma StripNewline(core: string)
    requires core != [] && !IsSpace(core[0]) && !IsSpace(core[|core| - 1])
    ensures Strip(core + "\n") == core
  {
    var line := core + "\n";
    assert line[0] == core[0] && line[..|line| - 1] == core;
    StripUnchanged(core);
  }

  lemma SplitThree(a: string, b: string, c: string, sep: string)
    requires a != [] && NoSpace(a) && b != [] && NoSpace(b) && c != [] && NoSpace(c)
    requires sep != [] && AllSpace(sep)
    ensures Split(a + sep + b + sep + c) == [a, b, c]
  {
    assert a + sep + b + sep + c == a + sep + (b + sep + c);
    SplitToken(a, sep, b + sep + c);
    SplitSkipsSpace(sep, b + sep + c);
    SplitToken(b, sep, c);
    SplitSkipsSpace(sep, c);
    SplitOne(c);
  }

  /** Python's `sub in s`. */
  predicate Contains(s: string, sub: string)
    decreases |s|
  {
    (|sub| <= |s| && s[..|sub|] == sub) || (s != [] && Contains(s[1..], sub))
  }

  /** Python's `s.startswith(p)`. */
  predicate StartsWith(s: string, p: string) {
    |p| <= |s| && s[..|p|] == p
  }

  /** `s.split(c)` for a one-character separator: the pieces between the separators; always at least one. */
  function SplitOn(s: string, c: char): (r: seq<string>)
    ensures |r| >= 1
    ensures |r| == 1 <==> c !in s
    ensures c !in r[0]
  {
    if c !in s then [s] else
      var i := IndexOf(s, c);
      [s[..i]] + SplitOn(s[i + 1..], c)
  }

  /** `line.split(":")[1].strip()`: the text between the first colon and the next one, stripped;
      IndexError when the line has no colon. */
  function FieldAfterColon(line: string): (r: Result<string>)
    ensures r.Err? <==> ':' !in line
    ensures r.Err? ==> r.error == IndexError
  {
    var parts := SplitOn(line, ':');
    if |parts| < 2 then Err(IndexError) else Ok(Strip(parts[1]))
  }

  predicate IsDigit(c: char) {
    '0' <= c <= '9'
  }

  predicate AllDigits(s: string) {
    forall i :: 0 <= i < |s| ==> IsDigit(s[i])
  }

  function DigitValue(c: char): (d: nat)
    requires IsDigit(c)
    ensures d < 10
  {
    c as int - '0' as int
  }

  function DigitChar(d: nat): (c: char)
    requires d < 10
    ensures IsDigit(c) && DigitValue(c) == d
  {
    ('0' as int + d) as char
  }

  /** The value of a string of decimal digits. */
  function DigitsValue(s: string): nat
    requires AllDigits(s)
  {
    if s == [] then 0 else 10 * DigitsValue(s[..|s| - 1]) + DigitValue(s[|s| - 1])
  }

  /** The decimal digits of n, without leading zeros. */
  function NatDigits(n: nat): (s: string)
    ensures s != [] && AllDigits(s)
    ensures s[0] != '0' || n == 0
  {
    if n < 10 then [DigitChar(n)] else NatDigits(n / 10) + [DigitChar(n % 10)]
  }

  lemma {:induction false} NatDigitsValue(n: nat)
    ensures DigitsValue(NatDigits(n)) == n
  {
    if n >= 10 {
      var s := NatDigits(n);
      assert s[..|s| - 1] == NatDigits(n / 10);
      NatDigitsValue(n / 10);
    }
  }

  /** `str(i)` for an int. */
  function IntToString(i: int): (s: string)
    ensures s != [] && NoSpace(s)
  {
    if i < 0 then "-" + NatDigits(-i) else NatDigits(i)
  }

  /** An optional leading sign: whether it is a minus, and the rest. */
  function SplitSign(t: string): (string, bool) {
    if t != [] && (t[0] == '-' || t[0] == '+') then (t[1..], t[0] == '-') else (t, false)
  }

  /** `int(s)` for decimal literals: surrounding whitespace, an optional sign, one or more digits.
      None stands for the ValueError Python raises. */
  function ParseInt(s: string): Option<int> {
    var (body, negative) := SplitSign(Strip(s));
    if body != [] && AllDigits(body) then
      var v: int := DigitsValue(body);
      Some(if negative then -v else v)
    else None
  }

  /** `int(str(i)) == i`. */
  lemma {:induction false} ParseIntToString(i: int)
    ensures ParseInt(IntToString(i)) == Some(i)
  {
    var body, negative := IntToStringParts(i);
    NatDigitsValue(if i < 0 then -i else i);
  }

  /** str(i) is its own strip, and splits into its sign and its digits. */
  lemma IntToStringParts(i: int) returns (body: string, negative: bool)
    ensures Strip(IntToString(i)) == IntToString(i)
    ensures SplitSign(IntToString(i)) == (body, negative)
    ensures negative == (i < 0)
    ensures body == NatDigits(if i < 0 then -i else i)
  {
    var s := IntToString(i);
    assert !IsSpace(s[0]) && !IsSpace(s[|s| - 1]);
    StripUnchanged(s);
    if i < 0 {
      assert s[0] == '-' && s[1..] == NatDigits(-i);
      body, negative := NatDigits(-i), true;
    } else {
      assert IsDigit(s[0]);
      body, negative := s, false;
    }
  }

  /** A parsed `float` literal: the value mantissa * 10^exponent. */
  datatype Decimal = Decimal(mantissa: int, exponent: int)

  /** The length of the leading run of digits. */
  function DigitRun(s: string): (n: nat)
    ensures n <= |s| && AllDigits(s[..n])
    ensures n == |s| || !IsDigit(s[n])
  {
    if s == [] || !IsDigit(s[0]) then 0 else
      var n := 1 + DigitRun(s[1..]);
      assert s[..n] == [s[0]] + s[1..][..n - 1];
      n
  }

  /** The exponent part of a float literal: empty, or e/E, an optional sign and digits. */
  function ParseExponent(s: string): Option<int> {
    if s == [] then Some(0)
    else if s[0] == 'e' || s[0] == 'E' then
      var (digits, negative) := SplitSign(s[1..]);
      if digits != [] && AllDigits(digits) then
        var v: int := DigitsValue(digits);
        Some(if negative then -v else v)
      else None
    else None
  }

  /** `float(s)` for decimal literals: an optional sign, digits with an optional
      point (at least one digit in all), an optional exponent. None stands for the
      ValueError Python raises. */
  function ParseDecimal(s: string): Option<Decimal> {
    var (body, negative) := SplitSign(Strip(s));
    var ip := DigitRun(body);
    var rest := body[ip..];
    var (frac, tail) :=
      if rest != [] && rest[0] == '.' then
        var fp := DigitRun(rest[1..]); (rest[1..][..fp], rest[1..][fp..])
      else ([], rest);
    if ip == 0 && frac == [] then None else
      match ParseExponent(tail)
      case None => None
      case Some(e) =>
        var m: int := DigitsValue(body[..ip] + frac);
        Some(Decimal(if negative then -m else m, e - |frac|))
  }

  /** `float(str(i)) == i` for an int i. */
  lemma {:induction false} ParseDecimalOfInt(i: int)
    ensures ParseDecimal(IntToString(i)) == Some(Decimal(i, 0))
  {
    var body, negative := IntToStringParts(i);
    NatDigitsValue(if i < 0 then -i else i);
    DigitRunAll(body);
    assert body[|body|..] == [];
    assert body[..|body|] + [] == body;
  }

  lemma DigitRunAll(s: string)
    requires AllDigits(s)
    ensures DigitRun(s) == |s|
  {
  }
}
