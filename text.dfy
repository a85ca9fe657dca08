/** String helpers shared by the pages, the import script and the Django forms.
    Strings are sequences of Unicode scalar values; case mapping is ASCII only. */
module Text {

  /** Characters removed by JavaScript's `String.prototype.trim` (WhiteSpace and LineTerminator). */
  predicate IsJsSpace(c: char) {
    c == ' ' || ('\t' <= c <= '\r') || c == '\U{00A0}' || c == '\U{1680}'
    || ('\U{2000}' <= c <= '\U{200A}') || c == '\U{2028}' || c == '\U{2029}'
    || c == '\U{202F}' || c == '\U{205F}' || c == '\U{3000}' || c == '\U{FEFF}'
  }

  /** Characters removed by Python's `str.strip()` with no argument (`str.isspace`). */
  predicate IsPySpace(c: char) {
    ('\t' <= c <= '\r') || ('\U{001C}' <= c <= ' ') || c == '\U{0085}' || c == '\U{00A0}'
    || c == '\U{1680}' || ('\U{2000}' <= c <= '\U{200A}') || c == '\U{2028}' || c == '\U{2029}'
    || c == '\U{202F}' || c == '\U{205F}' || c == '\U{3000}'
  }

  /** `s` without its leading run of `space` characters. */
  function DropLeading(s: string, space: char -> bool): string {
    if s != [] && space(s[0]) then DropLeading(s[1..], space) else s
  }

  /** `s` without its trailing run of `space` characters. */
  function DropTrailing(s: string, space: char -> bool): string {
    if s != [] && space(s[|s| - 1]) then DropTrailing(s[..|s| - 1], space) else s
  }

  /** `s` without its leading and trailing `space` characters. */
  function Strip(s: string, space: char -> bool): (r: string) {
    DropTrailing(DropLeading(s, space), space)
  }

  /** Dropping the leading spaces leaves a suffix that does not start with a space. */
  lemma {:induction false} DropLeadingSuffix(s: string, space: char -> bool)
    ensures var r := DropLeading(s, space);
            && |r| <= |s| && r == s[|s| - |r|..]
            && (forall k :: 0 <= k < |s| - |r| ==> space(s[k]))
            && (r != [] ==> !space(r[0]))
  {
    if s != [] && space(s[0]) {
      var t := s[1..];
      DropLeadingSuffix(t, space);
      var r := DropLeading(t, space);
      assert DropLeading(s, space) == r;
      assert t[|t| - |r|..] == s[|s| - |r|..];
      forall k | 0 <= k < |s| - |r| ensures space(s[k]) {
        if k > 0 {
          assert s[k] == t[k - 1];
        }
      }
    }
  }

  /** Dropping the trailing spaces leaves a prefix that does not end with a space. */
  lemma {:induction false} DropTrailingPrefix(s: string, space: char -> bool)
    ensures var r := DropTrailing(s, space);
            && |r| <= |s| && r == s[..|r|]
            && (forall k :: |r| <= k < |s| ==> space(s[k]))
            && (r != [] ==> !space(r[|r| - 1]))
  {
    if s != [] && space(s[|s| - 1]) {
      var t := s[..|s| - 1];
      DropTrailingPrefix(t, space);
      var r := DropTrailing(t, space);
      assert DropTrailing(s, space) == r;
      assert t[..|r|] == s[..|r|];
      forall k | |r| <= k < |s| ensures space(s[k]) {
        if k < |t| {
          assert s[k] == t[k];
        }
      }
    }
  }

  /** Stripping leaves nothing exactly when every character is a space, and otherwise
      leaves a string that starts and ends with a non-space. */
  lemma StripEnds(s: string, space: char -> bool)
    ensures var r := Strip(s, space);
            && (r == [] <==> forall k :: 0 <= k < |s| ==> space(s[k]))
            && (r != [] ==> !space(r[0]) && !space(r[|r| - 1]))
  {
    var t := DropLeading(s, space);
    DropLeadingSuffix(s, space);
    DropTrailingPrefix(t, space);
    var r := DropTrailing(t, space);
    if r == [] {
      assert t == [];
    } else {
      assert r[0] == t[0];
    }
  }

  /** A string that neither starts nor ends with a space is its own stripped form. */
  lemma StripUnchanged(s: string, space: char -> bool)
    requires s != [] ==> !space(s[0]) && !space(s[|s| - 1])
    ensures Strip(s, space) == s
  {
    assert DropLeading(s, space) == s;
  }

  /** JavaScript `s.trim()`. */
  function Trim(s: string): string {
    Strip(s, IsJsSpace)
  }

  /** Python `s.strip()`. */
  function PyStrip(s: string): string {
    Strip(s, IsPySpace)
  }

  /** A string that `trim()` turns into the empty, falsy string. */
  predicate IsBlank(s: string) {
    forall k :: 0 <= k < |s| ==> IsJsSpace(s[k])
  }

  lemma TrimBlank(s: string)
    ensures Trim(s) == [] <==> IsBlank(s)
  {
    StripEnds(s, IsJsSpace);
  }

  /** Stripping twice strips nothing more. */
  lemma StripIdempotent(s: string, space: char -> bool)
    ensures Strip(Strip(s, space), space) == Strip(s, space)
  {
    StripEnds(s, space);
    StripUnchanged(Strip(s, space), space);
  }

  function UpperChar(c: char): char {
    if 'a' <= c <= 'z' then (c as int - 32) as char else c
  }

  function LowerChar(c: char): char {
    if 'A' <= c <= 'Z' then (c as int + 32) as char else c
  }

  /** `toUpperCase()` / `upper()` on the ASCII letters; every other character is kept. */
  function ToUpper(s: string): (r: string)
    ensures |r| == |s|
    ensures forall k :: 0 <= k < |s| ==> r[k] == UpperChar(s[k])
  {
    seq(|s|, k requires 0 <= k < |s| => UpperChar(s[k]))
  }

  /** `toLowerCase()` on the ASCII letters; every other character is kept. */
  function ToLower(s: string): (r: string)
    ensures |r| == |s|
    ensures forall k :: 0 <= k < |s| ==> r[k] == LowerChar(s[k])
  {
    seq(|s|, k requires 0 <= k < |s| => LowerChar(s[k]))
  }

  predicate OccursAt(s: string, w: string, i: int) {
    0 <= i && i + |w| <= |s| && s[i..i + |w|] == w
  }

  /** `s.includes(w)` / Python `w in s`. */
  function Contains(s: string, w: string): bool
    decreases |s|
  {
    if |s| < |w| then false
    else if s[..|w|] == w then true
    else Contains(s[1..], w)
  }

  lemma {:induction false} ContainsOccurs(s: string, w: string)
    ensures Contains(s, w) <==> exists i :: OccursAt(s, w, i)
    decreases |s|
  {
    if |s| < |w| {
    } else if s[..|w|] == w {
      assert OccursAt(s, w, 0);
    } else {
      ContainsOccurs(s[1..], w);
      if Contains(s[1..], w) {
        var i :| OccursAt(s[1..], w, i);
        assert s[i + 1..i + 1 + |w|] == s[1..][i..i + |w|];
        assert OccursAt(s, w, i + 1);
      } else {
        forall i | OccursAt(s, w, i) ensures false {
          if i == 0 {
          } else {
            assert s[1..][i - 1..i - 1 + |w|] == s[i..i + |w|];
            assert OccursAt(s[1..], w, i - 1);
          }
        }
      }
    }
  }

  /** Every character of a contained word occurs in the string. */
  lemma ContainsChar(s: string, w: string, j: int)
    requires Contains(s, w) && 0 <= j < |w|
    ensures w[j] in s
  {
    ContainsOccurs(s, w);
    var i :| OccursAt(s, w, i);
    assert s[i..i + |w|][j] == s[i + j];
  }

  /** A string contains itself at its start. */
  lemma ContainsPrefix(w: string, rest: string)
    ensures Contains(w + rest, w)
  {
    assert (w + rest)[..|w|] == w;
  }

  predicate IsDigit(c: char) {
    '0' <= c <= '9'
  }

  predicate AllDigits(s: string) {
    forall k :: 0 <= k < |s| ==> IsDigit(s[k])
  }

  function DigitChar(d: int): char
    requires 0 <= d < 10
  {
    ('0' as int + d) as char
  }

  function DigitValue(c: char): int
    requires IsDigit(c)
  {
    c as int - '0' as int
  }

  /** Decimal value of a string of digits (`parseInt` on such a string). */
  function DigitsValue(s: string): nat
    requires AllDigits(s)
  {
    if s == [] then 0 else DigitsValue(s[..|s| - 1]) * 10 + DigitValue(s[|s| - 1])
  }

  /** Decimal notation of a natural number, without leading zeros. */
  function NatToString(n: nat): (r: string)
    ensures |r| >= 1 && AllDigits(r)
  {
    if n < 10 then [DigitChar(n)] else NatToString(n / 10) + [DigitChar(n % 10)]
  }

  /** `${n}` for an integral JavaScript number. */
  function IntToString(i: int): string {
    if i < 0 then "-" + NatToString(-i) else NatToString(i)
  }

  lemma {:induction false} NatToStringValue(n: nat)
    ensures DigitsValue(NatToString(n)) == n
  {
    if n >= 10 {
      NatToStringValue(n / 10);
      var s := NatToString(n);
      assert s[..|s| - 1] == NatToString(n / 10);
    }
  }

  /** A written integer starts with '-' exactly when it is negative. */
  lemma IntToStringSign(i: int)
    ensures |IntToString(i)| > 0
    ensures IntToString(i)[0] == '-' <==> i < 0
  {
    if i >= 0 {
      assert IsDigit(NatToString(i)[0]);
    }
  }

  /** Different natural numbers are written differently. */
  lemma NatToStringInjective(m: nat, n: nat)
    requires NatToString(m) == NatToString(n)
    ensures m == n
  {
    NatToStringValue(m);
    NatToStringValue(n);
  }

  /** Different integers are written differently. */
  lemma IntToStringInjective(i: int, j: int)
    requires IntToString(i) == IntToString(j)
    ensures i == j
  {
    IntToStringSign(i);
    IntToStringSign(j);
    if i < 0 {
      assert IntToString(i)[1..] == NatToString(-i);
      assert IntToString(j)[1..] == NatToString(-j);
      NatToStringInjective(-i, -j);
    } else {
      NatToStringInjective(i, j);
    }
  }

  /** A year of the 1900s or 2000s is written as four digits starting with 19 or 20. */
  lemma YearDigits(y: int)
    requires 1900 <= y <= 2099
    ensures |NatToString(y)| == 4
    ensures var s := NatToString(y); (s[0] == '1' && s[1] == '9') || (s[0] == '2' && s[1] == '0')
    ensures DigitsValue(NatToString(y)) == y
  {
    NatToStringValue(y);
    var a, b, c := y / 1000, y / 100, y / 10;
    if y < 2000 {
      assert a == 1 && b == 19 && 190 <= c < 200;
    } else {
      assert a == 2 && b == 20 && 200 <= c < 210;
    }
    assert c / 10 == b && b / 10 == a;
    assert NatToString(a) == [DigitChar(a)];
    assert NatToString(b) == NatToString(a) + [DigitChar(b % 10)];
    assert NatToString(c) == NatToString(b) + [DigitChar(c % 10)];
    assert NatToString(y) == NatToString(c) + [DigitChar(y % 10)];
  }

  /** Ordinal (code point by code point) order on strings: a prefix comes first. */
  predicate StringLe(a: string, b: string) {
    a == [] || (b != [] && (a[0] < b[0] || (a[0] == b[0] && StringLe(a[1..], b[1..]))))
  }

  lemma {:induction false} StringLeTotal(a: string, b: string)
    ensures StringLe(a, b) || StringLe(b, a)
  {
    if a != [] && b != [] && a[0] == b[0] {
      StringLeTotal(a[1..], b[1..]);
    }
  }

  lemma {:induction false} StringLeTrans(a: string, b: string, c: string)
    requires StringLe(a, b) && StringLe(b, c)
    ensures StringLe(a, c)
  {
    if a != [] && b != [] && c != [] && a[0] == b[0] && b[0] == c[0] {
      StringLeTrans(a[1..], b[1..], c[1..]);
    }
  }

  /** Strings that precede each other are equal. */
  lemma {:induction false} StringLeAntisymmetric(a: string, b: string)
    requires StringLe(a, b) && StringLe(b, a)
    ensures a == b
  {
    if a != [] && b != [] {
      StringLeAntisymmetric(a[1..], b[1..]);
      assert a == [a[0]] + a[1..] && b == [b[0]] + b[1..];
    }
  }
}
