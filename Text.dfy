/** String helpers with the meaning Python's str methods give them in the script:
    strip(), lower(), the `in` substring test, split(sep), the ASCII `\d` class
    of the regular expressions, str() of an int and int() of a string. */
module Text {
  import opened Outcomes

  // ---------------------------------------------------------------------
  // Whitespace and strip()
  // ---------------------------------------------------------------------

  /** The characters Python's str.isspace() accepts, which strip() removes. */
  predicate IsSpace(c: char) {
    || ('\t' <= c <= '\r')
    || ('\U{1C}' <= c <= ' ')
    || c == '\U{85}' || c == '\U{A0}' || c == '\U{1680}'
    || ('\U{2000}' <= c <= '\U{200A}')
    || c == '\U{2028}' || c == '\U{2029}' || c == '\U{202F}' || c == '\U{205F}' || c == '\U{3000}'
  }

  /** Drops leading whitespace. */
  function TrimStart(s: string): (r: string)
    ensures |r| <= |s| && r == s[|s| - |r|..]
    ensures r == [] || !IsSpace(r[0])
    ensures forall i :: 0 <= i < |s| - |r| ==> IsSpace(s[i])
  {
    if |s| > 0 && IsSpace(s[0]) then TrimStart(s[1..]) else s
  }

  /** Drops trailing whitespace. */
  function TrimEnd(s: string): (r: string)
    ensures |r| <= |s| && r == s[..|r|]
    ensures r == [] || !IsSpace(r[|r| - 1])
    ensures forall i :: |r| <= i < |s| ==> IsSpace(s[i])
  {
    if |s| > 0 && IsSpace(s[|s| - 1]) then TrimEnd(s[..|s| - 1]) else s
  }

  /** Python's str.strip() with no argument: leading and trailing whitespace
      dropped, so neither end of the result is whitespace, and the result is
      empty exactly when s is all whitespace. */
  function Strip(s: string): (r: string)
    ensures |r| <= |s|
    ensures r == [] || (!IsSpace(r[0]) && !IsSpace(r[|r| - 1]))
    ensures r == [] <==> forall k :: 0 <= k < |s| ==> IsSpace(s[k])
  {
    TrimEnd(TrimStart(s))
  }

  /** A string with no whitespace at either end is its own strip(). */
  lemma StripUnspaced(s: string)
    requires s == [] || (!IsSpace(s[0]) && !IsSpace(s[|s| - 1]))
    ensures Strip(s) == s
  {
  }

  // ---------------------------------------------------------------------
  // lower()
  // ---------------------------------------------------------------------

  /** Lower-casing of the ASCII capitals and the Greek capitals (with and
      without tonos); every other character is left as it is. */
  function LowerChar(c: char): char {
    if 'A' <= c <= 'Z' then (c as int + 32) as char
    else if '\U{0391}' <= c <= '\U{03AB}' && c != '\U{03A2}' then (c as int + 32) as char
    else if c == '\U{0386}' then '\U{03AC}'
    else if '\U{0388}' <= c <= '\U{038A}' then (c as int + 37) as char
    else if c == '\U{038C}' then '\U{03CC}'
    else if c == '\U{038E}' || c == '\U{038F}' then (c as int + 63) as char
    else c
  }

  function Lower(s: string): (r: string)
    ensures |r| == |s|
    ensures forall i :: 0 <= i < |s| ==> r[i] == LowerChar(s[i])
  {
    if s == [] then [] else [LowerChar(s[0])] + Lower(s[1..])
  }

  // ---------------------------------------------------------------------
  // The `in` substring test
  // ---------------------------------------------------------------------

  /** Python's `pat in s` for strings. */
  function Contains(s: string, pat: string): bool
    decreases |s|
  {
    if pat <= s then true
    else if |s| == 0 then false
    else Contains(s[1..], pat)
  }

  /** pat occurs in s starting at position i. */
  predicate OccursAt(s: string, pat: string, i: int) {
    0 <= i <= |s| - |pat| && s[i..i + |pat|] == pat
  }

  /** Contains holds exactly when the pattern occurs at some position. */
  lemma {:induction false} ContainsOccurs(s: string, pat: string)
    ensures Contains(s, pat) <==> exists i :: OccursAt(s, pat, i)
  {
    if pat <= s {
      assert OccursAt(s, pat, 0);
    } else if |s| == 0 {
    } else {
      ContainsOccurs(s[1..], pat);
      if exists i :: OccursAt(s, pat, i) {
        var i :| OccursAt(s, pat, i);
        if i == 0 {
          assert false;
        } else {
          assert OccursAt(s[1..], pat, i - 1);
        }
      }
      if exists j :: OccursAt(s[1..], pat, j) {
        var j :| OccursAt(s[1..], pat, j);
        assert OccursAt(s, pat, j + 1);
      }
    }
  }

  /** A non-empty pattern whose first character never occurs in s does not
      occur in s. */
  lemma {:induction false} NotContainsWithoutFirst(s: string, pat: string)
    requires |pat| > 0
    requires forall i :: 0 <= i < |s| ==> s[i] != pat[0]
    ensures !Contains(s, pat)
  {
    if |s| > 0 {
      assert s[0] != pat[0];
      assert !(pat <= s);
      NotContainsWithoutFirst(s[1..], pat);
    } else {
      assert !(pat <= s);
    }
  }

  // ---------------------------------------------------------------------
  // split(sep)
  // ---------------------------------------------------------------------

  /** Joins the parts with the separator between consecutive parts. */
  function Join(parts: seq<string>, sep: char): string
    requires |parts| >= 1
  {
    if |parts| == 1 then parts[0] else parts[0] + [sep] + Join(parts[1..], sep)
  }

  /** The number of occurrences of c in s. */
  function Count(s: string, c: char): nat {
    if s == [] then 0 else (if s[0] == c then 1 else 0) + Count(s[1..], c)
  }

  /** Python's str.split(sep) with a one-character separator: there is always
      one more part than separators, no part holds a separator, and joining the
      parts gives the input back. */
  function Split(s: string, sep: char): (parts: seq<string>)
    ensures |parts| == Count(s, sep) + 1
    ensures forall k :: 0 <= k < |parts| ==> sep !in parts[k]
    ensures Join(parts, sep) == s
  {
    if s == [] then [""]
    else
      var rest := Split(s[1..], sep);
      if s[0] == sep then [""] + rest
      else [[s[0]] + rest[0]] + rest[1..]
  }

  /** Splitting undoes joining parts that hold no separator. */
  lemma {:induction false} SplitJoin(parts: seq<string>, sep: char)
    requires |parts| >= 1
    requires forall k :: 0 <= k < |parts| ==> sep !in parts[k]
    ensures Split(Join(parts, sep), sep) == parts
  {
    var s := Join(parts, sep);
    var r := Split(s, sep);
    assert Join(r, sep) == s;
    JoinInjective(r, parts, sep);
  }

  /** Two separator-free part lists with the same join are equal. */
  lemma {:induction false} JoinInjective(a: seq<string>, b: seq<string>, sep: char)
    requires |a| >= 1 && |b| >= 1
    requires forall k :: 0 <= k < |a| ==> sep !in a[k]
    requires forall k :: 0 <= k < |b| ==> sep !in b[k]
    requires Join(a, sep) == Join(b, sep)
    ensures a == b
  {
    var s := Join(a, sep);
    FirstPart(a, sep);
    FirstPart(b, sep);
    if |a| == 1 && |b| == 1 {
    } else if |a| == 1 {
      assert false;
    } else if |b| == 1 {
      assert false;
    } else {
      assert a[0] == b[0];
      var ta, tb := Join(a[1..], sep), Join(b[1..], sep);
      assert s == a[0] + [sep] + ta;
      assert s == b[0] + [sep] + tb;
      assert ta == s[|a[0]| + 1..];
      assert tb == s[|b[0]| + 1..];
      JoinInjective(a[1..], b[1..], sep);
      assert a == [a[0]] + a[1..];
      assert b == [b[0]] + b[1..];
    }
  }

  /** The first part is the prefix before the first separator. */
  lemma FirstPart(parts: seq<string>, sep: char)
    requires |parts| >= 1
    requires sep !in parts[0]
    ensures parts[0] <= Join(parts, sep)
    ensures |parts| > 1 ==> |parts[0]| < |Join(parts, sep)| && Join(parts, sep)[|parts[0]|] == sep
    ensures |parts| == 1 ==> Join(parts, sep) == parts[0]
  {
  }

  // ---------------------------------------------------------------------
  // ASCII digits and decimal numbers
  // ---------------------------------------------------------------------

  predicate IsDigit(c: char) {
    '0' <= c <= '9'
  }

  predicate AllDigits(s: string) {
    forall i :: 0 <= i < |s| ==> IsDigit(s[i])
  }

  function Pow10(n: nat): (p: nat)
    ensures p >= 1
  {
    if n == 0 then 1 else 10 * Pow10(n - 1)
  }

  function DigitValue(c: char): nat
    requires IsDigit(c)
  {
    c as int - '0' as int
  }

  function DigitChar(d: nat): (c: char)
    requires d < 10
    ensures IsDigit(c) && DigitValue(c) == d
  {
    ('0' as int + d) as char
  }

  /** The value of a string of decimal digits (leading zeros allowed); it is
      below 10 to the power of the string's length. */
  function DigitsValue(s: string): (n: nat)
    requires AllDigits(s)
    ensures n < Pow10(|s|)
  {
    if s == [] then 0 else DigitsValue(s[..|s| - 1]) * 10 + DigitValue(s[|s| - 1])
  }

  /** str() of a natural number: its shortest decimal form. */
  function Decimal(n: nat): (s: string)
    ensures 1 <= |s| && AllDigits(s)
    ensures DigitsValue(s) == n
    ensures |s| > 1 ==> s[0] != '0'
  {
    if n < 10 then [DigitChar(n)]
    else
      var s := Decimal(n / 10) + [DigitChar(n % 10)];
      assert s[..|s| - 1] == Decimal(n / 10);
      s
  }

  /** str() of an integer. */
  function IntToString(n: int): (s: string)
    ensures |s| >= 1
  {
    if n < 0 then "-" + Decimal(-n) else Decimal(n)
  }

  // ---------------------------------------------------------------------
  // int() of a string
  // ---------------------------------------------------------------------

  /** Only digits and underscores. */
  predicate DigitsOrUnderscores(s: string) {
    forall i :: 0 <= i < |s| ==> IsDigit(s[i]) || s[i] == '_'
  }

  /** A digit run as Python accepts it inside an integer literal: digits, with
      single underscores allowed between two digits. */
  predicate IsDigitRun(s: string) {
    && |s| > 0
    && IsDigit(s[0]) && IsDigit(s[|s| - 1])
    && DigitsOrUnderscores(s)
    && (forall i, j :: 0 <= i < |s| && 0 <= j < |s| && j == i + 1 ==> !(s[i] == '_' && s[j] == '_'))
  }

  /** The digits of s with every underscore removed. */
  function DropUnderscores(s: string): (r: string)
    requires DigitsOrUnderscores(s)
    ensures AllDigits(r)
    ensures AllDigits(s) ==> r == s
  {
    if s == [] then []
    else if s[0] == '_' then DropUnderscores(s[1..])
    else [s[0]] + DropUnderscores(s[1..])
  }

  /** A digit or a sign, then digits and underscores. */
  predicate LiteralChars(t: string) {
    && |t| > 0
    && (IsDigit(t[0]) || t[0] == '+' || t[0] == '-')
    && DigitsOrUnderscores(t[1..])
  }

  /** Python's int(s) for a string: surrounding whitespace, an optional sign
      and a digit run; anything else raises ValueError (None here). */
  function ParseInt(s: string): (r: Option<int>)
    ensures r.Some? ==> LiteralChars(Strip(s))
  {
    var t := Strip(s);
    if |t| == 0 then None
    else if t[0] == '-' then
      if IsDigitRun(t[1..]) then Some(-(DigitsValue(DropUnderscores(t[1..])) as int)) else None
    else if t[0] == '+' then
      if IsDigitRun(t[1..]) then Some(DigitsValue(DropUnderscores(t[1..])) as int) else None
    else if IsDigitRun(t) then
      assert DigitsOrUnderscores(t[1..]) by {
        forall i | 0 <= i < |t| - 1 ensures IsDigit(t[1..][i]) || t[1..][i] == '_' {
          assert t[1..][i] == t[i + 1];
        }
      }
      Some(DigitsValue(DropUnderscores(t)) as int)
    else None
  }

  /** A decimal numeral is a digit run without underscores. */
  lemma DecimalRun(d: string)
    requires |d| >= 1 && AllDigits(d)
    ensures IsDigitRun(d) && DropUnderscores(d) == d
  {
  }

  /** int(str(n)) == n. */
  lemma IntToStringRoundTrip(n: int)
    ensures ParseInt(IntToString(n)) == Some(n)
  {
    var s := IntToString(n);
    var d := Decimal(if n < 0 then -n else n);
    assert !IsSpace(s[0]) && !IsSpace(s[|s| - 1]);
    StripUnspaced(s);
    ParseIntDecimal(s);
    if n < 0 {
      assert s[0] == '-' && s[1..] == d;
    } else {
      assert s == d && s[0] != '-' && s[0] != '+';
    }
  }

  /** The literals int() accepts beyond plain decimals: an unsigned or
      '+'-signed digit run whose single underscores between digits are
      ignored, and a '-'-signed one that is negated. */
  lemma {:induction false} ParseIntUnderscores(s: string)
    ensures var t := Strip(s); IsDigitRun(t) ==> ParseInt(s) == Some(DigitsValue(DropUnderscores(t)))
    ensures var t := Strip(s); |t| > 1 && t[0] == '+' && IsDigitRun(t[1..]) ==>
      ParseInt(s) == Some(DigitsValue(DropUnderscores(t[1..])))
    ensures var t := Strip(s); |t| > 1 && t[0] == '-' && IsDigitRun(t[1..]) ==>
      ParseInt(s) == Some(-(DigitsValue(DropUnderscores(t[1..])) as int))
  {
    var t := Strip(s);
    if IsDigitRun(t) {
      assert t[0] != '-' && t[0] != '+';
    }
  }

  /** Every other text is refused: int() raises unless the stripped text is a
      digit run, possibly after one sign. */
  lemma {:induction false} ParseIntRejects(s: string)
    ensures var t := Strip(s);
      !(IsDigitRun(t) || (|t| > 1 && (t[0] == '+' || t[0] == '-') && IsDigitRun(t[1..]))) ==> ParseInt(s) == None
  {
    var t := Strip(s);
    if |t| > 0 && IsDigit(t[0]) {
      assert t[0] != '-' && t[0] != '+';
    }
  }

  /** A plain decimal, unsigned or after '-', reads as its value. */
  lemma {:induction false} ParseIntDecimal(s: string)
    ensures var t := Strip(s); |t| > 0 && AllDigits(t) ==> ParseInt(s) == Some(DigitsValue(t))
    ensures var t := Strip(s); |t| > 1 && t[0] == '-' && AllDigits(t[1..]) ==> ParseInt(s) == Some(-(DigitsValue(t[1..]) as int))
  {
    var t := Strip(s);
    if |t| > 0 && AllDigits(t) {
      DecimalRun(t);
      ParseIntUnderscores(s);
    }
    if |t| > 1 && t[0] == '-' && AllDigits(t[1..]) {
      DecimalRun(t[1..]);
      ParseIntUnderscores(s);
    }
  }
}
