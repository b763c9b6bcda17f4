/** The parts of Python 2's `str` and `int` behaviour that the filter, tag and
    BED tools rely on: strip, split, first word, int(), int(x, 16), float()
    syntax, str(int) and the ordering of byte strings. */
module PyText {
  import opened Wrappers

  /** The exceptions the modelled constructors can raise on malformed input,
      plus the usage error the command-line front ends report. */
  datatype PyError = IndexError | ValueError | KeyError | UnboundLocalError | UsageError

  /** The characters `str.strip()` and `str.split()` treat as whitespace. */
  predicate IsSpace(c: char) {
    c == ' ' || c == '\t' || c == '\n' || c == '\r' || c as int == 11 || c as int == 12
  }

  /** `s.lstrip()`. */
  function LStrip(s: string): string {
    if s != [] && IsSpace(s[0]) then LStrip(s[1..]) else s
  }

  /** `s.lstrip()` is the suffix of `s` after its leading whitespace. */
  lemma {:induction false} LStripSpec(s: string)
    ensures var r := LStrip(s);
            |r| <= |s| && r == s[|s| - |r|..] && (r != [] ==> !IsSpace(r[0])) &&
            forall i :: 0 <= i < |s| - |r| ==> IsSpace(s[i])
  {
    if s != [] && IsSpace(s[0]) {
      var t := s[1..];
      LStripSpec(t);
      var r := LStrip(t);
      assert LStrip(s) == r;
      assert t[|t| - |r|..] == s[|s| - |r|..];
      forall i | 0 <= i < |s| - |r|
        ensures IsSpace(s[i])
      {
        if i > 0 { assert s[i] == t[i - 1]; }
      }
    }
  }

  /** `s.rstrip()`. */
  function RStrip(s: string): string {
    if s != [] && IsSpace(s[|s| - 1]) then RStrip(s[..|s| - 1]) else s
  }

  /** `s.rstrip()` is the prefix of `s` before its trailing whitespace. */
  lemma {:induction false} RStripSpec(s: string)
    ensures var r := RStrip(s);
            |r| <= |s| && r == s[..|r|] && (r != [] ==> !IsSpace(r[|r| - 1])) &&
            forall i :: |r| <= i < |s| ==> IsSpace(s[i])
  {
    if s != [] && IsSpace(s[|s| - 1]) {
      var t := s[..|s| - 1];
      RStripSpec(t);
      var r := RStrip(t);
      assert RStrip(s) == r;
      assert t[..|r|] == s[..|r|];
      forall i | |r| <= i < |s|
        ensures IsSpace(s[i])
      {
        if i < |s| - 1 { assert s[i] == t[i]; }
      }
    }
  }

  /** `s.strip()`. */
  function Strip(s: string): string {
    RStrip(LStrip(s))
  }

  /** `s.strip()` is no longer than `s`, neither begins nor ends with
      whitespace, and is empty exactly when `s` is all whitespace. */
  lemma StripSpec(s: string)
    ensures var r := Strip(s);
            |r| <= |s| && (r == [] || (!IsSpace(r[0]) && !IsSpace(r[|r| - 1]))) &&
            (r == [] <==> forall i :: 0 <= i < |s| ==> IsSpace(s[i]))
  {
    var l := LStrip(s);
    LStripSpec(s);
    RStripSpec(l);
  }

  /** A string that neither begins nor ends with whitespace is its own strip. */
  lemma StripIdle(s: string)
    requires s == [] || (!IsSpace(s[0]) && !IsSpace(s[|s| - 1]))
    ensures Strip(s) == s
  {
  }

  /** Number of occurrences of `c` in `s`. */
  function CountChar(s: string, c: char): (n: nat)
    ensures n == 0 <==> c !in s
  {
    if s == [] then 0 else CountChar(s[1..], c) + (if s[0] == c then 1 else 0)
  }

  /** `sep.join(parts)`. */
  function Join(parts: seq<string>, sep: char): string
    requires |parts| >= 1
  {
    if |parts| == 1 then parts[0] else parts[0] + [sep] + Join(parts[1..], sep)
  }

  /** `s.split(sep)` for a one-character separator: the pieces between the
      separators, empty pieces included. */
  function Split(s: string, sep: char): (parts: seq<string>)
    ensures |parts| == CountChar(s, sep) + 1
  {
    if s == [] then [[]]
    else
      var rest := Split(s[1..], sep);
      if s[0] == sep then [[]] + rest
      else [[s[0]] + rest[0]] + rest[1..]
  }

  /** No piece of a split holds the separator. */
  lemma {:induction false} SplitPieces(s: string, sep: char)
    ensures forall i :: 0 <= i < |Split(s, sep)| ==> sep !in Split(s, sep)[i]
  {
    if s != [] {
      SplitPieces(s[1..], sep);
      var rest := Split(s[1..], sep);
      if s[0] != sep {
        assert sep !in rest[0];
        assert sep !in [s[0]] + rest[0];
      }
    }
  }

  /** Joining the pieces back with the separator gives the string. */
  lemma {:induction false} JoinOfSplit(s: string, sep: char)
    ensures Join(Split(s, sep), sep) == s
  {
    if s != [] {
      var rest := Split(s[1..], sep);
      JoinOfSplit(s[1..], sep);
      if s[0] == sep {
        assert Join([[]] + rest, sep) == [] + [sep] + Join(rest, sep);
      } else {
        var parts := [[s[0]] + rest[0]] + rest[1..];
        assert parts[1..] == rest[1..];
        assert Join(parts, sep) == [s[0]] + Join(rest, sep);
      }
    }
  }

  /** A piece without the separator splits to itself. */
  lemma {:induction false} SplitNoSep(p: string, sep: char)
    requires sep !in p
    ensures Split(p, sep) == [p]
  {
    if p != [] {
      SplitNoSep(p[1..], sep);
      assert [p[0]] + p[1..] == p;
    }
  }

  /** Splitting `p + sep + rest`, where `p` holds no separator, yields `p`
      followed by the pieces of `rest`. */
  lemma {:induction false} SplitAfterPiece(p: string, sep: char, rest: string)
    requires sep !in p
    ensures Split(p + [sep] + rest, sep) == [p] + Split(rest, sep)
  {
    var s := p + [sep] + rest;
    if p == [] {
      assert s[0] == sep && s[1..] == rest;
    } else {
      var q := p[1..];
      assert s[0] == p[0] && s[0] != sep && sep !in q;
      assert s[1..] == q + [sep] + rest;
      SplitAfterPiece(q, sep, rest);
      var r := Split(s[1..], sep);
      assert r == [q] + Split(rest, sep);
      assert [p[0]] + q == p;
      assert Split(s, sep) == [[p[0]] + r[0]] + r[1..];
    }
  }

  /** Split inverts Join when no piece holds the separator. */
  lemma {:induction false} SplitOfJoin(parts: seq<string>, sep: char)
    requires |parts| >= 1
    requires forall i :: 0 <= i < |parts| ==> sep !in parts[i]
    ensures Split(Join(parts, sep), sep) == parts
  {
    if |parts| == 1 {
      SplitNoSep(parts[0], sep);
    } else {
      SplitOfJoin(parts[1..], sep);
      SplitAfterPiece(parts[0], sep, Join(parts[1..], sep));
      assert [parts[0]] + parts[1..] == parts;
    }
  }

  /** The index of the last `c` in `s` (`s.rindex(c)`). */
  function LastIndexOf(s: string, c: char): (i: nat)
    requires c in s
    ensures i < |s| && s[i] == c && c !in s[i + 1..]
  {
    if s[|s| - 1] == c then |s| - 1 else LastIndexOf(s[..|s| - 1], c)
  }

  /** `s.rsplit(sep, 1)`: the text before the last separator and the text
      after it, or `[s]` when there is none. */
  function RSplitOnce(s: string, sep: char): (parts: seq<string>)
    ensures sep !in s ==> parts == [s]
    ensures sep in s ==> |parts| == 2 && parts[0] + [sep] + parts[1] == s && sep !in parts[1]
  {
    if sep in s then
      var i := LastIndexOf(s, sep);
      assert s[..i] + [sep] + s[i + 1..] == s;
      [s[..i], s[i + 1..]]
    else [s]
  }

  /** The separator that rsplit cuts at is the one after which no other
      separator follows. */
  lemma RSplitOnceOf(a: string, sep: char, b: string)
    requires sep !in b
    ensures RSplitOnce(a + [sep] + b, sep) == [a, b]
  {
    var s := a + [sep] + b;
    assert s[|a|] == sep;
    var parts := RSplitOnce(s, sep);
    var i := |parts[0]|;
    assert s[..i] == parts[0] && s[i] == sep && s[i + 1..] == parts[1] by {
      assert s == parts[0] + [sep] + parts[1];
    }
    assert s[..|a|] == a && s[|a| + 1..] == b;
  }

  /** The longest prefix of `s` without whitespace. */
  function TakeWord(s: string): (w: string)
    ensures |w| <= |s| && w == s[..|w|]
    ensures forall i :: 0 <= i < |w| ==> !IsSpace(w[i])
    ensures |w| < |s| ==> IsSpace(s[|w|])
  {
    if s == [] || IsSpace(s[0]) then [] else [s[0]] + TakeWord(s[1..])
  }

  /** `s.split()[0]`, or None where Python raises IndexError (a blank line). */
  function FirstWord(s: string): (r: Option<string>)
    ensures r.None? <==> forall i :: 0 <= i < |s| ==> IsSpace(s[i])
    ensures r.Some? ==> r.value != [] && forall i :: 0 <= i < |r.value| ==> !IsSpace(r.value[i])
  {
    LStripSpec(s);
    var t := LStrip(s);
    if t == [] then None else Some(TakeWord(t))
  }

  /** The value of a digit character in bases up to 16; 16 for a non-digit. */
  function DigitValue(c: char): int {
    if '0' <= c <= '9' then c as int - '0' as int
    else if 'a' <= c <= 'f' then c as int - 'a' as int + 10
    else if 'A' <= c <= 'F' then c as int - 'A' as int + 10
    else 16
  }

  predicate AllDigits(s: string, base: int) {
    forall i :: 0 <= i < |s| ==> 0 <= DigitValue(s[i]) < base
  }

  /** The number a run of digits denotes, most significant first. */
  function DigitsValue(ds: string, base: nat): nat
    requires AllDigits(ds, base)
  {
    if ds == [] then 0
    else DigitsValue(ds[..|ds| - 1], base) * base + DigitValue(ds[|ds| - 1])
  }

  /** The lower-case digit for `d`. */
  function DigitChar(d: nat): (c: char)
    requires d < 16
    ensures DigitValue(c) == d
  {
    if d < 10 then ('0' as int + d) as char else ('a' as int + d - 10) as char
  }

  /** The digits of `n` in `base`, without leading zeros. */
  function DigitsOf(n: nat, base: nat): (ds: string)
    requires 2 <= base <= 16
    ensures ds != []
  {
    if n < base then [DigitChar(n)]
    else
      DivMod(n, base);
      DigitsOf(n / base, base) + [DigitChar(n % base)]
  }

  /** The digits of `n` are digits of the base, written `0`-`9` and `a`-`f`. */
  lemma {:induction false} DigitsOfChars(n: nat, base: nat)
    requires 2 <= base <= 16
    ensures AllDigits(DigitsOf(n, base), base)
    ensures forall i :: 0 <= i < |DigitsOf(n, base)| ==> '0' <= DigitsOf(n, base)[i] <= '9' || 'a' <= DigitsOf(n, base)[i] <= 'f'
  {
    if n >= base {
      DivMod(n, base);
      DigitsOfChars(n / base, base);
    }
  }

  lemma DivMod(n: nat, base: nat)
    requires 2 <= base <= n
    ensures n / base < n && 0 <= n % base < base && (n / base) * base + n % base == n
  {
  }

  /** The digits of a positive number do not start with `0`. */
  lemma {:induction false} DigitsOfHead(n: nat, base: nat)
    requires 2 <= base <= 16 && n > 0
    ensures DigitsOf(n, base)[0] != '0'
  {
    if n < base {
      assert DigitValue(DigitsOf(n, base)[0]) == n;
    } else {
      DivMod(n, base);
      assert n / base >= 1;
      DigitsOfHead(n / base, base);
    }
  }

  /** Appending a digit multiplies by the base and adds the digit. */
  lemma DigitsValueSnoc(ds: string, c: char, base: nat)
    requires AllDigits(ds, base) && 0 <= DigitValue(c) < base
    ensures AllDigits(ds + [c], base)
    ensures DigitsValue(ds + [c], base) == DigitsValue(ds, base) * base + DigitValue(c)
  {
    assert (ds + [c])[..|ds|] == ds;
  }

  /** The digits DigitsOf writes denote the number. */
  lemma {:induction false} DigitsOfValue(n: nat, base: nat)
    requires 2 <= base <= 16
    ensures AllDigits(DigitsOf(n, base), base) && DigitsValue(DigitsOf(n, base), base) == n
  {
    DigitsOfChars(n, base);
    if n < base {
      assert [DigitChar(n)][..0] == [];
    } else {
      DivMod(n, base);
      DigitsOfValue(n / base, base);
      DigitsValueSnoc(DigitsOf(n / base, base), DigitChar(n % base), base);
    }
  }

  /** A non-empty run of digits, or None. */
  function ParseUnsigned(s: string, base: nat): Option<nat> {
    if s != [] && AllDigits(s, base) then Some(DigitsValue(s, base)) else None
  }

  /** Python 2's `int(s)`: surrounding whitespace, at most one sign, then
      decimal digits; None where Python raises ValueError. */
  function ParseInt(s: string): Option<int> {
    ParseSigned(Strip(s))
  }

  /** At most one sign, then decimal digits, nothing else. As in Python 2's
      `PyOS_strtol`, whitespace between the sign and the digits is skipped. */
  function ParseSigned(t: string): Option<int> {
    if t != [] && (t[0] == '-' || t[0] == '+') then
      match ParseUnsigned(LStrip(t[1..]), 10)
      case None => None
      case Some(n) => var v: int := if t[0] == '-' then -(n as int) else n; Some(v)
    else
      match ParseUnsigned(t, 10)
      case None => None
      case Some(n) => Some(n)
  }

  /** Python's `int(s, 16)` for a string that starts with `0x`: the prefix,
      then hexadecimal digits, then optional trailing whitespace. */
  function ParseHexPrefixed(s: string): Option<int>
    requires |s| >= 2 && s[..2] == "0x"
  {
    var t := RStrip(s);
    if |t| < 2 then None
    else
      match ParseUnsigned(t[2..], 16)
      case None => None
      case Some(n) => Some(n)
  }

  /** Python's `str(n)` for an int. */
  function IntToString(n: int): string {
    if n < 0 then "-" + DigitsOf(-n, 10) else DigitsOf(n, 10)
  }

  /** int() reads a run of decimal digits. */
  lemma ParseIntOfDigits(ds: string)
    requires ds != [] && AllDigits(ds, 10)
    ensures ParseInt(ds) == Some(DigitsValue(ds, 10))
  {
    assert !IsSpace(ds[0]) && !IsSpace(ds[|ds| - 1]);
    StripIdle(ds);
  }

  /** A string that does not begin with whitespace is its own lstrip. */
  lemma LStripIdle(s: string)
    requires s == [] || !IsSpace(s[0])
    ensures LStrip(s) == s
  {
  }

  /** int() reads `-` followed by a run of decimal digits. */
  lemma ParseIntOfNegDigits(ds: string)
    requires ds != [] && AllDigits(ds, 10)
    ensures ParseInt("-" + ds) == Some(-(DigitsValue(ds, 10) as int))
  {
    var m := "-" + ds;
    assert m[0] == '-' && m[1..] == ds;
    assert !IsSpace(m[|m| - 1]) by {
      assert m[|m| - 1] == ds[|ds| - 1];
    }
    StripIdle(m);
    LStripIdle(ds);
    assert ParseUnsigned(ds, 10) == Some(DigitsValue(ds, 10));
  }

  /** int() of a sign, one space and one digit. */
  lemma SignSpaceDigit(sign: char, d: char)
    requires (sign == '-' || sign == '+') && '0' <= d <= '9'
    ensures ParseInt([sign, ' ', d]) == Some(if sign == '-' then -(d as int - '0' as int) else d as int - '0' as int)
  {
    var m := [sign, ' ', d];
    StripIdle(m);
    assert m[1..] == [' ', d] && LStrip([' ', d]) == [d];
    assert [d][..0] == [];
    assert DigitsValue([d], 10) == d as int - '0' as int;
  }

  /** Python 2's int() skips whitespace after the sign: `int("- 5")` is -5,
      though float() refuses the same text. */
  lemma SpaceAfterSign()
    ensures ParseInt("- 5") == Some(-5)
    ensures ParseInt("+ 7") == Some(7)
    ensures !IsFloatLiteral("- 5")
  {
    SignSpaceDigit('-', '5');
    SignSpaceDigit('+', '7');
    SignSpaceNotFloat('-', '5');
    assert "- 5" == ['-', ' ', '5'] && "+ 7" == ['+', ' ', '7'];
  }

  /** float() refuses a sign, a space and a digit. */
  lemma SignSpaceNotFloat(sign: char, d: char)
    requires (sign == '-' || sign == '+') && '0' <= d <= '9'
    ensures !IsFloatLiteral([sign, ' ', d])
  {
    var m := [sign, ' ', d];
    StripIdle(m);
    var u := m[1..];
    assert u == [' ', d] && |Lower(u)| == 2;
    assert LeadingDigits(u) == 0;
    assert u[0..] == u;
  }

  /** `str(n)` is a minus sign and digits only. */
  lemma IntToStringChars(n: int)
    ensures forall i :: 0 <= i < |IntToString(n)| ==>
              IntToString(n)[i] == '-' || '0' <= IntToString(n)[i] <= '9' || 'a' <= IntToString(n)[i] <= 'f'
  {
    var ds := DigitsOf(if n < 0 then -n else n, 10);
    DigitsOfChars(if n < 0 then -n else n, 10);
    assert IntToString(n) == (if n < 0 then "-" + ds else ds);
  }

  /** int() reads back what str() writes. */
  lemma IntRoundTrip(n: int)
    ensures ParseInt(IntToString(n)) == Some(n)
  {
    var ds := DigitsOf(if n < 0 then -n else n, 10);
    DigitsOfValue(if n < 0 then -n else n, 10);
    if n < 0 {
      ParseIntOfNegDigits(ds);
    } else {
      ParseIntOfDigits(ds);
    }
  }

  /** int(x, 16) reads back the hexadecimal digits of a natural number. */
  lemma HexRoundTrip(n: nat)
    ensures var s := "0x" + DigitsOf(n, 16); |s| >= 2 && s[..2] == "0x" && ParseHexPrefixed(s) == Some(n)
  {
    var ds := DigitsOf(n, 16);
    DigitsOfValue(n, 16);
    var s := "0x" + ds;
    assert s[..2] == "0x";
    assert !IsSpace(s[|s| - 1]);
    assert RStrip(s) == s;
    assert s[2..] == ds;
  }

  /** `c.lower()` for an ASCII letter; other characters are unchanged. */
  function LowerChar(c: char): char {
    if 'A' <= c <= 'Z' then (c as int - 'A' as int + 'a' as int) as char else c
  }

  function Lower(s: string): string {
    seq(|s|, i requires 0 <= i < |s| => LowerChar(s[i]))
  }

  /** Length of the run of decimal digits at the front of `s`. */
  function LeadingDigits(s: string): (n: nat)
    ensures n <= |s| && AllDigits(s[..n], 10)
    ensures n < |s| ==> !(0 <= DigitValue(s[n]) < 10)
  {
    if s != [] && 0 <= DigitValue(s[0]) < 10 then
      var n := 1 + LeadingDigits(s[1..]);
      assert s[..n] == [s[0]] + s[1..][..n - 1];
      n
    else 0
  }

  /** An optionally signed exponent part's digits: `[+-]?digits`. */
  predicate IsExponentDigits(s: string) {
    var u := if s != [] && (s[0] == '+' || s[0] == '-') then s[1..] else s;
    u != [] && AllDigits(u, 10)
  }

  /** Decimal float syntax: `digits [. digits] [e [+-] digits]` with at least
      one mantissa digit. */
  predicate IsDecimalFloat(u: string) {
    var a := LeadingDigits(u);
    var rest := u[a..];
    var b := if rest != [] && rest[0] == '.' then LeadingDigits(rest[1..]) else 0;
    var tail := if rest != [] && rest[0] == '.' then rest[1 + b..] else rest;
    a + b > 0 &&
    (tail == [] || ((tail[0] == 'e' || tail[0] == 'E') && IsExponentDigits(tail[1..])))
  }

  /** The strings Python 2.7's `float()` accepts: surrounding whitespace, an
      optional sign, then a decimal literal or inf, infinity or nan in any case. */
  predicate IsFloatLiteral(s: string) {
    var t := Strip(s);
    var u := if t != [] && (t[0] == '+' || t[0] == '-') then t[1..] else t;
    var l := Lower(u);
    l == "inf" || l == "infinity" || l == "nan" || IsDecimalFloat(u)
  }

  /** Python 2 ordering of byte strings: lexicographic on character codes. */
  predicate StrLess(a: string, b: string) {
    if a == [] then b != []
    else if b == [] then false
    else a[0] < b[0] || (a[0] == b[0] && StrLess(a[1..], b[1..]))
  }

  /** StrLess is a strict total order. */
  lemma {:induction false} StrLessTotal(a: string, b: string)
    ensures StrLess(a, b) ==> !StrLess(b, a)
    ensures !StrLess(a, a)
    ensures a == b || StrLess(a, b) || StrLess(b, a)
  {
    if a != [] && b != [] {
      StrLessTotal(a[1..], b[1..]);
      StrLessTotal(a[1..], a[1..]);
      if a[0] == b[0] && a[1..] == b[1..] {
        assert a == [a[0]] + a[1..] && b == [b[0]] + b[1..];
      }
    } else if a != [] {
      StrLessTotal(a[1..], a[1..]);
    }
  }
}
