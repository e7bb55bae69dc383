/**
 * The JavaScript string primitives that the list views, the id generator and the
 * knowledge-base parser are built from: the whitespace set of `trim` and `\s`,
 * `startsWith`, `includes`, `split` on one character, `join`, `String(n)` for a
 * natural number, `padStart` and `parseInt(s, 10)`.
 *
 * Strings are sequences of characters; `toLowerCase` and `localeCompare` depend on
 * the locale and are passed to the list views as parameters instead.
 */
module Text {
  import opened Wrappers

  /** ECMAScript WhiteSpace and LineTerminator: what `trim` strips and `\s` matches. */
  predicate IsWhitespace(c: char) {
    || c == '\t' || c == '\n' || c == '\U{B}' || c == '\U{C}' || c == '\r' || c == ' '
    || c == '\U{A0}' || c == '\U{1680}' || ('\U{2000}' <= c <= '\U{200A}')
    || c == '\U{2028}' || c == '\U{2029}' || c == '\U{202F}' || c == '\U{205F}'
    || c == '\U{3000}' || c == '\U{FEFF}'
  }

  /** The `\d` class of a regular expression: ASCII decimal digits. */
  predicate IsDigit(c: char) {
    '0' <= c <= '9'
  }

  predicate AllDigits(s: string) {
    forall i | 0 <= i < |s| :: IsDigit(s[i])
  }

  /** `s.trim() === ''`: the string holds whitespace only. */
  predicate IsBlank(s: string) {
    forall i | 0 <= i < |s| :: IsWhitespace(s[i])
  }

  /** `trimStart`: the longest suffix that does not start with whitespace. */
  function TrimStart(s: string): (r: string)
    ensures |r| <= |s| && r == s[|s| - |r|..]
    ensures forall i | 0 <= i < |s| - |r| :: IsWhitespace(s[i])
    ensures r == [] || !IsWhitespace(r[0])
  {
    if |s| > 0 && IsWhitespace(s[0]) then TrimStart(s[1..]) else s
  }

  /** `trimEnd`: the longest prefix that does not end with whitespace. */
  function TrimEnd(s: string): (r: string)
    ensures |r| <= |s| && r == s[..|r|]
    ensures forall i | |r| <= i < |s| :: IsWhitespace(s[i])
    ensures r == [] || !IsWhitespace(r[|r| - 1])
  {
    if |s| > 0 && IsWhitespace(s[|s| - 1]) then TrimEnd(s[..|s| - 1]) else s
  }

  /** `trim`: whitespace removed from both ends. */
  function Trim(s: string): string {
    TrimEnd(TrimStart(s))
  }

  /** `s.trim() === ''` holds exactly for the blank strings. */
  lemma TrimEmptyIffBlank(s: string)
    ensures Trim(s) == "" <==> IsBlank(s)
  {
    var t := TrimStart(s);
    if Trim(s) == "" {
      assert t == "";
    } else {
      var u := Trim(s);
      assert u[0] == t[0] == s[|s| - |t|];
    }
  }

  predicate StartsWith(s: string, prefix: string) {
    |prefix| <= |s| && s[..|prefix|] == prefix
  }

  predicate OccursAt(hay: string, needle: string, i: int)
    requires 0 <= i <= |hay| - |needle|
  {
    hay[i..i + |needle|] == needle
  }

  /** `hay.includes(needle)`. */
  predicate Includes(hay: string, needle: string) {
    exists i | 0 <= i <= |hay| - |needle| :: OccursAt(hay, needle, i)
  }

  /** The empty string is included in every string, and every string in itself. */
  lemma IncludesTrivia(hay: string)
    ensures Includes(hay, "")
    ensures Includes(hay, hay)
  {
    assert OccursAt(hay, "", 0);
    assert OccursAt(hay, hay, 0);
  }

  /** An occurrence inside an occurrence is an occurrence: `includes` is transitive. */
  lemma IncludesTransitive(a: string, b: string, c: string)
    requires Includes(a, b) && Includes(b, c)
    ensures Includes(a, c)
  {
    var i :| 0 <= i <= |a| - |b| && OccursAt(a, b, i);
    var j :| 0 <= j <= |b| - |c| && OccursAt(b, c, j);
    forall k | 0 <= k < |c| ensures a[i + j + k] == c[k] {
      assert c[k] == b[j + k] == a[i + j + k];
    }
    assert OccursAt(a, c, i + j);
  }

  /**
   * `s.split(sep)` for a one-character separator: the pieces between separators,
   * so a string with n separators yields n + 1 pieces and "" yields [""].
   */
  function Split(s: string, sep: char): (r: seq<string>)
    ensures |r| >= 1
    ensures forall i | 0 <= i < |r| :: sep !in r[i]
  {
    if |s| == 0 then [""]
    else
      var rest := Split(s[1..], sep);
      if s[0] == sep then [""] + rest else [[s[0]] + rest[0]] + rest[1..]
  }

  /** `parts.join(sep)`; the empty array joins to "". */
  function Join(parts: seq<string>, sep: string): string {
    if |parts| == 0 then ""
    else if |parts| == 1 then parts[0]
    else parts[0] + sep + Join(parts[1..], sep)
  }

  /** Splitting and re-joining on the same separator gives back the string. */
  lemma {:induction false} JoinSplit(s: string, sep: char)
    ensures Join(Split(s, sep), [sep]) == s
  {
    if |s| > 0 {
      var rest := Split(s[1..], sep);
      JoinSplit(s[1..], sep);
      if s[0] == sep {
        assert Split(s, sep) == [""] + rest;
        assert ([""] + rest)[1..] == rest;
        assert s == [sep] + s[1..];
      } else {
        var r := Split(s, sep);
        assert r == [[s[0]] + rest[0]] + rest[1..];
        if |rest| == 1 {
          assert s == [s[0]] + rest[0];
        } else {
          assert r[1..] == rest[1..];
          assert Join(rest, [sep]) == rest[0] + [sep] + Join(rest[1..], [sep]);
          assert s == [s[0]] + s[1..];
        }
      }
    }
  }

  /** A piece without the separator splits to itself. */
  lemma {:induction false} SplitWithoutSeparator(s: string, sep: char)
    requires sep !in s
    ensures Split(s, sep) == [s]
  {
    if |s| > 0 {
      assert sep !in s[1..] by {
        forall i | 0 <= i < |s[1..]| ensures s[1..][i] != sep {
          assert s[1..][i] == s[i + 1];
        }
      }
      SplitWithoutSeparator(s[1..], sep);
      assert s == [s[0]] + s[1..];
    }
  }

  /** Split unfolded once at a leading character. */
  lemma SplitCons(c: char, s: string, sep: char)
    ensures Split([c] + s, sep) ==
      if c == sep then [""] + Split(s, sep) else [[c] + Split(s, sep)[0]] + Split(s, sep)[1..]
  {
    assert ([c] + s)[1..] == s;
  }

  /** Splitting a string at a separator splits the two sides independently. */
  lemma {:induction false} SplitAtSeparator(a: string, b: string, sep: char)
    ensures Split(a + [sep] + b, sep) == Split(a, sep) + Split(b, sep)
  {
    if |a| == 0 {
      assert a + [sep] + b == [sep] + b;
      SplitCons(sep, b, sep);
    } else {
      assert a == [a[0]] + a[1..];
      assert a + [sep] + b == [a[0]] + (a[1..] + [sep] + b);
      SplitAtSeparator(a[1..], b, sep);
      SplitAtSeparatorStep(a[0], a[1..], b, sep);
    }
  }

  /** The inductive step of SplitAtSeparator: one more character before the separator. */
  lemma SplitAtSeparatorStep(c: char, t: string, b: string, sep: char)
    requires Split(t + [sep] + b, sep) == Split(t, sep) + Split(b, sep)
    ensures Split([c] + (t + [sep] + b), sep) == Split([c] + t, sep) + Split(b, sep)
  {
    SplitCons(c, t + [sep] + b, sep);
    SplitCons(c, t, sep);
    PrependToPieces(c, sep, Split(t, sep), Split(b, sep));
  }

  /** A character in front of the first piece, or a new empty piece, commutes with appending pieces. */
  lemma PrependToPieces(c: char, sep: char, ra: seq<string>, rb: seq<string>)
    requires |ra| >= 1
    ensures (if c == sep then [""] + (ra + rb) else [[c] + (ra + rb)[0]] + (ra + rb)[1..])
         == (if c == sep then [""] + ra else [[c] + ra[0]] + ra[1..]) + rb
  {
    if c != sep {
      assert (ra + rb)[0] == ra[0];
      assert (ra + rb)[1..] == ra[1..] + rb;
    }
  }

  /** Joining pieces that hold no separator and splitting again gives back the pieces. */
  lemma {:induction false} SplitJoin(parts: seq<string>, sep: char)
    requires |parts| >= 1
    requires forall i | 0 <= i < |parts| :: sep !in parts[i]
    ensures Split(Join(parts, [sep]), sep) == parts
  {
    if |parts| == 1 {
      SplitWithoutSeparator(parts[0], sep);
    } else {
      SplitJoin(parts[1..], sep);
      SplitWithoutSeparator(parts[0], sep);
      SplitAtSeparator(parts[0], Join(parts[1..], [sep]), sep);
      assert parts == [parts[0]] + parts[1..];
    }
  }

  function DigitChar(d: nat): char
    requires d < 10
  {
    ['0', '1', '2', '3', '4', '5', '6', '7', '8', '9'][d]
  }

  function DigitValue(c: char): nat
    requires IsDigit(c)
  {
    (c as int - '0' as int) as nat
  }

  /** `String(n)` for a natural number: its decimal digits, with no leading zero. */
  function Decimal(n: nat): (r: string)
    ensures |r| >= 1 && AllDigits(r)
  {
    if n < 10 then [DigitChar(n)] else Decimal(n / 10) + [DigitChar(n % 10)]
  }

  /** The value of a run of decimal digits, most significant first. */
  function DigitsValue(ds: string): nat
    requires AllDigits(ds)
  {
    if |ds| == 0 then 0 else DigitsValue(ds[..|ds| - 1]) * 10 + DigitValue(ds[|ds| - 1])
  }

  /** Reading back the decimal form of n gives n. */
  lemma {:induction false} DigitsValueOfDecimal(n: nat)
    ensures DigitsValue(Decimal(n)) == n
  {
    if n >= 10 {
      DigitsValueOfDecimal(n / 10);
      var r := Decimal(n);
      assert r[..|r| - 1] == Decimal(n / 10);
    }
  }

  /** Leading zeros do not change the value of a digit run. */
  lemma {:induction false} DigitsValueLeadingZeros(zs: string, ds: string)
    requires forall i | 0 <= i < |zs| :: zs[i] == '0'
    requires AllDigits(ds)
    ensures AllDigits(zs + ds)
    ensures DigitsValue(zs + ds) == DigitsValue(ds)
  {
    if |ds| == 0 {
      assert zs + ds == zs;
      ZerosValue(zs);
    } else {
      var s := zs + ds;
      assert s[..|s| - 1] == zs + ds[..|ds| - 1];
      DigitsValueLeadingZeros(zs, ds[..|ds| - 1]);
    }
  }

  lemma {:induction false} ZerosValue(zs: string)
    requires forall i | 0 <= i < |zs| :: zs[i] == '0'
    ensures AllDigits(zs) && DigitsValue(zs) == 0
  {
    if |zs| > 0 {
      ZerosValue(zs[..|zs| - 1]);
    }
  }

  /** `c.repeat(n)` for one character. */
  function Repeat(c: char, n: nat): (r: string)
    ensures |r| == n
    ensures forall i | 0 <= i < n :: r[i] == c
  {
    if n == 0 then "" else [c] + Repeat(c, n - 1)
  }

  /** `s.padStart(len, c)` for a one-character filler. */
  function PadStart(s: string, len: nat, c: char): (r: string)
    ensures |r| == if |s| >= len then |s| else len
    ensures r[|r| - |s|..] == s
    ensures forall i | 0 <= i < |r| - |s| :: r[i] == c
  {
    if |s| >= len then s else Repeat(c, len - |s|) + s
  }

  /** The longest prefix of digits. */
  function LeadingDigits(s: string): (r: string)
    ensures AllDigits(r) && StartsWith(s, r)
    ensures |r| == |s| || !IsDigit(s[|r|])
  {
    if |s| > 0 && IsDigit(s[0]) then [s[0]] + LeadingDigits(s[1..]) else ""
  }

  lemma {:induction false} LeadingDigitsOfDigits(s: string)
    requires AllDigits(s)
    ensures LeadingDigits(s) == s
  {
    if |s| > 0 {
      LeadingDigitsOfDigits(s[1..]);
      assert s == [s[0]] + s[1..];
    }
  }

  /**
   * `parseInt(s, 10)`: skip leading whitespace, read an optional sign and the longest
   * run of decimal digits after it; None stands for NaN (no digit found, including
   * `parseInt(undefined)`).
   */
  function ParseInt(s: string): (r: Option<int>)
    ensures r.None? <==> LeadingDigits(SignStripped(TrimStart(s))) == ""
  {
    var t := TrimStart(s);
    var negative := |t| > 0 && t[0] == '-';
    var digits := LeadingDigits(SignStripped(t));
    var magnitude: int := DigitsValue(digits);
    if digits == "" then None
    else Some(if negative then -magnitude else magnitude)
  }

  function SignStripped(t: string): string {
    if |t| > 0 && (t[0] == '-' || t[0] == '+') then t[1..] else t
  }

  lemma {:induction false} TrimStartBlank(ws: string, x: string)
    requires IsBlank(ws)
    requires x == "" || !IsWhitespace(x[0])
    ensures TrimStart(ws + x) == x
  {
    if |ws| > 0 {
      assert (ws + x)[1..] == ws[1..] + x;
      TrimStartBlank(ws[1..], x);
    }
  }

  /** The digit run that starts a string is read up to the first character that is not a digit. */
  lemma {:induction false} LeadingDigitsBeforeOther(d: string, rest: string)
    requires AllDigits(d)
    requires rest == "" || !IsDigit(rest[0])
    ensures LeadingDigits(d + rest) == d
  {
    if |d| > 0 {
      assert (d + rest)[1..] == d[1..] + rest;
      LeadingDigitsBeforeOther(d[1..], rest);
      assert d == [d[0]] + d[1..];
    }
  }

  /**
   * `parseInt` of leading whitespace, an optional sign, a run of digits and a rest
   * that does not continue the run: the value of the digits, negated after a minus.
   */
  lemma ParseIntOfParts(ws: string, sign: string, p: string, rest: string)
    requires IsBlank(ws)
    requires sign == "" || sign == "-" || sign == "+"
    requires |p| > 0 && AllDigits(p)
    requires rest == "" || !IsDigit(rest[0])
    ensures ParseInt(ws + sign + p + rest) == Some(if sign == "-" then -(DigitsValue(p) as int) else DigitsValue(p))
  {
    var x := sign + (p + rest);
    Associate(ws, sign, p, rest);
    SignedDigits(sign, p + rest);
    TrimStartBlank(ws, x);
    LeadingDigitsBeforeOther(p, rest);
    ParseIntOfTrimmed(ws + x, x, p + rest, p);
  }

  /** The value `parseInt` reads once the whitespace, the sign and the digit run are known. */
  lemma ParseIntOfTrimmed(s: string, x: string, y: string, p: string)
    requires TrimStart(s) == x && SignStripped(x) == y && LeadingDigits(y) == p && |p| > 0
    ensures ParseInt(s) == Some(if |x| > 0 && x[0] == '-' then -(DigitsValue(p) as int) else DigitsValue(p))
  {
  }

  lemma Associate(ws: string, sign: string, p: string, rest: string)
    ensures ws + sign + p + rest == ws + (sign + (p + rest))
  {
  }

  /** After a sign of at most one character, the sign is stripped and recognised. */
  lemma SignedDigits(sign: string, y: string)
    requires sign == "" || sign == "-" || sign == "+"
    requires |y| > 0 && IsDigit(y[0])
    ensures var x := sign + y; |x| > 0 && !IsWhitespace(x[0]) && SignStripped(x) == y && (x[0] == '-' <==> sign == "-")
  {
    var x := sign + y;
    if sign == "" {
      assert x == y;
    } else {
      assert x[0] == sign[0] && x[1..] == y;
    }
  }

  /**
   * `parseInt` is NaN when, after the leading whitespace and an optional sign, no
   * digit follows.
   */
  lemma ParseIntWithoutDigits(ws: string, sign: string, rest: string)
    requires IsBlank(ws)
    requires sign == "" || sign == "-" || sign == "+"
    requires rest == "" || !IsDigit(rest[0])
    requires sign == "" && rest != "" ==> !IsWhitespace(rest[0]) && rest[0] != '-' && rest[0] != '+'
    ensures ParseInt(ws + sign + rest) == None
  {
    var x := sign + rest;
    assert ws + sign + rest == ws + x;
    SignedRest(sign, rest);
    TrimStartBlank(ws, x);
    LeadingDigitsBeforeOther("", rest);
  }

  lemma SignedRest(sign: string, rest: string)
    requires sign == "" || sign == "-" || sign == "+"
    requires sign == "" && rest != "" ==> !IsWhitespace(rest[0]) && rest[0] != '-' && rest[0] != '+'
    ensures var x := sign + rest; (x == "" || !IsWhitespace(x[0])) && SignStripped(x) == rest
  {
    var x := sign + rest;
    if sign == "" {
      assert x == rest;
    } else {
      assert x[0] == sign[0] && x[1..] == rest;
    }
  }

  /** A digit run that starts the string is read whole. */
  lemma ParseIntOfDigits(p: string)
    requires |p| > 0 && AllDigits(p)
    ensures ParseInt(p) == Some(DigitsValue(p))
  {
    assert !IsWhitespace(p[0]);
    assert TrimStart(p) == p;
    assert SignStripped(p) == p;
    LeadingDigitsOfDigits(p);
  }

  /** A zero-padded decimal numeral parses back to its number. */
  lemma ParseIntOfPaddedDecimal(n: nat, width: nat)
    ensures ParseInt(PadStart(Decimal(n), width, '0')) == Some(n)
  {
    var d := Decimal(n);
    var p := PadStart(d, width, '0');
    var zs := p[..|p| - |d|];
    assert p == zs + d;
    DigitsValueLeadingZeros(zs, d);
    DigitsValueOfDecimal(n);
    ParseIntOfDigits(p);
  }
}
