/**
 * The string primitives the dashboard leans on, written out as JavaScript
 * defines them: `split` on a one-character separator, `join`, `trim`, the
 * decimal digits behind `parseInt`, and a decimal reading of `parseFloat`.
 */
module Text {
  import opened Wrappers

  // ---------------------------------------------------------------- split / join

  /** `s.split(sep)`: the pieces between separators, empty pieces included. */
  function Split(s: string, sep: char): (parts: seq<string>)
    ensures |parts| >= 1
    ensures forall i :: 0 <= i < |parts| ==> sep !in parts[i]
    ensures |parts| >= 2 <==> sep in s
    ensures |s| > 0 && s[0] != sep ==> |parts[0]| > 0 && parts[0][0] == s[0]
  {
    if |s| == 0 then [""]
    else
      var rest := Split(s[1..], sep);
      if s[0] == sep then [""] + rest
      else [[s[0]] + rest[0]] + rest[1..]
  }

  /** `parts.join(sep)`; the empty list joins to the empty string. */
  function Join(parts: seq<string>, sep: char): string
  {
    if |parts| == 0 then ""
    else if |parts| == 1 then parts[0]
    else parts[0] + [sep] + Join(parts[1..], sep)
  }

  /** A character absent from the text is absent from every piece of its split. */
  lemma {:induction false} SplitKeepsOut(s: string, sep: char, c: char)
    requires c !in s
    ensures forall i :: 0 <= i < |Split(s, sep)| ==> c !in Split(s, sep)[i]
  {
    if |s| > 0 {
      SplitKeepsOut(s[1..], sep, c);
    }
  }

  /** A character absent from every piece, and not the separator, is absent from their join. */
  lemma {:induction false} JoinKeepsOut(parts: seq<string>, sep: char, c: char)
    requires c != sep
    requires forall i :: 0 <= i < |parts| ==> c !in parts[i]
    ensures c !in Join(parts, sep)
  {
    if |parts| > 1 {
      JoinKeepsOut(parts[1..], sep, c);
    }
  }

  /** Joining the pieces of a split gives the original text back. */
  lemma {:induction false} JoinSplit(s: string, sep: char)
    ensures Join(Split(s, sep), sep) == s
  {
    if |s| > 0 {
      var rest := Split(s[1..], sep);
      JoinSplit(s[1..], sep);
      if s[0] == sep {
        JoinCons("", rest, sep);
      } else {
        JoinExtendFirst(s[0], rest, sep);
      }
      assert s == [s[0]] + s[1..];
    }
  }

  lemma JoinCons(p: string, rest: seq<string>, sep: char)
    requires |rest| >= 1
    ensures Join([p] + rest, sep) == p + [sep] + Join(rest, sep)
  {
    assert ([p] + rest)[1..] == rest;
  }

  /** Putting a character in front of the first piece puts it in front of the join. */
  lemma JoinExtendFirst(c: char, parts: seq<string>, sep: char)
    requires |parts| >= 1
    ensures Join([[c] + parts[0]] + parts[1..], sep) == [c] + Join(parts, sep)
  {
    if |parts| > 1 {
      JoinCons([c] + parts[0], parts[1..], sep);
      JoinCons(parts[0], parts[1..], sep);
      assert [parts[0]] + parts[1..] == parts;
    }
  }

  /** Splitting a join of separator-free pieces gives the pieces back. */
  lemma {:induction false} SplitJoin(parts: seq<string>, sep: char)
    requires |parts| >= 1
    requires forall i :: 0 <= i < |parts| ==> sep !in parts[i]
    ensures Split(Join(parts, sep), sep) == parts
  {
    if |parts| == 1 {
      SplitNoSep(parts[0], sep);
    } else {
      SplitJoin(parts[1..], sep);
      SplitAfterPiece(parts[0], Join(parts[1..], sep), sep);
      assert Join(parts, sep) == parts[0] + ([sep] + Join(parts[1..], sep));
      assert [parts[0]] + parts[1..] == parts;
    }
  }

  lemma {:induction false} SplitNoSep(s: string, sep: char)
    requires sep !in s
    ensures Split(s, sep) == [s]
  {
    if |s| > 0 {
      SplitNoSep(s[1..], sep);
      assert [s[0]] + s[1..] == s;
    }
  }

  /** A separator-free piece followed by a separator starts a new piece. */
  lemma {:induction false} SplitAfterPiece(p: string, t: string, sep: char)
    requires sep !in p
    ensures Split(p + ([sep] + t), sep) == [p] + Split(t, sep)
  {
    if |p| == 0 {
      assert p + ([sep] + t) == [sep] + t;
      assert ([sep] + t)[1..] == t;
    } else {
      SplitAfterPiece(p[1..], t, sep);
      assert (p + ([sep] + t))[1..] == p[1..] + ([sep] + t);
      assert [p[0]] + p[1..] == p;
    }
  }

  // ---------------------------------------------------------------- trim

  /**
   * The characters `String.prototype.trim` and `parseFloat` skip: the white
   * space and line terminators of ECMAScript, that is tab, the line breaks,
   * vertical tab, form feed, the byte-order mark and every space separator.
   */
  predicate IsSpace(c: char) {
    ('\t' <= c <= '\r') || c == ' ' || ('\U{00A0}' <= c && IsWideSpace(c))
  }

  /** The white space above the ASCII range: no-break space, the space separators, the line and paragraph separators and the byte-order mark. */
  predicate IsWideSpace(c: char) {
    c == '\U{00A0}' || c == '\U{1680}' || ('\U{2000}' <= c <= '\U{200A}')
    || c == '\U{2028}' || c == '\U{2029}' || c == '\U{202F}' || c == '\U{205F}'
    || c == '\U{3000}' || c == '\U{FEFF}'
  }

  /** Every character of `s` from `lo` up to (not including) `hi` is white space. */
  predicate SpaceBetween(s: string, lo: int, hi: int) {
    forall i :: lo <= i < hi && 0 <= i < |s| ==> IsSpace(s[i])
  }

  /** `trimStart`: the text after the leading white space. */
  function TrimStart(s: string): (t: string)
    ensures |t| <= |s| && t == s[|s| - |t|..]
    ensures SpaceBetween(s, 0, |s| - |t|)
    ensures |t| > 0 ==> !IsSpace(t[0])
  {
    if |s| > 0 && IsSpace(s[0]) then TrimStart(s[1..]) else s
  }

  /** `trimEnd`: the text before the trailing white space. */
  function TrimEnd(s: string): (t: string)
    ensures |t| <= |s| && t == s[..|t|]
    ensures SpaceBetween(s, |t|, |s|)
    ensures |t| > 0 ==> !IsSpace(t[|t| - 1])
  {
    if |s| > 0 && IsSpace(s[|s| - 1]) then TrimEnd(s[..|s| - 1]) else s
  }

  /** `trim`: `trimEnd` after `trimStart`; the result neither starts nor ends with white space. */
  function Trim(s: string): (t: string)
    ensures |t| <= |s|
    ensures exists a :: 0 <= a <= |s| - |t| && t == s[a..a + |t|] && SpaceBetween(s, 0, a) && SpaceBetween(s, a + |t|, |s|)
    ensures |t| > 0 ==> !IsSpace(t[0]) && !IsSpace(t[|t| - 1])
  {
    var u := TrimStart(s);
    var t := TrimEnd(u);
    TrimBothEnds(s, u, t);
    t
  }

  /** Text cut from the front of `s`, then from the back of what is left, is a slice of `s` between two runs of space. */
  lemma TrimBothEnds(s: string, u: string, t: string)
    requires |u| <= |s| && u == s[|s| - |u|..] && SpaceBetween(s, 0, |s| - |u|)
    requires |t| <= |u| && t == u[..|t|] && SpaceBetween(u, |t|, |u|)
    ensures var a := |s| - |u|; t == s[a..a + |t|] && SpaceBetween(s, 0, a) && SpaceBetween(s, a + |t|, |s|)
  {
    var a := |s| - |u|;
    forall i | a + |t| <= i < |s|
      ensures IsSpace(s[i])
    {
      assert s[i] == u[i - a];
    }
  }

  // ---------------------------------------------------------------- decimal digits

  predicate IsDigit(c: char) { '0' <= c <= '9' }

  predicate AllDigits(s: string) {
    forall i :: 0 <= i < |s| ==> IsDigit(s[i])
  }

  function DigitChar(d: nat): (c: char)
    requires d < 10
    ensures IsDigit(c)
  {
    ('0' as int + d) as char
  }

  function DigitValue(c: char): (d: nat)
    requires IsDigit(c)
    ensures d < 10 && DigitChar(d) == c
  {
    (c as int - '0' as int)
  }

  /** The number a run of decimal digits denotes, most significant first. */
  function DigitsValue(s: string): nat
    requires AllDigits(s)
  {
    if |s| == 0 then 0 else 10 * DigitsValue(s[..|s| - 1]) + DigitValue(s[|s| - 1])
  }

  /** The decimal numeral of `n`, without leading zeros: `String(n)`. */
  function NatToString(n: nat): (s: string)
    ensures |s| >= 1 && AllDigits(s)
    ensures |s| > 1 ==> s[0] != '0'
  {
    if n < 10 then [DigitChar(n)] else NatToString(n / 10) + [DigitChar(n % 10)]
  }

  /** Reading back the numeral of `n` yields `n`. */
  lemma {:induction false} NatToStringValue(n: nat)
    ensures DigitsValue(NatToString(n)) == n
  {
    var s := NatToString(n);
    if n >= 10 {
      NatToStringValue(n / 10);
      assert s[..|s| - 1] == NatToString(n / 10);
    }
  }

  /** The longest prefix of `s` made of digits. */
  function DigitPrefix(s: string): (p: string)
    ensures |p| <= |s| && p == s[..|p|] && AllDigits(p)
    ensures |p| < |s| ==> !IsDigit(s[|p|])
  {
    if |s| > 0 && IsDigit(s[0]) then
      var rest := DigitPrefix(s[1..]);
      assert [s[0]] + rest == s[..1 + |rest|];
      [s[0]] + rest
    else ""
  }

  lemma {:induction false} DigitPrefixAll(s: string)
    requires AllDigits(s)
    ensures DigitPrefix(s) == s
  {
    if |s| > 0 {
      DigitPrefixAll(s[1..]);
      assert [s[0]] + s[1..] == s;
    }
  }

  /**
   * `parseInt(s)` for a numeral that the caller has already matched with
   * `/\d+/`: the value of the first run of digits, or None when there is none.
   */
  function FirstDigitRun(s: string): (r: Option<string>)
    ensures r.Some? ==> |r.value| >= 1 && AllDigits(r.value)
    ensures r.None? <==> forall i :: 0 <= i < |s| ==> !IsDigit(s[i])
  {
    if |s| == 0 then None
    else if IsDigit(s[0]) then Some(DigitPrefix(s))
    else FirstDigitRun(s[1..])
  }

  /** Digits, or a point followed by a digit: where an unsigned decimal number can start. */
  predicate StartsDigits(body: string) {
    |body| > 0 && (IsDigit(body[0]) || (body[0] == '.' && |body| > 1 && IsDigit(body[1])))
  }

  /** Digits after a point, read from the last one back: `"05"` is (0 + 5 / 10) / 10 = 0.05. */
  function Fraction(digits: string): (f: real)
    requires AllDigits(digits)
    ensures 0.0 <= f < 1.0
  {
    if |digits| == 0 then 0.0 else (DigitValue(digits[0]) as real + Fraction(digits[1..])) / 10.0
  }

  /** The value of what follows the whole digits: a point and digits give a fraction, anything else 0. */
  function FracValue(rest: string): (f: real)
    ensures 0.0 <= f < 1.0
  {
    if |rest| > 0 && rest[0] == '.' then Fraction(DigitPrefix(rest[1..])) else 0.0
  }

  /** An unsigned decimal: the leading digits, then a point and digits if they follow; None when there are no digits. */
  function ParseUnsigned(body: string): (r: Option<real>)
    ensures r.Some? <==> StartsDigits(body)
    ensures r.Some? ==> r.value >= 0.0
  {
    if !StartsDigits(body) then None
    else
      var whole := DigitPrefix(body);
      Some(DigitsValue(whole) as real + FracValue(body[|whole|..]))
  }

  /** The text `parseFloat` reads its number from: after the leading white space and one optional sign. */
  function Unsigned(s: string): (body: string)
    ensures |body| <= |s| && body == s[|s| - |body|..]
  {
    var t := TrimStart(s);
    if |t| > 0 && (t[0] == '-' || t[0] == '+') then t[1..] else t
  }

  /** What `parseFloat` needs to find a number: a digit, or a point and a digit, after white space and a sign. */
  predicate StartsNumber(s: string) {
    StartsDigits(Unsigned(s))
  }

  /**
   * `parseFloat(s)` in decimal: after leading white space, an optional sign,
   * digits, an optional point and more digits, ignoring whatever follows;
   * None (NaN) when no digit is found in that position.
   */
  function ParseNum(s: string): (r: Option<real>)
    ensures r.Some? <==> StartsNumber(s)
  {
    var t := TrimStart(s);
    var v := ParseUnsigned(Unsigned(s));
    if v.Some? && |t| > 0 && t[0] == '-' then Some(-v.value) else v
  }

  /** Only a text holding a digit can be read as a number. */
  lemma NumberNeedsDigit(s: string)
    requires StartsNumber(s)
    ensures exists i :: 0 <= i < |s| && IsDigit(s[i])
  {
    var body := Unsigned(s);
    var k := |s| - |body|;
    if IsDigit(body[0]) {
      assert s[k] == body[0];
    } else {
      assert s[k + 1] == body[1];
    }
  }

  /** `parseFloat(String(n))` gives `n` back. */
  lemma NatToStringParses(n: nat)
    ensures ParseNum(NatToString(n)) == Some(n as real)
  {
    var s := NatToString(n);
    assert s[..|s|] == s;
    ParseFromDigits(s, |s|);
    NatToStringValue(n);
  }

  /** The digits in front of a non-digit are the whole digit prefix. */
  lemma {:induction false} DigitPrefixStops(ds: string, t: string)
    requires AllDigits(ds) && (|t| > 0 ==> !IsDigit(t[0]))
    ensures DigitPrefix(ds + t) == ds
  {
    if |ds| > 0 {
      assert (ds + t)[1..] == ds[1..] + t;
      DigitPrefixStops(ds[1..], t);
      assert [ds[0]] + ds[1..] == ds;
    } else {
      assert ds + t == t;
    }
  }

  /**
   * A text that starts with a run of digits is read as that run, then a point
   * and digits if they follow: a numeral `d.f` is the whole digits plus the
   * fraction the digits after the point denote.
   */
  lemma ParseFromDigits(s: string, k: nat)
    requires 0 < k <= |s| && AllDigits(s[..k]) && (k < |s| ==> !IsDigit(s[k]))
    ensures ParseNum(s) == Some(DigitsValue(s[..k]) as real + FracValue(s[k..]))
    ensures k < |s| && s[k] == '.' && AllDigits(s[k + 1..]) ==>
      ParseNum(s) == Some(DigitsValue(s[..k]) as real + Fraction(s[k + 1..]))
  {
    assert IsDigit(s[..k][0]) && !IsSpace(s[0]);
    assert TrimStart(s) == s;
    assert Unsigned(s) == s;
    DigitPrefixStops(s[..k], s[k..]);
    assert s[..k] + s[k..] == s;
    if k < |s| && s[k] == '.' && AllDigits(s[k + 1..]) {
      FracAfterPoint(s, k);
    }
  }

  /** `parseFloat` stops at the first character that cannot go on the number: `"10\r"` reads 10. */
  lemma NumeralThenText(n: nat, c: char, rest: string)
    requires !IsDigit(c) && c != '.'
    ensures ParseNum(NatToString(n) + [c] + rest) == Some(n as real)
  {
    var ds := NatToString(n);
    var s := ds + [c] + rest;
    var k := |ds|;
    assert s[..k] == ds;
    assert s[k..] == [c] + rest;
    assert s[k] == c;
    ParseFromDigits(s, k);
    assert FracValue(s[k..]) == 0.0;
    NatToStringValue(n);
    assert DigitsValue(s[..k]) == n;
  }

  /** All digits after the point at `k` make up the fraction. */
  lemma FracAfterPoint(s: string, k: nat)
    requires k < |s| && s[k] == '.' && AllDigits(s[k + 1..])
    ensures FracValue(s[k..]) == Fraction(s[k + 1..])
  {
    assert s[k..][1..] == s[k + 1..];
    DigitPrefixAll(s[k + 1..]);
  }
}
