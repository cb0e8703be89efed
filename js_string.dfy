/**
 * The JavaScript string built-ins the product page relies on:
 * `String.prototype.split` with a one-character separator, `trim`,
 * the global `parseInt` without a radix argument, and `toLowerCase`
 * restricted to ASCII letters.
 */
module JsString {
  import opened Options

  /**
   * WhiteSpace and LineTerminator of ECMAScript, what `trim` and `parseInt`
   * skip: TAB, LF, VT, FF, CR, SPACE, NBSP, the other Unicode space
   * separators (U+1680, U+2000..U+200A, U+202F, U+205F, U+3000), LINE
   * SEPARATOR, PARAGRAPH SEPARATOR and the byte order mark U+FEFF.
   */
  predicate IsWhitespace(c: char) {
    var n := c as int;
    (0x09 <= n <= 0x0D) || n == 0x20 || n == 0xA0 || n == 0x1680 || (0x2000 <= n <= 0x200A)
    || n == 0x2028 || n == 0x2029 || n == 0x202F || n == 0x205F || n == 0x3000 || n == 0xFEFF
  }

  predicate AllWhitespace(s: string) {
    forall k :: 0 <= k < |s| ==> IsWhitespace(s[k])
  }

  /** A string with no whitespace at either end, the shape `trim` produces. */
  predicate IsTrimmed(s: string) {
    s == [] || (!IsWhitespace(s[0]) && !IsWhitespace(s[|s| - 1]))
  }

  /** Number of occurrences of `c` in `s`. */
  function Count(c: char, s: string): nat {
    if s == [] then 0 else (if s[0] == c then 1 else 0) + Count(c, s[1..])
  }

  // ---------------------------------------------------------------- trim

  function TrimStart(s: string): (r: string)
    ensures |r| <= |s|
  {
    if s != [] && IsWhitespace(s[0]) then TrimStart(s[1..]) else s
  }

  function TrimEnd(s: string): (r: string)
    ensures |r| <= |s|
  {
    if s != [] && IsWhitespace(s[|s| - 1]) then TrimEnd(s[..|s| - 1]) else s
  }

  /** `s.trim()`: `s` without its leading and trailing whitespace. */
  function Trim(s: string): (r: string)
  {
    TrimEnd(TrimStart(s))
  }

  /** TrimStart removes a whitespace prefix and stops at the first other character. */
  lemma {:induction false} TrimStartFacts(s: string)
    ensures var r := TrimStart(s);
      && r == s[|s| - |r|..]
      && (r == [] || !IsWhitespace(r[0]))
      && (forall k :: 0 <= k < |s| - |r| ==> IsWhitespace(s[k]))
  {
    if s != [] && IsWhitespace(s[0]) {
      TrimStartFacts(s[1..]);
    }
  }

  /** TrimEnd removes a whitespace suffix and stops at the last other character. */
  lemma {:induction false} TrimEndFacts(s: string)
    ensures var r := TrimEnd(s);
      && r == s[..|r|]
      && (r == [] || !IsWhitespace(r[|r| - 1]))
      && (forall k :: |r| <= k < |s| ==> IsWhitespace(s[k]))
  {
    if s != [] && IsWhitespace(s[|s| - 1]) {
      TrimEndFacts(s[..|s| - 1]);
    }
  }

  /** What trim removes: a whitespace prefix and a whitespace suffix around the kept middle, which is trimmed. */
  lemma TrimSplitsOff(s: string) returns (lead: nat)
    ensures IsTrimmed(Trim(s))
    ensures lead + |Trim(s)| <= |s| && Trim(s) == s[lead..lead + |Trim(s)|]
    ensures AllWhitespace(s[..lead]) && AllWhitespace(s[lead + |Trim(s)|..])
  {
    var t := TrimStart(s);
    var r := TrimEnd(t);
    lead := |s| - |t|;
    assert t == s[lead..] by {
      TrimStartFacts(s);
    }
    assert r == s[lead..lead + |r|] by {
      TrimEndFacts(t);
      assert r == t[..|r|];
    }
    assert IsTrimmed(r) by {
      TrimStartFacts(s);
      TrimEndFacts(t);
      if r != [] {
        assert r[0] == t[0];
      }
    }
    assert AllWhitespace(s[..lead]) by {
      TrimStartFacts(s);
    }
    assert AllWhitespace(s[lead + |r|..]) by {
      TrimEndFacts(t);
      var tail := s[lead + |r|..];
      forall k | 0 <= k < |tail|
        ensures IsWhitespace(tail[k])
      {
        assert tail[k] == t[|r| + k];
      }
    }
  }

  /** The result of trim has no whitespace at either end. */
  lemma TrimIsTrimmed(s: string)
    ensures IsTrimmed(Trim(s))
  {
    var _ := TrimSplitsOff(s);
  }

  lemma {:induction false} TrimStartOfWhitespace(s: string)
    requires AllWhitespace(s)
    ensures TrimStart(s) == []
  {
    if s != [] {
      TrimStartOfWhitespace(s[1..]);
    }
  }

  lemma {:induction false} TrimStartPadding(pre: string, u: string)
    requires AllWhitespace(pre) && (u == [] || !IsWhitespace(u[0]))
    ensures TrimStart(pre + u) == u
  {
    if pre != [] {
      assert (pre + u)[1..] == pre[1..] + u;
      TrimStartPadding(pre[1..], u);
    }
  }

  lemma {:induction false} TrimEndPadding(u: string, post: string)
    requires AllWhitespace(post) && (u == [] || !IsWhitespace(u[|u| - 1]))
    ensures TrimEnd(u + post) == u
  {
    if post != [] {
      assert (u + post)[..|u + post| - 1] == u + post[..|post| - 1];
      TrimEndPadding(u, post[..|post| - 1]);
    } else {
      assert u + post == u;
    }
  }

  /** Trim determines its result: whitespace padding around a trimmed core is removed, nothing else. */
  lemma TrimPadding(pre: string, t: string, post: string)
    requires AllWhitespace(pre) && AllWhitespace(post) && IsTrimmed(t)
    ensures Trim(pre + t + post) == t
  {
    if t == [] {
      assert pre + t + post == pre + post;
      TrimStartOfWhitespace(pre + post);
    } else {
      assert pre + t + post == pre + (t + post);
      TrimStartPadding(pre, t + post);
      TrimEndPadding(t, post);
    }
  }

  /** Trailing whitespace after a trimmed string is all that trim removes. */
  lemma TrimTrailing(t: string, post: string)
    requires AllWhitespace(post) && IsTrimmed(t)
    ensures Trim(t + post) == t
  {
    assert [] + t + post == t + post;
    TrimPadding([], t, post);
  }

  lemma TrimOfTrimmed(s: string)
    requires IsTrimmed(s)
    ensures Trim(s) == s
  {
    assert [] + s + [] == s;
    TrimPadding([], s, []);
  }

  lemma CountAppend(c: char, x: string, y: string)
    ensures Count(c, x + y) == Count(c, x) + Count(c, y)
  {
    if x == [] {
      assert x + y == y;
    } else {
      assert (x + y)[0] == x[0];
      assert (x + y)[1..] == x[1..] + y;
      CountAppend(c, x[1..], y);
    }
  }

  lemma CountOfWhitespace(c: char, s: string)
    requires AllWhitespace(s) && !IsWhitespace(c)
    ensures Count(c, s) == 0
  {
    if s != [] {
      CountOfWhitespace(c, s[1..]);
    }
  }

  lemma CountZero(c: char, s: string)
    requires Count(c, s) == 0
    ensures c !in s
  {
    if s != [] {
      CountZero(c, s[1..]);
    }
  }

  /** Trimming removes only whitespace, so it keeps every other character's count. */
  lemma {:induction false} CountTrim(c: char, s: string)
    requires !IsWhitespace(c)
    ensures Count(c, Trim(s)) == Count(c, s)
  {
    var r := Trim(s);
    var lead := TrimSplitsOff(s);
    assert s == s[..lead] + r + s[lead + |r|..];
    CountAppend(c, s[..lead] + r, s[lead + |r|..]);
    CountAppend(c, s[..lead], r);
    CountOfWhitespace(c, s[..lead]);
    CountOfWhitespace(c, s[lead + |r|..]);
  }

  /** A character absent from `s` is absent from its trimmed form. */
  lemma TrimKeepsAbsent(c: char, s: string)
    requires c !in s
    ensures c !in Trim(s)
  {
    var r := Trim(s);
    var lead := TrimSplitsOff(s);
    forall k | 0 <= k < |r|
      ensures r[k] != c
    {
      assert r[k] == s[lead + k];
    }
  }

  // ---------------------------------------------------------------- split and join

  /** `s.split(sep)`: the pieces between occurrences of `sep`; the empty string gives `[""]`. */
  function Split(s: string, sep: char): (r: seq<string>)
    ensures |r| >= 1
  {
    if s == [] then [[]]
    else
      var rest := Split(s[1..], sep);
      if s[0] == sep then [[]] + rest
      else [[s[0]] + rest[0]] + rest[1..]
  }

  /** No piece contains the separator. */
  lemma {:induction false} SplitPiecesLackSeparator(s: string, sep: char)
    ensures forall k :: 0 <= k < |Split(s, sep)| ==> sep !in Split(s, sep)[k]
  {
    if s != [] {
      SplitPiecesLackSeparator(s[1..], sep);
      var rest := Split(s[1..], sep);
      if s[0] != sep {
        assert forall c :: c in [s[0]] + rest[0] ==> c == s[0] || c in rest[0];
      }
    }
  }

  /** `parts.join(sep)`. */
  function Join(parts: seq<string>, sep: char): (r: string)
  {
    if |parts| == 0 then []
    else if |parts| == 1 then parts[0]
    else parts[0] + [sep] + Join(parts[1..], sep)
  }

  /** One piece per separator plus one. */
  lemma {:induction false} SplitCount(s: string, sep: char)
    ensures |Split(s, sep)| == Count(sep, s) + 1
  {
    if s != [] {
      SplitCount(s[1..], sep);
    }
  }

  /** Joining the pieces with the separator gives back the string. */
  lemma {:induction false} JoinSplit(s: string, sep: char)
    ensures Join(Split(s, sep), sep) == s
  {
    if s != [] {
      JoinSplit(s[1..], sep);
      var rest := Split(s[1..], sep);
      if s[0] == sep {
        assert ([[]] + rest)[1..] == rest;
      } else if |rest| > 1 {
        assert ([[s[0]] + rest[0]] + rest[1..])[1..] == rest[1..];
        assert Join(rest, sep) == rest[0] + [sep] + Join(rest[1..], sep);
      }
    }
  }

  lemma {:induction false} SplitWithoutSeparator(h: string, sep: char)
    requires sep !in h
    ensures Split(h, sep) == [h]
  {
    if h != [] {
      SplitWithoutSeparator(h[1..], sep);
      assert [h[0]] + h[1..] == h;
    }
  }

  /** A separator-free piece followed by the separator comes out as the first piece. */
  lemma {:induction false} SplitAfterPiece(h: string, sep: char, t: string)
    requires sep !in h
    ensures Split(h + [sep] + t, sep) == [h] + Split(t, sep)
  {
    var s := h + [sep] + t;
    if h == [] {
      assert s[1..] == t;
    } else {
      assert s[1..] == h[1..] + [sep] + t;
      SplitAfterPiece(h[1..], sep, t);
      assert [h[0]] + h[1..] == h;
    }
  }

  /** Splitting separator-free pieces joined by the separator gives back the pieces. */
  lemma {:induction false} SplitJoin(parts: seq<string>, sep: char)
    requires |parts| >= 1
    requires forall k :: 0 <= k < |parts| ==> sep !in parts[k]
    ensures Split(Join(parts, sep), sep) == parts
  {
    if |parts| == 1 {
      SplitWithoutSeparator(parts[0], sep);
    } else {
      SplitJoin(parts[1..], sep);
      SplitAfterPiece(parts[0], sep, Join(parts[1..], sep));
    }
  }

  // ---------------------------------------------------------------- parseInt

  /** Value of a digit character in bases up to 36; 36 for anything else. */
  function DigitValue(c: char): (v: nat)
    ensures v <= 36
  {
    var n := c as int;
    if 48 <= n <= 57 then n - 48        // '0' .. '9'
    else if 97 <= n <= 122 then n - 87  // 'a' .. 'z'
    else if 65 <= n <= 90 then n - 55   // 'A' .. 'Z'
    else 36
  }

  /** The longest prefix of `s` made of digits of `radix`. */
  function DigitRun(s: string, radix: nat): (r: string)
    ensures |r| <= |s|
  {
    if s != [] && DigitValue(s[0]) < radix then [s[0]] + DigitRun(s[1..], radix) else []
  }

  /** The number a digit string denotes, most significant digit first. */
  function DigitsValue(ds: string, radix: nat): nat {
    if ds == [] then 0
    else DigitsValue(ds[..|ds| - 1], radix) * radix + DigitValue(ds[|ds| - 1])
  }

  /** What `parseInt` reads after the sign: `0x`/`0X` selects base 16, then the digit run. */
  function ParseMagnitude(u: string): (r: Option<nat>)
  {
    var hex := |u| >= 2 && u[0] == '0' && (u[1] == 'x' || u[1] == 'X');
    var radix := if hex then 16 else 10;
    var digits := DigitRun(if hex then u[2..] else u, radix);
    if digits == [] then None else Some(DigitsValue(digits, radix))
  }

  /** Whether the text after the whitespace starts with a minus sign. */
  predicate IsNegative(t: string) {
    t != [] && t[0] == '-'
  }

  /** The text after the whitespace with its sign, if any, removed. */
  function Unsigned(t: string): (u: string)
  {
    if t != [] && (t[0] == '-' || t[0] == '+') then t[1..] else t
  }

  /** `parseInt` after its leading whitespace: an optional sign, then the magnitude. */
  function ParseSigned(t: string): (r: Option<int>)
  {
    match ParseMagnitude(Unsigned(t))
    case None => None
    case Some(m) => Some(if IsNegative(t) then 0 - m else m)
  }

  /**
   * The global `parseInt(s)` with no radix: skip leading whitespace, take an
   * optional sign, then the magnitude. No digits gives `NaN`, here `None`.
   */
  function ParseInt(s: string): (r: Option<int>)
  {
    ParseSigned(TrimStart(s))
  }

  /** The canonical decimal rendering of a natural number. */
  function NatToString(n: nat): (s: string)
    ensures |s| >= 1
    ensures forall k :: 0 <= k < |s| ==> DigitValue(s[k]) < 10
    ensures n > 0 ==> s[0] != '0'
  {
    var d := [(48 + n % 10) as char];
    if n < 10 then d else NatToString(n / 10) + d
  }

  /** The canonical decimal rendering of an integer, with `-` for negatives. */
  function IntToString(n: int): (s: string)
  {
    if n < 0 then "-" + NatToString(-n) else NatToString(n)
  }

  lemma {:induction false} DigitsValueOfNatToString(n: nat)
    ensures DigitsValue(NatToString(n), 10) == n
  {
    var s := NatToString(n);
    if n >= 10 {
      DigitsValueOfNatToString(n / 10);
      assert s[..|s| - 1] == NatToString(n / 10);
    }
  }

  lemma {:induction false} DigitRunStops(ds: string, radix: nat, rest: string)
    requires forall k :: 0 <= k < |ds| ==> DigitValue(ds[k]) < radix
    requires rest == [] || DigitValue(rest[0]) >= radix
    ensures DigitRun(ds + rest, radix) == ds
  {
    if ds != [] {
      assert (ds + rest)[1..] == ds[1..] + rest;
      DigitRunStops(ds[1..], radix, rest);
    }
  }

  lemma ParseMagnitudeOfDecimal(n: nat, rest: string)
    requires rest == [] || DigitValue(rest[0]) >= 10
    requires n == 0 && rest != [] ==> rest[0] != 'x' && rest[0] != 'X'
    ensures ParseMagnitude(NatToString(n) + rest) == Some(n)
  {
    var ds := NatToString(n);
    var u := ds + rest;
    DigitRunStops(ds, 10, rest);
    DigitsValueOfNatToString(n);
    if |u| >= 2 && u[0] == '0' {
      assert ds == "0";
      assert u[1] == rest[0];
    }
  }

  /** A decimal digit is neither whitespace nor a sign. */
  lemma DigitIsNotSpaceOrSign(c: char)
    requires DigitValue(c) < 10
    ensures !IsWhitespace(c) && c != '-' && c != '+'
  {
  }

  lemma TrimStartOfNonSpace(s: string)
    requires s != [] && !IsWhitespace(s[0])
    ensures TrimStart(s) == s
  {
  }

  lemma ParseIntReadsNat(m: nat, rest: string)
    requires rest == [] || DigitValue(rest[0]) >= 10
    requires m == 0 && rest != [] ==> rest[0] != 'x' && rest[0] != 'X'
    ensures ParseInt(NatToString(m) + rest) == Some(m)
  {
    var u := NatToString(m) + rest;
    ParseMagnitudeOfDecimal(m, rest);
    assert u[0] == NatToString(m)[0];
    DigitIsNotSpaceOrSign(u[0]);
    TrimStartOfNonSpace(u);
  }

  lemma ParseIntReadsNegative(m: nat, rest: string)
    requires rest == [] || DigitValue(rest[0]) >= 10
    requires m == 0 && rest != [] ==> rest[0] != 'x' && rest[0] != 'X'
    ensures ParseInt("-" + NatToString(m) + rest) == Some(0 - m)
  {
    var u := NatToString(m) + rest;
    var s := "-" + NatToString(m) + rest;
    assert s[1..] == u;
    assert Unsigned(s) == u && IsNegative(s) by {
      assert s[0] == '-';
    }
    assert ParseMagnitude(u) == Some(m) by {
      ParseMagnitudeOfDecimal(m, rest);
    }
    assert TrimStart(s) == s by {
      assert s[0] == '-';
      TrimStartOfNonSpace(s);
    }
  }

  /**
   * `parseInt` reads back the decimal rendering of any integer, whatever
   * non-digit text follows it (for 0, the text must not turn it into a
   * `0x` prefix).
   */
  lemma ParseIntReadsDecimal(n: int, rest: string)
    requires rest == [] || DigitValue(rest[0]) >= 10
    requires n == 0 && rest != [] ==> rest[0] != 'x' && rest[0] != 'X'
    ensures ParseInt(IntToString(n) + rest) == Some(n)
  {
    if n < 0 {
      ParseIntReadsNegative(-n, rest);
    } else {
      ParseIntReadsNat(n, rest);
    }
  }

  lemma {:induction false} TrimStartSkipsWhitespace(ws: string, s: string)
    requires AllWhitespace(ws)
    ensures TrimStart(ws + s) == TrimStart(s)
  {
    if ws != [] {
      assert (ws + s)[0] == ws[0];
      assert (ws + s)[1..] == ws[1..] + s;
      TrimStartSkipsWhitespace(ws[1..], s);
    } else {
      assert ws + s == s;
    }
  }

  /** Leading whitespace never changes what `parseInt` reads. */
  lemma ParseIntSkipsWhitespace(ws: string, s: string)
    requires AllWhitespace(ws)
    ensures ParseInt(ws + s) == ParseInt(s)
  {
    TrimStartSkipsWhitespace(ws, s);
  }

  /** Text without any decimal digit (empty, blank, a word, a lone sign) is `NaN`. */
  lemma ParseIntNaN(s: string)
    requires forall k :: 0 <= k < |s| ==> DigitValue(s[k]) >= 10
    ensures ParseInt(s) == None
  {
    TrimStartFacts(s);
    var u := Unsigned(TrimStart(s));
    assert forall k :: 0 <= k < |u| ==> DigitValue(u[k]) >= 10;
  }

  /** `0x` switches to base 16: `parseInt("0x1A")` is 26. */
  lemma ParseIntHex()
    ensures ParseInt("0x1A") == Some(26)
  {
    assert TrimStart("0x1A") == "0x1A";
    assert "0x1A"[2..] == "1A";
    DigitRunStops("1A", 16, "");
    assert "1A" + "" == "1A";
    assert "1A"[..1] == "1";
    assert DigitsValue("1", 16) == 1;
  }

  // ---------------------------------------------------------------- toLowerCase

  function LowerChar(c: char): (d: char)
  {
    if 65 <= c as int <= 90 then (c as int + 32) as char else c
  }

  /** `s.toLowerCase()` on ASCII letters; every other character is kept. */
  function ToLower(s: string): (r: string)
    ensures |r| == |s|
    ensures forall k :: 0 <= k < |s| ==> r[k] == LowerChar(s[k])
  {
    if s == [] then [] else [LowerChar(s[0])] + ToLower(s[1..])
  }

  /** Lower-casing twice is lower-casing once; the result has no ASCII capital. */
  lemma {:induction false} ToLowerIdempotent(s: string)
    ensures ToLower(ToLower(s)) == ToLower(s)
    ensures forall k :: 0 <= k < |s| ==> !(65 <= ToLower(s)[k] as int <= 90)
  {
    var r := ToLower(s);
    assert forall k :: 0 <= k < |r| ==> LowerChar(r[k]) == r[k];
    assert ToLower(r) == r;
  }
}
