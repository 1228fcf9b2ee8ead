/**
  The Python string operations the catalogue code relies on, over `string`
  (a `seq<char>`): `strip`, `split`, `find`, `in`, slicing with negative and
  out-of-range indices, `int()`, `float()` and decimal rendering.
 */
module Text {
  import opened Base

  /** The characters Python's argument-less `str.strip()` and `str.split()` treat as whitespace. */
  const Whitespace: set<char> := {' ', '\t', '\n', '\r', '\U{000B}', '\U{000C}'}

  // ---------------------------------------------------------------------------
  // strip

  /** `s.lstrip(cs)`: drops the longest prefix made of characters in `cs`. */
  function LStrip(s: string, cs: set<char>): (r: string)
    ensures |r| <= |s| && r == s[|s| - |r|..]
    ensures r != [] ==> r[0] !in cs
    ensures forall i :: 0 <= i < |s| - |r| ==> s[i] in cs
  {
    if |s| > 0 && s[0] in cs then LStrip(s[1..], cs) else s
  }

  /** `s.rstrip(cs)`: drops the longest suffix made of characters in `cs`. */
  function RStrip(s: string, cs: set<char>): (r: string)
    ensures |r| <= |s| && r == s[..|r|]
    ensures r != [] ==> r[|r| - 1] !in cs
    ensures forall i :: |r| <= i < |s| ==> s[i] in cs
  {
    if |s| > 0 && s[|s| - 1] in cs then RStrip(s[..|s| - 1], cs) else s
  }

  /** `s.strip(cs)`: both ends. */
  function Strip(s: string, cs: set<char>): (r: string)
    ensures |r| <= |s|
    ensures r != [] ==> r[0] !in cs && r[|r| - 1] !in cs
    ensures (forall i :: 0 <= i < |s| ==> s[i] in cs) <==> r == []
  {
    var l := LStrip(s, cs);
    var r := RStrip(l, cs);
    assert r != [] ==> s[|s| - |l|] == r[0];
    r
  }

  /** A string with no characters of `cs` at either end strips to itself. */
  lemma StripUnpadded(s: string, cs: set<char>)
    requires s != [] ==> s[0] !in cs && s[|s| - 1] !in cs
    ensures Strip(s, cs) == s
  {
  }

  /** `t.rjust(w)`: `t` right-aligned in a field of at least `w` characters. */
  function PadLeft(t: string, w: nat): (r: string)
    ensures |r| == if |t| < w then w else |t|
  {
    Repeat(' ', if |t| < w then w - |t| else 0) + t
  }

  /** `t.ljust(w)`: `t` left-aligned in a field of at least `w` characters. */
  function PadRight(t: string, w: nat): (r: string)
    ensures |r| == if |t| < w then w else |t|
  {
    t + Repeat(' ', if |t| < w then w - |t| else 0)
  }

  /** Leading spaces go, and stripping stops at the first other character. */
  lemma LStripSpaces(k: nat, u: string, cs: set<char>)
    requires ' ' in cs
    requires u != [] ==> u[0] !in cs
    ensures LStrip(Repeat(' ', k) + u, cs) == u
  {
    var s := Repeat(' ', k) + u;
    var r := LStrip(s, cs);
    assert forall i :: 0 <= i < k ==> s[i] == ' ';
    assert u != [] ==> s[k] == u[0];
    assert |r| == |u|;
    assert s[k..] == u;
  }

  /** Trailing spaces go, and stripping stops at the last other character. */
  lemma RStripSpaces(u: string, j: nat, cs: set<char>)
    requires ' ' in cs
    requires u != [] ==> u[|u| - 1] !in cs
    ensures RStrip(u + Repeat(' ', j), cs) == u
  {
    var s := u + Repeat(' ', j);
    var r := RStrip(s, cs);
    assert forall i :: |u| <= i < |s| ==> s[i] == ' ';
    assert u != [] ==> s[|u| - 1] == u[|u| - 1];
    assert |r| == |u|;
    assert s[..|u|] == u;
  }

  /** A field padded with spaces on either side strips back to its text. */
  lemma StripSpaces(t: string, k: nat, j: nat, cs: set<char>)
    requires ' ' in cs
    requires t != [] && t[0] !in cs && t[|t| - 1] !in cs
    ensures Strip(Repeat(' ', k) + t + Repeat(' ', j), cs) == t
  {
    var tail := t + Repeat(' ', j);
    assert Repeat(' ', k) + t + Repeat(' ', j) == Repeat(' ', k) + tail;
    LStripSpaces(k, tail, cs);
    RStripSpaces(t, j, cs);
  }

  // ---------------------------------------------------------------------------
  // split and join on one separator character

  /** `s.split(sep)` for a one-character separator: never empty, parts hold no separator. */
  function Split(s: string, sep: char): (parts: seq<string>)
    ensures |parts| >= 1
    ensures forall i :: 0 <= i < |parts| ==> sep !in parts[i]
    ensures sep !in s ==> parts == [s]
    ensures sep in s ==> parts[0] == s[..IndexOf(s, sep)] && |parts| >= 2
    decreases |s|
  {
    if sep !in s then [s]
    else
      var i := IndexOf(s, sep);
      [s[..i]] + Split(s[i + 1..], sep)
  }

  /** `sep.join(parts)`. */
  function Join(parts: seq<string>, sep: string): string
  {
    if |parts| == 0 then []
    else if |parts| == 1 then parts[0]
    else parts[0] + sep + Join(parts[1..], sep)
  }

  /** Joining a part in front of at least one more. */
  lemma JoinCons(p: string, ps: seq<string>, sep: string)
    requires |ps| > 0
    ensures Join([p] + ps, sep) == p + (sep + Join(ps, sep))
  {
    var u := [p] + ps;
    assert u[0] == p && u[1..] == ps;
  }

  /** Splitting and re-joining on the same separator gives the string back. */
  lemma {:induction false} JoinSplit(s: string, sep: char)
    ensures Join(Split(s, sep), [sep]) == s
    decreases |s|
  {
    if sep in s {
      var i := IndexOf(s, sep);
      var rest := s[i + 1..];
      JoinSplit(rest, sep);
      assert Split(s, sep) == [s[..i]] + Split(rest, sep);
      assert s == s[..i] + [sep] + rest;
    }
  }

  /** Splitting a join of separator-free parts gives the parts back. */
  lemma {:induction false} SplitJoin(parts: seq<string>, sep: char)
    requires |parts| >= 1
    requires forall i :: 0 <= i < |parts| ==> sep !in parts[i]
    ensures Split(Join(parts, [sep]), sep) == parts
    decreases |parts|
  {
    if |parts| > 1 {
      var p := parts[0];
      var tail := Join(parts[1..], [sep]);
      var s := p + ([sep] + tail);
      assert Join(parts, [sep]) == s;
      SplitJoin(parts[1..], sep);
      IndexOfAfterFree(p, [sep] + tail, sep);
      assert s[..|p|] == p;
      assert s[|p| + 1..] == tail;
      assert Split(s, sep) == [p] + Split(tail, sep);
      assert parts == [p] + parts[1..];
    }
  }

  /** The first separator of `a + b` when `a` holds none lies in `b`. */
  lemma IndexOfAfterFree(a: string, b: string, sep: char)
    requires sep !in a && |b| > 0 && b[0] == sep
    ensures sep in a + b && IndexOf(a + b, sep) == |a|
  {
    var s := a + b;
    assert s[|a|] == sep;
    assert forall j :: 0 <= j < |a| ==> s[j] == a[j];
  }

  // ---------------------------------------------------------------------------
  // whitespace tokens (`str.split()` without argument)

  /** Length of the leading run of non-whitespace characters. */
  function RunLength(t: string): (n: nat)
    ensures n <= |t|
    ensures forall i :: 0 <= i < n ==> t[i] !in Whitespace
    ensures n < |t| ==> t[n] in Whitespace
  {
    if |t| == 0 || t[0] in Whitespace then 0 else 1 + RunLength(t[1..])
  }

  /** No character of `t` is whitespace. */
  predicate NoSpace(t: string)
  {
    forall j :: 0 <= j < |t| ==> t[j] !in Whitespace
  }

  /** A non-empty run of non-whitespace characters. */
  predicate IsToken(t: string)
  {
    |t| > 0 && NoSpace(t)
  }

  /** `s.split()`: the maximal runs of non-whitespace characters, in order. */
  function Tokens(s: string): (ts: seq<string>)
    ensures forall i :: 0 <= i < |ts| ==> IsToken(ts[i])
    decreases |s|
  {
    var t := LStrip(s, Whitespace);
    if t == [] then []
    else
      var n := RunLength(t);
      RunIsToken(t);
      var rest := Tokens(t[n..]);
      TokenListCons(t[..n], rest);
      [t[..n]] + rest
  }

  /** A token in front of a list of tokens gives a list of tokens. */
  lemma TokenListCons(t: string, ts: seq<string>)
    requires IsToken(t)
    requires forall i :: 0 <= i < |ts| ==> IsToken(ts[i])
    ensures forall i :: 0 <= i < |[t] + ts| ==> IsToken(([t] + ts)[i])
  {
    forall i | 0 <= i < |[t] + ts|
      ensures IsToken(([t] + ts)[i])
    {
      if i > 0 {
        assert ([t] + ts)[i] == ts[i - 1];
      }
    }
  }

  /** The leading run of a string that starts outside whitespace is a token. */
  lemma RunIsToken(t: string)
    requires t != [] && t[0] !in Whitespace
    ensures RunLength(t) > 0 && IsToken(t[..RunLength(t)])
  {
    var n := RunLength(t);
    assert forall j :: 0 <= j < n ==> t[..n][j] == t[j];
  }

  /** Joining tokens with single spaces and splitting on whitespace gives the tokens back. */
  lemma {:induction false} TokensOfSpaced(ts: seq<string>)
    requires forall i :: 0 <= i < |ts| ==> IsToken(ts[i])
    ensures Tokens(Join(ts, " ")) == ts
    decreases |ts|
  {
    if |ts| == 0 {
      assert LStrip([], Whitespace) == [];
    } else if |ts| == 1 {
      TokensOfOne(ts[0]);
    } else {
      TokensOfSpaced(ts[1..]);
      TokensOfMore(ts[0], ts[1..]);
    }
  }

  lemma TokensOfOne(t: string)
    requires IsToken(t)
    ensures Tokens(Join([t], " ")) == [t]
  {
    TokensCons(t, []);
    assert t + [] == t;
    assert LStrip([], Whitespace) == [];
  }

  lemma TokensOfMore(t: string, ts: seq<string>)
    requires IsToken(t) && |ts| > 0
    ensures Tokens(Join([t] + ts, " ")) == [t] + Tokens(Join(ts, " "))
  {
    var rest := Join(ts, " ");
    JoinCons(t, ts, " ");
    TokensCons(t, " " + rest);
    TokensAfterSpace(rest);
  }

  /** A token followed by whitespace or nothing is the first token. */
  lemma TokensCons(t: string, u: string)
    requires IsToken(t)
    requires u != [] ==> u[0] in Whitespace
    ensures Tokens(t + u) == [t] + Tokens(u)
  {
    var s := t + u;
    assert s[0] == t[0];
    assert LStrip(s, Whitespace) == s;
    RunLengthFree(t, u);
    assert s[..|t|] == t;
    assert s[|t|..] == u;
    if u == [] {
      assert LStrip(u, Whitespace) == [];
    } else {
      assert LStrip(u, Whitespace) == LStrip(u[1..], Whitespace);
      assert Tokens(u) == Tokens(u[1..]) by { TokensSkipSpace(u); }
    }
  }

  /** Leading whitespace does not change the tokens. */
  lemma TokensSkipSpace(u: string)
    requires u != [] && u[0] in Whitespace
    ensures Tokens(u) == Tokens(u[1..])
  {
    assert LStrip(u, Whitespace) == LStrip(u[1..], Whitespace);
  }

  /** One leading space does not change the tokens. */
  lemma TokensAfterSpace(rest: string)
    ensures Tokens(" " + rest) == Tokens(rest)
  {
    TokensSkipSpace(" " + rest);
    assert (" " + rest)[1..] == rest;
  }

  /** The run of a whitespace-free string followed by whitespace (or nothing) is that string. */
  lemma {:induction false} RunLengthFree(t: string, u: string)
    requires NoSpace(t)
    requires u != [] ==> u[0] in Whitespace
    ensures RunLength(t + u) == |t|
    decreases |t|
  {
    if |t| > 0 {
      RunLengthFree(t[1..], u);
      assert (t + u)[1..] == t[1..] + u;
    } else {
      assert t + u == u;
    }
  }

  // ---------------------------------------------------------------------------
  // substring search

  /** `pat` occurs in `s` starting at position `i`. */
  predicate OccursAt(s: string, pat: string, i: int)
  {
    0 <= i && i + |pat| <= |s| && s[i..i + |pat|] == pat
  }

  /** The first occurrence of `pat` at or after `k`, or -1. */
  function FindFrom(s: string, pat: string, k: nat): (r: int)
    requires k <= |s|
    ensures r == -1 || (k <= r && OccursAt(s, pat, r))
    ensures r >= 0 ==> forall j :: k <= j < r ==> !OccursAt(s, pat, j)
    ensures r == -1 ==> forall j :: k <= j ==> !OccursAt(s, pat, j)
    decreases |s| - k
  {
    if k + |pat| > |s| then -1
    else if s[k..k + |pat|] == pat then k
    else FindFrom(s, pat, k + 1)
  }

  /** `s.find(pat)`: the first index of `pat` in `s`, or -1. */
  function Find(s: string, pat: string): (r: int)
    ensures -1 <= r <= |s|
    ensures r >= 0 ==> OccursAt(s, pat, r) && forall j :: 0 <= j < r ==> !OccursAt(s, pat, j)
    ensures r == -1 <==> forall j :: !OccursAt(s, pat, j)
  {
    FindFrom(s, pat, 0)
  }

  /** Python's `pat in s` for strings. */
  predicate Contains(s: string, pat: string)
  {
    Find(s, pat) >= 0
  }

  /** `pat in s` exactly when `pat` occurs at some position. */
  lemma ContainsAt(s: string, pat: string, i: int)
    requires OccursAt(s, pat, i)
    ensures Contains(s, pat)
  {
  }

  /** A string that occurs inside `a` occurs inside `a + b` and `b + a`. */
  lemma ContainsConcat(a: string, b: string, pat: string)
    requires Contains(a, pat)
    ensures Contains(a + b, pat) && Contains(b + a, pat)
  {
    var i := Find(a, pat);
    assert (a + b)[i..i + |pat|] == a[i..i + |pat|];
    assert OccursAt(a + b, pat, i);
    assert (b + a)[|b| + i..|b| + i + |pat|] == a[i..i + |pat|];
    assert OccursAt(b + a, pat, |b| + i);
  }

  /** `s.rfind(c)` for one character: the last index of `c`, or -1. */
  function RFindChar(s: string, c: char): (r: int)
    ensures -1 <= r < |s|
    ensures r >= 0 ==> s[r] == c
    ensures forall j :: r < j < |s| ==> s[j] != c
  {
    if |s| == 0 then -1
    else if s[|s| - 1] == c then |s| - 1
    else RFindChar(s[..|s| - 1], c)
  }

  // ---------------------------------------------------------------------------
  // Python slicing

  /** Normalises one slice bound the way Python does: negative counts from the end, then clamps. */
  function SliceBound(i: int, n: nat): (k: nat)
    ensures k <= n
    ensures 0 <= i <= n ==> k == i
    ensures i < 0 && i + n >= 0 ==> k == i + n
  {
    if i < 0 then (if i + n < 0 then 0 else i + n)
    else if i > n then n
    else i
  }

  /** `s[i:j]` with Python's semantics: never fails, empty when the bounds cross. */
  function PySlice(s: string, i: int, j: int): (r: string)
    ensures |r| <= |s|
    ensures 0 <= i <= j <= |s| ==> r == s[i..j]
    ensures 0 <= i <= j ==> |r| <= j - i
  {
    var a := SliceBound(i, |s|);
    var b := SliceBound(j, |s|);
    if b <= a then [] else s[a..b]
  }

  // ---------------------------------------------------------------------------
  // decimal digits

  predicate IsDigit(c: char)
  {
    '0' <= c <= '9'
  }

  predicate AllDigits(s: string)
  {
    forall i :: 0 <= i < |s| ==> IsDigit(s[i])
  }

  function DigitValue(c: char): (d: nat)
    requires IsDigit(c)
    ensures d < 10
  {
    c as int - '0' as int
  }

  function DigitChar(d: nat): (c: char)
    requires d < 10
    ensures IsDigit(c) && DigitValue(c) == d
  {
    ('0' as int + d) as char
  }

  /** The number a string of decimal digits denotes. */
  function DigitsValue(s: string): nat
    requires AllDigits(s)
  {
    if |s| == 0 then 0 else DigitsValue(s[..|s| - 1]) * 10 + DigitValue(s[|s| - 1])
  }

  /** `str(n)` for a natural number: digits only, no leading zero. */
  function NatToString(n: nat): (r: string)
    ensures |r| >= 1 && AllDigits(r)
    ensures |r| > 1 ==> r[0] != '0'
  {
    if n < 10 then [DigitChar(n)] else NatToString(n / 10) + [DigitChar(n % 10)]
  }

  /** Rendering a natural number and reading it back gives the number. */
  lemma {:induction false} NatToStringRoundTrip(n: nat)
    ensures DigitsValue(NatToString(n)) == n
  {
    if n >= 10 {
      NatToStringRoundTrip(n / 10);
      var s := NatToString(n);
      assert s[..|s| - 1] == NatToString(n / 10);
    }
  }

  /** `str(i)` for any integer. */
  function IntToString(i: int): (r: string)
    ensures |r| >= 1
    ensures i >= 0 ==> AllDigits(r)
    ensures i < 0 ==> r[0] == '-' && AllDigits(r[1..])
  {
    if i < 0 then "-" + NatToString(-i) else NatToString(i)
  }

  /** `k` copies of `c`. */
  function Repeat(c: char, k: nat): (r: string)
    ensures |r| == k && forall i :: 0 <= i < k ==> r[i] == c
  {
    if k == 0 then [] else [c] + Repeat(c, k - 1)
  }

  /** `"%0*d" % (width, n)`: `n` in decimal, left-padded with zeros to at least `width` characters. */
  function ZeroPad(n: nat, width: nat): (r: string)
    ensures AllDigits(r)
    ensures |r| == if |NatToString(n)| < width then width else |NatToString(n)|
  {
    var s := NatToString(n);
    Repeat('0', if |s| < width then width - |s| else 0) + s
  }

  /** Leading zeros do not change the value of a digit string. */
  lemma {:induction false} LeadingZeros(k: nat, s: string)
    requires AllDigits(s)
    ensures AllDigits(Repeat('0', k) + s)
    ensures DigitsValue(Repeat('0', k) + s) == DigitsValue(s)
    decreases |s|
  {
    var z := Repeat('0', k);
    if |s| == 0 {
      assert z + s == z;
      AllZeros(k);
    } else {
      var init := s[..|s| - 1];
      LeadingZeros(k, init);
      assert (z + s)[..|z + s| - 1] == z + init;
    }
  }

  /** A run of zeros is worth zero. */
  lemma {:induction false} AllZeros(k: nat)
    ensures AllDigits(Repeat('0', k))
    ensures DigitsValue(Repeat('0', k)) == 0
  {
    if k > 0 {
      AllZeros(k - 1);
      var z := Repeat('0', k);
      assert z[..k - 1] == Repeat('0', k - 1);
    }
  }

  /** A zero-padded rendering reads back as the number it renders. */
  lemma ZeroPadRoundTrip(n: nat, width: nat)
    ensures DigitsValue(ZeroPad(n, width)) == n
  {
    var s := NatToString(n);
    LeadingZeros(if |s| < width then width - |s| else 0, s);
    NatToStringRoundTrip(n);
  }

  /** Distinct numbers have distinct zero-padded renderings. */
  lemma ZeroPadInjective(m: nat, n: nat, width: nat)
    requires m != n
    ensures ZeroPad(m, width) != ZeroPad(n, width)
  {
    ZeroPadRoundTrip(m, width);
    ZeroPadRoundTrip(n, width);
  }

  // ---------------------------------------------------------------------------
  // int() and float()

  /** The text after an optional leading sign. */
  function Unsigned(t: string): string
  {
    if |t| > 0 && (t[0] == '-' || t[0] == '+') then t[1..] else t
  }

  /** The text starts with a minus sign. */
  predicate Negative(t: string)
  {
    |t| > 0 && t[0] == '-'
  }

  /** An integer literal with surrounding whitespace already removed: one optional sign, then decimal digits. */
  function IntLiteral(t: string): (r: Result<int>)
    ensures t == [] ==> r.Err?
    ensures AllDigits(t) && t != [] ==> r == Ok(DigitsValue(t))
  {
    var body := Unsigned(t);
    if |body| > 0 && AllDigits(body) then Ok(if Negative(t) then -(DigitsValue(body) as int) else DigitsValue(body))
    else Err(ValueError("invalid literal for int()"))
  }

  /** Python's `int(s)`: surrounding whitespace and one sign allowed, then decimal digits; otherwise `ValueError`. */
  function PyInt(s: string): (r: Result<int>)
    ensures Strip(s, Whitespace) == [] ==> r.Err?
    ensures AllDigits(s) && s != [] ==> r == Ok(DigitsValue(s))
  {
    DigitsUnpadded(s);
    IntLiteral(Strip(s, Whitespace))
  }

  /** A nonempty string of digits has no surrounding whitespace. */
  lemma DigitsUnpadded(s: string)
    ensures AllDigits(s) && s != [] ==> Strip(s, Whitespace) == s
  {
    if AllDigits(s) && s != [] {
      assert IsDigit(s[0]) && IsDigit(s[|s| - 1]);
      StripUnpadded(s, Whitespace);
    }
  }

  /** `int(str(i)) == i`. */
  lemma PyIntRoundTrip(i: int)
    ensures PyInt(IntToString(i)) == Ok(i)
  {
    var s := IntToString(i);
    StripUnpadded(s, Whitespace);
    if i < 0 {
      NatToStringRoundTrip(-i);
      assert Unsigned(s) == NatToString(-i);
    } else {
      NatToStringRoundTrip(i);
    }
  }

  /** The value of the digits after a decimal point: `0.d1d2...`. */
  function FractionValue(fp: string): (v: real)
    requires AllDigits(fp)
    ensures 0.0 <= v <= 1.0
  {
    if |fp| == 0 then 0.0 else (DigitValue(fp[0]) as real + FractionValue(fp[1..])) / 10.0
  }

  /** The value of a decimal mantissa `ip.fp`. */
  function MantissaValue(ip: string, fp: string): (v: real)
    requires AllDigits(ip) && AllDigits(fp)
    ensures v >= 0.0
  {
    DigitsValue(ip) as real + FractionValue(fp)
  }

  /** An unsigned decimal `12`, `3.5`, `.25` or `7.`: at least one digit, at most one point. */
  function ParseMantissa(body: string): (r: Option<real>)
    ensures body == [] ==> r.None?
    ensures AllDigits(body) && body != [] ==> r == Some(DigitsValue(body) as real)
    ensures r.Some? ==> r.value >= 0.0
  {
    if '.' in body then
      var k := IndexOf(body, '.');
      var ip := body[..k];
      var fp := body[k + 1..];
      if |ip| + |fp| > 0 && AllDigits(ip) && AllDigits(fp) then Some(MantissaValue(ip, fp))
      else None
    else if |body| > 0 && AllDigits(body) then Some(DigitsValue(body) as real)
    else None
  }

  /** A decimal literal with surrounding whitespace already removed: one optional sign, then a mantissa. */
  function FloatLiteral(t: string): (r: Result<real>)
    ensures t == [] ==> r.Err?
    ensures r.Ok? ==> ParseMantissa(Unsigned(t)).Some?
  {
    match ParseMantissa(Unsigned(t))
    case Some(v) => Ok(if Negative(t) then -v else v)
    case None => Err(ValueError("could not convert string to float"))
  }

  /** Python's `float(s)` for plain decimal notation, with surrounding whitespace and one sign; otherwise `ValueError`. */
  function PyFloat(s: string): (r: Result<real>)
    ensures Strip(s, Whitespace) == [] ==> r.Err?
  {
    FloatLiteral(Strip(s, Whitespace))
  }

  /** `int()` reads only the stripped text. */
  lemma PyIntOfStripped(s: string, t: string)
    requires Strip(s, Whitespace) == Strip(t, Whitespace)
    ensures PyInt(s) == PyInt(t)
  {
  }

  /** `float()` reads only the stripped text. */
  lemma PyFloatOfStripped(s: string, t: string)
    requires Strip(s, Whitespace) == Strip(t, Whitespace)
    ensures PyFloat(s) == PyFloat(t)
  {
  }

  /** Digits are not whitespace, so a rendered number strips to itself. */
  lemma NatStringUnpadded(n: nat)
    ensures Strip(NatToString(n), Whitespace) == NatToString(n)
    ensures Strip("-" + NatToString(n), Whitespace) == "-" + NatToString(n)
  {
    var d := NatToString(n);
    assert IsDigit(d[0]) && IsDigit(d[|d| - 1]);
    StripUnpadded(d, Whitespace);
    StripUnpadded("-" + d, Whitespace);
  }

  /** A rendered natural number carries no sign. */
  lemma NatStringUnsigned(n: nat)
    ensures Unsigned(NatToString(n)) == NatToString(n) && !Negative(NatToString(n))
  {
    var d := NatToString(n);
    assert IsDigit(d[0]);
  }

  /** `float()` of a stripped, unsigned mantissa is its value. */
  lemma PyFloatUnsigned(t: string, v: real)
    requires Strip(t, Whitespace) == t && Unsigned(t) == t && !Negative(t)
    requires ParseMantissa(t) == Some(v)
    ensures PyFloat(t) == Ok(v)
  {
  }

  /** A rendered natural number parses as a mantissa to its value. */
  lemma MantissaOfNat(n: nat)
    ensures ParseMantissa(NatToString(n)) == Some(n as real)
  {
    NatToStringRoundTrip(n);
  }

  /** `float(str(n)) == n` for natural numbers. */
  lemma PyFloatOfNat(n: nat)
    ensures PyFloat(NatToString(n)) == Ok(n as real)
  {
    NatStringUnpadded(n);
    NatStringUnsigned(n);
    MantissaOfNat(n);
    PyFloatUnsigned(NatToString(n), n as real);
  }
}
