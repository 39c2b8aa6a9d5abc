/**
 * The parts of Python's `str` and `int` behaviour the survey core relies on, over `seq<char>`:
 * whitespace (`isspace`, `strip`, `split()`), ASCII case mapping, splitting on and joining with a
 * separator, decimal digits (`str(int)`, `int(str)`) and `zfill`.
 */
module Strings {
  import opened Wrappers

  // ---------------------------------------------------------------------------------------------
  // Whitespace

  /** `str.isspace()` for one character: the whitespace set that `strip`, `split()` and `int()` use. */
  predicate IsSpace(c: char) {
    || c == ' '
    || ('\t' <= c <= '\r')
    || ('\U{1C}' <= c <= '\U{1F}')
    || c == '\U{85}' || c == '\U{A0}' || c == '\U{1680}'
    || ('\U{2000}' <= c <= '\U{200A}')
    || c == '\U{2028}' || c == '\U{2029}' || c == '\U{202F}' || c == '\U{205F}' || c == '\U{3000}'
  }

  /** Every character is whitespace (the empty string included). */
  predicate IsBlank(s: string) {
    forall i :: 0 <= i < |s| ==> IsSpace(s[i])
  }

  /** Neither end of `s` is whitespace: what `Strip` leaves. */
  predicate IsTrimmed(s: string) {
    s != [] ==> !IsSpace(s[0]) && !IsSpace(s[|s| - 1])
  }

  function TrimLeft(s: string): (r: string)
    ensures |r| <= |s| && r == s[|s| - |r|..]
    ensures forall i :: 0 <= i < |s| - |r| ==> IsSpace(s[i])
    ensures r != [] ==> !IsSpace(r[0])
  {
    if s != [] && IsSpace(s[0]) then
      var r := TrimLeft(s[1..]);
      assert s[1..][|s| - 1 - |r|..] == s[|s| - |r|..];
      r
    else s
  }

  function TrimRight(s: string): (r: string)
    ensures |r| <= |s| && r == s[..|r|]
    ensures forall i :: |r| <= i < |s| ==> IsSpace(s[i])
    ensures r != [] ==> !IsSpace(r[|r| - 1])
  {
    if s != [] && IsSpace(s[|s| - 1]) then TrimRight(s[..|s| - 1]) else s
  }

  /** `str.strip()`: removes leading and trailing whitespace. */
  function Strip(s: string): (r: string)
    ensures IsTrimmed(r)
    ensures r == [] <==> IsBlank(s)
    ensures |r| <= |s|
  {
    var l := TrimLeft(s);
    var r := TrimRight(l);
    assert r != [] ==> r[0] == s[|s| - |l|];
    r
  }

  /** Stripping removes exactly the whitespace around a trimmed core. */
  lemma StripExact(lead: string, core: string, trail: string)
    requires IsBlank(lead) && IsBlank(trail) && IsTrimmed(core)
    ensures Strip(lead + core + trail) == core
  {
    var s := lead + core + trail;
    if core == [] {
      assert IsBlank(s) by {
        forall i | 0 <= i < |s| ensures IsSpace(s[i]) {
          if i < |lead| { assert s[i] == lead[i]; } else { assert s[i] == trail[i - |lead|]; }
        }
      }
    } else {
      assert s == lead + (core + trail);
      TrimLeftExact(lead, core + trail);
      TrimRightExact(core, trail);
    }
  }

  /** Left-trimming removes exactly a blank prefix before a non-space character. */
  lemma TrimLeftExact(lead: string, rest: string)
    requires IsBlank(lead) && rest != [] && !IsSpace(rest[0])
    ensures TrimLeft(lead + rest) == rest
  {
    var s := lead + rest;
    var k := |s| - |TrimLeft(s)|;
    assert s[|lead|] == rest[0];
    assert forall i :: 0 <= i < |lead| ==> s[i] == lead[i];
    assert k == |lead|;
  }

  /** Right-trimming removes exactly a blank suffix after a non-space character. */
  lemma TrimRightExact(core: string, trail: string)
    requires IsBlank(trail) && core != [] && !IsSpace(core[|core| - 1])
    ensures TrimRight(core + trail) == core
  {
    var s := core + trail;
    var r := TrimRight(s);
    assert s[|core| - 1] == core[|core| - 1];
    assert forall i :: |core| <= i < |s| ==> s[i] == trail[i - |core|];
    assert |r| == |core|;
  }

  /** A trimmed string is its own strip. */
  lemma StripTrimmed(s: string)
    requires IsTrimmed(s)
    ensures Strip(s) == s
  {
    StripExact("", s, "");
    assert "" + s + "" == s;
  }

  // ---------------------------------------------------------------------------------------------
  // ASCII case mapping

  predicate IsUpper(c: char) { 'A' <= c <= 'Z' }
  predicate IsLower(c: char) { 'a' <= c <= 'z' }

  function LowerChar(c: char): (d: char)
    ensures !IsUpper(d)
  {
    if IsUpper(c) then (c as int + 32) as char else c
  }

  function UpperChar(c: char): (d: char)
    ensures !IsLower(d)
  {
    if IsLower(c) then (c as int - 32) as char else c
  }

  /** `str.lower()` on ASCII letters: no upper-case letter is left, everything else is kept. */
  function Lower(s: string): (r: string)
    ensures |r| == |s|
    ensures forall i :: 0 <= i < |s| ==> r[i] == LowerChar(s[i]) && !IsUpper(r[i])
  {
    seq(|s|, i requires 0 <= i < |s| => LowerChar(s[i]))
  }

  /** `str.upper()` on ASCII letters: no lower-case letter is left, everything else is kept. */
  function Upper(s: string): (r: string)
    ensures |r| == |s|
    ensures forall i :: 0 <= i < |s| ==> r[i] == UpperChar(s[i]) && !IsLower(r[i])
  {
    seq(|s|, i requires 0 <= i < |s| => UpperChar(s[i]))
  }

  // ---------------------------------------------------------------------------------------------
  // Splitting and joining

  /** `sep.join(parts)`. */
  function JoinWith(parts: seq<string>, sep: string): string
  {
    if |parts| == 0 then ""
    else if |parts| == 1 then parts[0]
    else parts[0] + sep + JoinWith(parts[1..], sep)
  }

  /** The join starts with the first part and ends with the last. */
  lemma {:induction false} JoinWithEnds(parts: seq<string>, sep: string)
    requires |parts| > 0
    ensures var r := JoinWith(parts, sep);
      |r| >= |parts[0]| && r[..|parts[0]|] == parts[0] &&
      |r| >= |parts[|parts| - 1]| && r[|r| - |parts[|parts| - 1]|..] == parts[|parts| - 1]
    decreases |parts|
  {
    if |parts| > 1 {
      JoinWithEnds(parts[1..], sep);
      var tail := JoinWith(parts[1..], sep);
      var r := parts[0] + sep + tail;
      assert JoinWith(parts, sep) == r;
      assert parts[1..][|parts[1..]| - 1] == parts[|parts| - 1];
      assert r[|r| - |tail|..] == tail;
    }
  }

  /** `s.split(sep)` for a one-character separator: at least one part, none containing `sep`. */
  function SplitOn(s: string, sep: char): (parts: seq<string>)
    ensures |parts| >= 1
    ensures forall i :: 0 <= i < |parts| ==> sep !in parts[i]
  {
    if s == [] then [""]
    else if s[0] == sep then [""] + SplitOn(s[1..], sep)
    else
      var rest := SplitOn(s[1..], sep);
      [[s[0]] + rest[0]] + rest[1..]
  }

  /** Joining the parts back with the separator gives the original string. */
  lemma {:induction false} JoinSplitOn(s: string, sep: char)
    ensures JoinWith(SplitOn(s, sep), [sep]) == s
  {
    if s == [] {
    } else if s[0] == sep {
      JoinSplitOn(s[1..], sep);
      var rest := SplitOn(s[1..], sep);
      assert SplitOn(s, sep) == [""] + rest;
      assert ([""] + rest)[1..] == rest;
    } else {
      JoinSplitOn(s[1..], sep);
      var rest := SplitOn(s[1..], sep);
      var parts := [[s[0]] + rest[0]] + rest[1..];
      assert SplitOn(s, sep) == parts;
      if |rest| == 1 {
        assert JoinWith(parts, [sep]) == [s[0]] + rest[0];
      } else {
        assert parts[1..] == rest[1..];
        assert JoinWith(rest, [sep]) == rest[0] + [sep] + JoinWith(rest[1..], [sep]);
      }
    }
  }

  lemma {:induction false} SplitOnPrefix(p: string, rest: string, sep: char)
    requires sep !in p
    ensures SplitOn(p + rest, sep) == [p + SplitOn(rest, sep)[0]] + SplitOn(rest, sep)[1..]
  {
    if p != [] {
      SplitOnPrefix(p[1..], rest, sep);
      assert (p + rest)[1..] == p[1..] + rest;
      assert (p + rest)[0] == p[0] != sep;
      assert [p[0]] + (p[1..] + SplitOn(rest, sep)[0]) == p + SplitOn(rest, sep)[0];
    } else {
      assert p + rest == rest;
      var q := SplitOn(rest, sep);
      assert p + q[0] == q[0];
      assert [q[0]] + q[1..] == q;
    }
  }

  /** Splitting a join of separator-free parts gives the parts back. */
  lemma {:induction false} SplitOnJoin(parts: seq<string>, sep: char)
    requires |parts| >= 1
    requires forall i :: 0 <= i < |parts| ==> sep !in parts[i]
    ensures SplitOn(JoinWith(parts, [sep]), sep) == parts
  {
    if |parts| == 1 {
      SplitOnPrefix(parts[0], "", sep);
      assert parts[0] + "" == parts[0];
    } else {
      var tail := JoinWith(parts[1..], [sep]);
      SplitOnJoin(parts[1..], sep);
      assert JoinWith(parts, [sep]) == parts[0] + ([sep] + tail);
      SplitOnPrefix(parts[0], [sep] + tail, sep);
      assert ([sep] + tail)[1..] == tail;
      assert SplitOn([sep] + tail, sep) == [""] + parts[1..];
      assert parts[0] + "" == parts[0];
      assert parts == [parts[0]] + parts[1..];
    }
  }

  /** Joining a list with one more part appends the separator and that part. */
  lemma {:induction false} JoinWithAppend(parts: seq<string>, last: string, sep: string)
    requires |parts| >= 1
    ensures JoinWith(parts + [last], sep) == JoinWith(parts, sep) + sep + last
  {
    var all := parts + [last];
    assert all[0] == parts[0];
    if |parts| == 1 {
      assert all[1..] == [last];
    } else {
      assert all[1..] == parts[1..] + [last];
      JoinWithAppend(parts[1..], last, sep);
    }
  }

  /** A word of `str.split()`: non-empty, no whitespace. */
  predicate IsWord(w: string) {
    w != [] && forall i :: 0 <= i < |w| ==> !IsSpace(w[i])
  }

  /** The longest prefix of `s` without whitespace. */
  function TakeWord(s: string): (w: string)
    ensures |w| <= |s| && w == s[..|w|]
    ensures forall i :: 0 <= i < |w| ==> !IsSpace(w[i])
    ensures |w| < |s| ==> IsSpace(s[|w|])
    ensures s != [] && !IsSpace(s[0]) ==> |w| >= 1
  {
    if s == [] || IsSpace(s[0]) then [] else [s[0]] + TakeWord(s[1..])
  }

  /** `s.split()`: the maximal whitespace-free runs of `s`, in order. */
  function SplitWords(s: string): (ws: seq<string>)
    ensures forall i :: 0 <= i < |ws| ==> IsWord(ws[i])
    decreases |s|
  {
    if s == [] then []
    else if IsSpace(s[0]) then SplitWords(s[1..])
    else
      var w := TakeWord(s);
      [w] + SplitWords(s[|w|..])
  }

  lemma {:induction false} TakeWordOfWord(w: string, rest: string)
    requires forall i :: 0 <= i < |w| ==> !IsSpace(w[i])
    requires rest == [] || IsSpace(rest[0])
    ensures TakeWord(w + rest) == w
  {
    if w != [] {
      assert (w + rest)[1..] == w[1..] + rest;
      TakeWordOfWord(w[1..], rest);
      assert [w[0]] + w[1..] == w;
    } else {
      assert w + rest == rest;
    }
  }

  /** Splitting words joined by single spaces gives the words back. */
  lemma {:induction false} SplitWordsJoin(ws: seq<string>)
    requires forall i :: 0 <= i < |ws| ==> IsWord(ws[i])
    ensures SplitWords(JoinWith(ws, " ")) == ws
  {
    if |ws| == 1 {
      TakeWordOfWord(ws[0], "");
      assert ws[0] + "" == ws[0];
      assert ws[0][|ws[0]|..] == [];
    } else if |ws| > 1 {
      var tail := JoinWith(ws[1..], " ");
      assert JoinWith(ws, " ") == ws[0] + (" " + tail);
      SplitWordsAfterWord(ws[0], tail);
      SplitWordsJoin(ws[1..]);
      assert ws == [ws[0]] + ws[1..];
    }
  }

  /** A word followed by a space splits off first. */
  lemma SplitWordsAfterWord(w: string, tail: string)
    requires IsWord(w)
    ensures SplitWords(w + (" " + tail)) == [w] + SplitWords(tail)
  {
    var rest := " " + tail;
    var s := w + rest;
    TakeWordOfWord(w, rest);
    assert s[|w|..] == rest;
    assert rest[1..] == tail;
  }

  /** Words split off the last one, joined back with a space, re-split into the same words. */
  lemma SplitWordsJoinLast(ws: seq<string>)
    requires |ws| > 1 && forall i :: 0 <= i < |ws| ==> IsWord(ws[i])
    ensures SplitWords(JoinWith(ws[..|ws| - 1], " ") + " " + ws[|ws| - 1]) == ws
  {
    var n := |ws|;
    assert ws == ws[..n - 1] + [ws[n - 1]];
    JoinWithAppend(ws[..n - 1], ws[n - 1], " ");
    SplitWordsJoin(ws);
  }

  /** Leading whitespace adds no word. */
  lemma {:induction false} SplitWordsBlankPrefix(b: string, s: string)
    requires IsBlank(b)
    ensures SplitWords(b + s) == SplitWords(s)
    decreases |b|
  {
    if b == [] {
      assert b + s == s;
    } else {
      assert (b + s)[0] == b[0] && (b + s)[1..] == b[1..] + s;
      SplitWordsBlankPrefix(b[1..], s);
    }
  }

  /** A blank string has no words: `"   ".split() == []`. */
  lemma SplitWordsBlank(s: string)
    requires IsBlank(s)
    ensures SplitWords(s) == []
  {
    SplitWordsBlankPrefix(s, []);
    assert s + [] == s;
  }

  /** A single word is its own split. */
  lemma SplitWordsWord(w: string)
    requires IsWord(w)
    ensures SplitWords(w) == [w]
  {
    TakeWordOfWord(w, []);
    assert w + [] == w;
  }

  /** A word followed by any non-empty run of whitespace is split off as the first word. */
  lemma SplitWordsWordSep(w: string, b: string, rest: string)
    requires IsWord(w) && IsBlank(b) && b != []
    ensures SplitWords(w + b + rest) == [w] + SplitWords(rest)
  {
    var tail := b + rest;
    var s := w + tail;
    assert w + b + rest == s;
    assert tail[0] == b[0];
    TakeWordOfWord(w, tail);
    assert s[|w|..] == tail;
    SplitWordsBlankPrefix(b, rest);
  }

  /** Trailing whitespace adds no word. */
  lemma {:induction false} SplitWordsBlankSuffix(s: string, b: string)
    requires IsBlank(b)
    ensures SplitWords(s + b) == SplitWords(s)
    decreases |s|
  {
    if s == [] {
      assert [] + b == b;
      SplitWordsBlank(b);
    } else if IsSpace(s[0]) {
      assert (s + b)[0] == s[0] && (s + b)[1..] == s[1..] + b;
      SplitWordsBlankSuffix(s[1..], b);
    } else {
      var sb := s + b;
      var w := TakeWord(s);
      var rest := s[|w|..];
      assert s == w + rest && sb == w + (rest + b);
      assert sb[0] == s[0];
      TakeWordOfWord(w, rest + b);
      assert sb[|w|..] == rest + b;
      SplitWordsBlankSuffix(rest, b);
      assert SplitWords(sb) == [w] + SplitWords(rest + b);
    }
  }

  /** Removing the leading whitespace changes no word. */
  lemma SplitWordsTrimLeft(s: string)
    ensures SplitWords(TrimLeft(s)) == SplitWords(s)
  {
    var l := TrimLeft(s);
    var lead := s[..|s| - |l|];
    assert s == lead + l;
    SplitWordsBlankPrefix(lead, l);
  }

  /** Removing the trailing whitespace changes no word. */
  lemma SplitWordsTrimRight(s: string)
    ensures SplitWords(TrimRight(s)) == SplitWords(s)
  {
    var r := TrimRight(s);
    var trail := s[|r|..];
    assert s == r + trail;
    assert IsBlank(trail) by {
      assert forall i :: 0 <= i < |trail| ==> trail[i] == s[|r| + i];
    }
    SplitWordsBlankSuffix(r, trail);
  }

  /** `s.strip().split() == s.split()`: stripping first changes no word. */
  lemma SplitWordsStrip(s: string)
    ensures SplitWords(Strip(s)) == SplitWords(s)
  {
    assert Strip(s) == TrimRight(TrimLeft(s));
    SplitWordsTrimRight(TrimLeft(s));
    SplitWordsTrimLeft(s);
  }

  /** Regrouping of a five-part concatenation, so that the parts can be peeled off from the left. */
  lemma ConcatRegroup(a: string, b: string, c: string, d: string, e: string)
    ensures a + b + c + d + e == a + (b + c + (d + e))
  {
    var y := a + b + c;
    assert y + d + e == y + (d + e);
    assert y + (d + e) == a + (b + c + (d + e));
  }

  /**
   * Two words with any whitespace before, between and after them split into exactly those two
   * words, as "John  Smith", "John\tSmith" and " John Smith " do.
   */
  lemma SplitWordsTwoWords(lead: string, first: string, sep: string, last: string, trail: string)
    requires IsBlank(lead) && IsBlank(sep) && sep != [] && IsBlank(trail)
    requires IsWord(first) && IsWord(last)
    ensures SplitWords(lead + first + sep + last + trail) == [first, last]
  {
    var tail := last + trail;
    var mid := first + sep + tail;
    ConcatRegroup(lead, first, sep, last, trail);
    assert SplitWords(tail) == [last] by {
      SplitWordsBlankSuffix(last, trail);
      SplitWordsWord(last);
    }
    assert SplitWords(mid) == [first, last] by {
      SplitWordsWordSep(first, sep, tail);
      assert [first] + [last] == [first, last];
    }
    SplitWordsBlankPrefix(lead, mid);
  }

  // ---------------------------------------------------------------------------------------------
  // Decimal digits

  predicate IsDigit(c: char) { '0' <= c <= '9' }

  predicate AllDigits(s: string) {
    forall i :: 0 <= i < |s| ==> IsDigit(s[i])
  }

  function DigitValue(c: char): (d: nat)
    requires IsDigit(c)
    ensures d < 10
  {
    c as int - '0' as int
  }

  function DigitChar(d: nat): (c: char)
    requires d < 10
    ensures IsDigit(c) && DigitValue(c) == d
  {
    ('0' as int + d) as char
  }

  /** The number a string of decimal digits denotes (0 for the empty string). */
  function DigitsValue(s: string): nat
    requires AllDigits(s)
  {
    if s == [] then 0 else DigitsValue(s[..|s| - 1]) * 10 + DigitValue(s[|s| - 1])
  }

  function Pow10(n: nat): (p: nat)
    ensures p >= 1
  {
    if n == 0 then 1 else 10 * Pow10(n - 1)
  }

  /** A string of `k` digits denotes a number below `10^k`. */
  lemma {:induction false} DigitsValueBound(s: string)
    requires AllDigits(s)
    ensures DigitsValue(s) < Pow10(|s|)
    decreases |s|
  {
    if s != [] {
      DigitsValueBound(s[..|s| - 1]);
    }
  }

  /** `n` written with exactly `width` digits, zero-padded on the left (strftime's `%02d` and the like). */
  function FixedDigits(n: nat, width: nat): (r: string)
    ensures |r| == width && AllDigits(r)
  {
    if width == 0 then [] else FixedDigits(n / 10, width - 1) + [DigitChar(n % 10)]
  }

  /** Fixed-width digits denote the number they were made from when it fits. */
  lemma {:induction false} FixedDigitsValue(n: nat, width: nat)
    requires n < Pow10(width)
    ensures DigitsValue(FixedDigits(n, width)) == n
  {
    if width > 0 {
      FixedDigitsValue(n / 10, width - 1);
      var r := FixedDigits(n, width);
      assert r[..|r| - 1] == FixedDigits(n / 10, width - 1);
    }
  }

  /** Leading zeros do not change the number a digit string denotes. */
  lemma {:induction false} LeadingZerosValue(z: nat, s: string)
    requires AllDigits(s)
    ensures AllDigits(Zeros(z) + s) && DigitsValue(Zeros(z) + s) == DigitsValue(s)
  {
    if s == [] {
      assert Zeros(z) + s == Zeros(z);
      ZerosValue(z);
    } else {
      var t := Zeros(z) + s;
      assert t[..|t| - 1] == Zeros(z) + s[..|s| - 1];
      LeadingZerosValue(z, s[..|s| - 1]);
    }
  }

  lemma {:induction false} ZerosValue(z: nat)
    ensures DigitsValue(Zeros(z)) == 0
  {
    if z > 0 {
      assert Zeros(z)[..z - 1] == Zeros(z - 1);
      ZerosValue(z - 1);
    }
  }

  /** `str(n)` for a natural number: decimal digits, no leading zero except for 0 itself. */
  function NatToString(n: nat): (r: string)
    ensures AllDigits(r) && |r| >= 1
    ensures r[0] == '0' ==> n == 0
  {
    if n < 10 then [DigitChar(n)] else NatToString(n / 10) + [DigitChar(n % 10)]
  }

  lemma {:induction false} NatToStringValue(n: nat)
    ensures DigitsValue(NatToString(n)) == n
  {
    if n >= 10 {
      NatToStringValue(n / 10);
      var r := NatToString(n);
      assert r[..|r| - 1] == NatToString(n / 10);
    }
  }

  /** `str(i)` for an integer: a minus sign before the digits of a negative number. */
  function IntToString(i: int): (r: string)
    ensures |r| >= 1
    ensures r[0] == '-' <==> i < 0
  {
    if i < 0 then "-" + NatToString(-i) else NatToString(i)
  }

  /** Digits with single underscores between them: the body of a literal that `int()` accepts. */
  predicate IsDigitRun(s: string) {
    && |s| > 0 && IsDigit(s[0]) && IsDigit(s[|s| - 1])
    && (forall i :: 0 <= i < |s| ==> IsDigit(s[i]) || s[i] == '_')
    && (forall i :: 0 <= i < |s| - 1 ==> s[i] == '_' ==> s[i + 1] != '_')
  }

  /** The digits of `s` with every underscore removed. */
  function RemoveUnderscores(s: string): (r: string)
    requires forall i :: 0 <= i < |s| ==> IsDigit(s[i]) || s[i] == '_'
    ensures AllDigits(r)
  {
    if s == [] then [] else (if s[0] == '_' then [] else [s[0]]) + RemoveUnderscores(s[1..])
  }

  lemma {:induction false} RemoveUnderscoresOfDigits(s: string)
    requires AllDigits(s)
    ensures RemoveUnderscores(s) == s
  {
    if s != [] {
      RemoveUnderscoresOfDigits(s[1..]);
    }
  }

  /**
   * `int(s)` in base 10: surrounding whitespace is ignored, one optional sign, then digits that
   * may be grouped by single underscores; anything else is a `ValueError` (None).
   */
  function ParseInt(s: string): (r: Option<int>)
  {
    var t := Strip(s);
    if t != [] && (t[0] == '+' || t[0] == '-') then
      var body := t[1..];
      if IsDigitRun(body) then
        var n: int := DigitsValue(RemoveUnderscores(body));
        Some(if t[0] == '-' then -n else n)
      else None
    else if IsDigitRun(t) then Some(DigitsValue(RemoveUnderscores(t)))
    else None
  }

  /** A blank string is a `ValueError`, and only a literal with a minus sign is negative. */
  lemma ParseIntBlankAndSign(s: string)
    ensures IsBlank(s) ==> ParseInt(s).None?
    ensures ParseInt(s).Some? && ParseInt(s).value < 0 ==> Strip(s)[0] == '-'
  {
  }

  lemma DigitRunOfDigits(d: string)
    requires d != [] && AllDigits(d)
    ensures IsDigitRun(d)
  {
    assert IsDigit(d[0]) && IsDigit(d[|d| - 1]);
  }

  /** A non-empty string of digits parses to the number it denotes. */
  lemma ParseIntDigits(s: string)
    requires s != [] && AllDigits(s)
    ensures ParseInt(s) == Some(DigitsValue(s))
  {
    DigitsStripped(s);
    DigitRunOfDigits(s);
    RemoveUnderscoresOfDigits(s);
    assert s[0] != '+' && s[0] != '-';
  }

  /** A non-empty string of digits is already stripped. */
  lemma DigitsStripped(s: string)
    requires s != [] && AllDigits(s)
    ensures Strip(s) == s
  {
    assert IsDigit(s[0]) && IsDigit(s[|s| - 1]);
    StripTrimmed(s);
  }

  /** A minus sign before a non-empty string of digits is already stripped. */
  lemma NegativeLiteralStripped(d: string)
    requires d != [] && AllDigits(d)
    ensures Strip("-" + d) == "-" + d
  {
    var s := "-" + d;
    assert s[|s| - 1] == d[|d| - 1] && IsDigit(d[|d| - 1]);
    StripTrimmed(s);
  }

  /** A minus sign before a non-empty string of digits parses to the negated number. */
  lemma ParseIntNegative(d: string)
    requires d != [] && AllDigits(d)
    ensures ParseInt("-" + d) == Some(-(DigitsValue(d) as int))
  {
    NegativeLiteralStripped(d);
    DigitRunOfDigits(d);
    RemoveUnderscoresOfDigits(d);
    assert ("-" + d)[0] == '-' && ("-" + d)[1..] == d;
  }

  /** `int(str(i)) == i`. */
  lemma ParseIntToString(i: int)
    ensures ParseInt(IntToString(i)) == Some(i)
  {
    if i < 0 {
      var d := NatToString(-i);
      assert IntToString(i) == "-" + d;
      ParseIntNegative(d);
      NatToStringValue(-i);
      assert -(DigitsValue(d) as int) == i;
    } else {
      var d := NatToString(i);
      assert IntToString(i) == d;
      ParseIntDigits(d);
      NatToStringValue(i);
    }
  }


  // ---------------------------------------------------------------------------------------------
  // zfill

  function Zeros(n: nat): (r: string)
    ensures |r| == n && forall i :: 0 <= i < n ==> r[i] == '0'
  {
    seq(n, i => '0')
  }

  /**
   * `s.zfill(width)`: left-pads with zeros up to `width`, keeping a leading sign in front;
   * never shortens `s`.
   */
  function ZFill(s: string, width: int): (r: string)
    ensures |r| == if |s| >= width then |s| else width
  {
    if |s| >= width then s
    else if s != [] && (s[0] == '+' || s[0] == '-') then [s[0]] + Zeros(width - |s|) + s[1..]
    else Zeros(width - |s|) + s
  }

  /** Zero-filling a digit string keeps its value, so the padded answer parses to the same number. */
  lemma ZFillValue(s: string, width: int)
    requires s != [] && AllDigits(s)
    ensures AllDigits(ZFill(s, width)) && ParseInt(ZFill(s, width)) == ParseInt(s)
  {
    var r := ZFill(s, width);
    if |s| < width {
      assert s[0] != '+' && s[0] != '-';
      assert r == Zeros(width - |s|) + s;
      LeadingZerosValue(width - |s|, s);
    }
    assert AllDigits(r) && r != [] && DigitsValue(r) == DigitsValue(s);
    ParseIntDigits(r);
    ParseIntDigits(s);
  }

  /** Zero-filling twice to the same width is zero-filling once. */
  lemma ZFillIdempotent(s: string, width: int)
    ensures ZFill(ZFill(s, width), width) == ZFill(s, width)
  {
  }

  // ---------------------------------------------------------------------------------------------
  // Filtering

  /** `re.sub(r'\D', '', s)` over ASCII digits: keeps the digits of `s`, in order. */
  function KeepDigits(s: string): (r: string)
    ensures AllDigits(r) && |r| <= |s|
    ensures AllDigits(s) ==> r == s
  {
    if s == [] then [] else (if IsDigit(s[0]) then [s[0]] else []) + KeepDigits(s[1..])
  }

  /** Filtering distributes over concatenation: the digits of each part are kept, in order. */
  lemma {:induction false} KeepDigitsAppend(a: string, b: string)
    ensures KeepDigits(a + b) == KeepDigits(a) + KeepDigits(b)
    decreases |a|
  {
    if a == [] {
      assert a + b == b;
    } else {
      var head := if IsDigit(a[0]) then [a[0]] else [];
      assert (a + b)[0] == a[0] && (a + b)[1..] == a[1..] + b;
      assert KeepDigits(a + b) == head + KeepDigits(a[1..] + b);
      KeepDigitsAppend(a[1..], b);
      assert KeepDigits(a) == head + KeepDigits(a[1..]);
    }
  }

  /** One character is kept exactly when it is a digit. */
  lemma KeepDigitsChar(c: char)
    ensures KeepDigits([c]) == if IsDigit(c) then [c] else []
  {
    assert [c][1..] == [];
  }

  /** A non-digit between two digit strings is dropped, as the hyphen of a ZIP+4 code is. */
  lemma KeepDigitsDropsSeparator(a: string, c: char, b: string)
    requires AllDigits(a) && AllDigits(b) && !IsDigit(c)
    ensures KeepDigits(a + [c] + b) == a + b
  {
    var tail := [c] + b;
    KeepDigitsChar(c);
    KeepDigitsAppend([c], b);
    assert KeepDigits(tail) == b by {
      assert KeepDigits([c]) == [];
      assert KeepDigits(b) == b;
    }
    KeepDigitsAppend(a, tail);
    assert KeepDigits(a) == a;
    assert a + [c] + b == a + tail;
  }
}
