/** The Python string built-ins the extractor relies on: whitespace as
    `str.isspace` and `int()` define it, `str(int)`, `int(str)`,
    `str.split(sep)` and `str.split()`. */
module PyText {
  import opened Wrappers

  /** `str.isspace()` for one character; `str.split()`, `str.strip()` and
      the `\s` class of `re` use this set. */
  predicate IsSpace(c: char) {
    ('\t' <= c <= '\r') || ('\U{1C}' <= c <= ' ') || c == '\U{85}' || c == '\U{A0}'
    || c == '\U{1680}' || ('\U{2000}' <= c <= '\U{200A}') || c == '\U{2028}' || c == '\U{2029}'
    || c == '\U{202F}' || c == '\U{205F}' || c == '\U{3000}'
  }

  /** The whitespace `int()` skips around a numeral. Below U+0080 it knows
      only tab, the line and page breaks and the space, so the separators
      U+001C..U+001F, which `str.isspace` accepts, make `int()` fail. */
  predicate IntSpace(c: char) {
    IsSpace(c) && !('\U{1C}' <= c <= '\U{1F}')
  }

  predicate IsDigit(c: char) { '0' <= c <= '9' }

  /** The class `[A-Za-z0-9]`. */
  predicate IsAsciiAlnum(c: char) { 'a' <= c <= 'z' || 'A' <= c <= 'Z' || IsDigit(c) }

  predicate AllSpace(s: string) { forall i :: 0 <= i < |s| ==> IsSpace(s[i]) }

  predicate NoSpace(s: string) { forall i :: 0 <= i < |s| ==> !IsSpace(s[i]) }

  predicate AllAlnum(s: string) { forall i :: 0 <= i < |s| ==> IsAsciiAlnum(s[i]) }

  // ---------------------------------------------------------------- strip

  /** `s.lstrip()`: drops the leading whitespace and nothing else. */
  function StripStart(s: string): (r: string)
    ensures |r| <= |s| && r == s[|s| - |r|..]
    ensures AllSpace(s[..|s| - |r|])
    ensures r == [] || !IsSpace(r[0])
  {
    if s != [] && IsSpace(s[0]) then
      var r := StripStart(s[1..]);
      assert s[1..][..|s| - 1 - |r|] == s[1..|s| - |r|];
      r
    else s
  }

  predicate AllIntSpace(s: string) { forall i :: 0 <= i < |s| ==> IntSpace(s[i]) }

  /** The leading whitespace `int()` skips. */
  function IntStripStart(s: string): (r: string)
    ensures |r| <= |s| && r == s[|s| - |r|..]
    ensures AllIntSpace(s[..|s| - |r|])
    ensures r == [] || !IntSpace(r[0])
  {
    if s != [] && IntSpace(s[0]) then
      var r := IntStripStart(s[1..]);
      assert s[1..][..|s| - 1 - |r|] == s[1..|s| - |r|];
      r
    else s
  }

  /** The trailing whitespace `int()` skips. */
  function IntStripEnd(s: string): (r: string)
    ensures |r| <= |s| && r == s[..|r|]
    ensures AllIntSpace(s[|r|..])
    ensures r == [] || !IntSpace(r[|r| - 1])
  {
    if s != [] && IntSpace(s[|s| - 1]) then
      var r := IntStripEnd(s[..|s| - 1]);
      assert s[..|s| - 1][|r|..] == s[|r|..|s| - 1];
      assert s[|r|..] == s[|r|..|s| - 1] + [s[|s| - 1]];
      r
    else s
  }

  /** The text `int()` reads: `s` without the whitespace around it. */
  function IntStrip(s: string): string {
    IntStripEnd(IntStripStart(s))
  }

  lemma {:induction false} IntStripStartPadded(a: string, t: string)
    requires AllIntSpace(a) && (t == [] || !IntSpace(t[0]))
    ensures IntStripStart(a + t) == t
    decreases |a|
  {
    if a == [] {
      assert a + t == t;
    } else {
      assert (a + t)[0] == a[0];
      assert (a + t)[1..] == a[1..] + t;
      IntStripStartPadded(a[1..], t);
    }
  }

  lemma {:induction false} IntStripEndPadded(t: string, b: string)
    requires AllIntSpace(b) && (t == [] || !IntSpace(t[|t| - 1]))
    ensures IntStripEnd(t + b) == t
    decreases |b|
  {
    if b == [] {
      assert t + b == t;
    } else {
      var s := t + b;
      assert s[|s| - 1] == b[|b| - 1];
      assert s[..|s| - 1] == t + b[..|b| - 1];
      IntStripEndPadded(t, b[..|b| - 1]);
    }
  }

  /** Whatever whitespace `int()` skips around a text that neither starts
      nor ends with it, the text it reads is exactly that one. */
  lemma IntStripPadded(a: string, t: string, b: string)
    requires AllIntSpace(a) && AllIntSpace(b)
    requires t != [] && !IntSpace(t[0]) && !IntSpace(t[|t| - 1])
    ensures IntStrip(a + t + b) == t
  {
    assert a + t + b == a + (t + b);
    assert (t + b)[0] == t[0];
    IntStripStartPadded(a, t + b);
    IntStripEndPadded(t, b);
  }

  // ------------------------------------------------ str(int) and int(str)

  function DigitChar(d: nat): (c: char)
    requires d < 10
    ensures IsDigit(c) && c as int - '0' as int == d
  {
    ('0' as int + d) as char
  }

  /** `str(n)` for a natural number: its decimal numeral, no leading zeros. */
  function NatToString(n: nat): (r: string)
    ensures r != [] && forall i :: 0 <= i < |r| ==> IsDigit(r[i])
    ensures (r[0] == '0') == (n == 0) && (|r| == 1) == (n < 10)
    decreases n
  {
    if n < 10 then [DigitChar(n)] else NatToString(n / 10) + [DigitChar(n % 10)]
  }

  /** `str(n)`, also what an f-string writes for an `int`. */
  function IntToString(n: int): (r: string)
    ensures r != [] && !IsSpace(r[0]) && IsDigit(r[|r| - 1])
    ensures forall i :: 0 <= i < |r| ==> IsDigit(r[i]) || (i == 0 && r[i] == '-')
    ensures |r| > 1 ==> r[0] != '0' && (r[0] == '-' ==> r[1] != '0')
  {
    if n < 0 then "-" + NatToString(-n) else NatToString(n)
  }

  predicate IsNumeral(s: string) {
    s != [] && forall i :: 0 <= i < |s| ==> IsDigit(s[i])
  }

  function DigitValue(c: char): nat
    requires IsDigit(c)
  {
    c as int - '0' as int
  }

  /** The value of a string of decimal digits, most significant first. */
  function DigitsValue(s: string): nat
    requires forall i :: 0 <= i < |s| ==> IsDigit(s[i])
  {
    if s == [] then 0 else DigitsValue(s[..|s| - 1]) * 10 + DigitValue(s[|s| - 1])
  }

  /** An optional sign and a run of decimal digits, nothing else. */
  function ParseSigned(t: string): (r: Option<int>)
    ensures r.Some? <==> IsNumeral(t) || (|t| > 1 && t[0] in "+-" && IsNumeral(t[1..]))
    ensures IsNumeral(t) ==> r == Some(DigitsValue(t))
    ensures |t| > 1 && t[0] == '-' && IsNumeral(t[1..]) ==> r == Some(-(DigitsValue(t[1..]) as int))
    ensures |t| > 1 && t[0] == '+' && IsNumeral(t[1..]) ==> r == Some(DigitsValue(t[1..]) as int)
  {
    if t != [] && (t[0] == '+' || t[0] == '-') && IsNumeral(t[1..]) then
      var magnitude: int := DigitsValue(t[1..]);
      Some(if t[0] == '-' then -magnitude else magnitude)
    else if IsNumeral(t) then
      Some(DigitsValue(t))
    else
      None
  }

  /** `int(s)` on a `str`: surrounding whitespace is ignored, then an optional
      sign and a run of decimal digits; anything else raises ValueError. */
  function ParseInt(s: string): (r: Result<int>)
    ensures r.Err? ==> r.error == ValueError(s)
    ensures var t := IntStrip(s);
      && (r.Ok? <==> IsNumeral(t) || (|t| > 1 && t[0] in "+-" && IsNumeral(t[1..])))
      && (IsNumeral(t) ==> r == Ok(DigitsValue(t)))
      && (|t| > 1 && t[0] == '-' && IsNumeral(t[1..]) ==> r == Ok(-(DigitsValue(t[1..]) as int)))
      && (|t| > 1 && t[0] == '+' && IsNumeral(t[1..]) ==> r == Ok(DigitsValue(t[1..]) as int))
  {
    var t := IntStrip(s);
    match ParseSigned(t)
    case Some(n) => Ok(n)
    case None => Err(ValueError(s))
  }

  /** A numeral padded with the whitespace `int()` skips reads as its value. */
  lemma ParseIntOfPadded(a: string, digits: string, b: string)
    requires AllIntSpace(a) && AllIntSpace(b) && IsNumeral(digits)
    ensures ParseInt(a + digits + b) == Ok(DigitsValue(digits))
  {
    IntStripPadded(a, digits, b);
  }

  /** `str.lstrip()` does drop a separator U+001C..U+001F before a numeral. */
  lemma LStripDropsSeparator(c: char, digits: string)
    requires '\U{1C}' <= c <= '\U{1F}' && IsNumeral(digits)
    ensures StripStart([c] + digits) == digits
  {
    var s := [c] + digits;
    assert IsSpace(s[0]) && s[1..] == digits;
    assert !IsSpace(digits[0]);
  }

  /** Text that starts with neither a digit nor a sign is no integer. */
  lemma ParseSignedOfOtherStart(t: string)
    requires t != [] && !IsDigit(t[0]) && t[0] != '+' && t[0] != '-'
    ensures ParseSigned(t) == None
  {
    assert !IsNumeral(t);
  }

  /** `int()` reads a text that starts with something other than its
      whitespace and ends in a digit as it is. */
  lemma IntStripOfDigitEnd(s: string)
    requires s != [] && !IntSpace(s[0]) && IsDigit(s[|s| - 1])
    ensures IntStrip(s) == s
  {
    IntStripPadded([], s, []);
    assert [] + s + [] == s;
  }

  /** A separator U+001C..U+001F before the numeral makes `int()` fail,
      although `str.lstrip()` drops it (`LStripDropsSeparator`). */
  lemma ParseIntRejectsSeparator(c: char, digits: string)
    requires '\U{1C}' <= c <= '\U{1F}' && IsNumeral(digits)
    ensures ParseInt([c] + digits) == Err(ValueError([c] + digits))
  {
    var s := [c] + digits;
    assert s[0] == c && s[|s| - 1] == digits[|digits| - 1];
    IntStripOfDigitEnd(s);
    ParseSignedOfOtherStart(s);
  }

  lemma {:induction false} DigitsValueOfNatToString(n: nat)
    ensures DigitsValue(NatToString(n)) == n
    decreases n
  {
    if n >= 10 {
      var a := NatToString(n / 10);
      var s := a + [DigitChar(n % 10)];
      assert s[..|s| - 1] == a;
      DigitsValueOfNatToString(n / 10);
    }
  }

  /** `str(n)` reads back as `n` once the whitespace is stripped. */
  lemma ParseSignedOfIntToString(n: int)
    ensures ParseSigned(IntToString(n)) == Some(n)
  {
    if n < 0 {
      var digits := NatToString(-n);
      var s := "-" + digits;
      assert s[1..] == digits;
      DigitsValueOfNatToString(-n);
      assert IntToString(n) == s;
    } else {
      var s := NatToString(n);
      DigitsValueOfNatToString(n);
      assert s[0] != '+' && s[0] != '-';
    }
  }

  /** `int(str(n)) == n`: the numerals the extractor writes read back. */
  lemma ParseIntOfIntToString(n: int)
    ensures ParseInt(IntToString(n)) == Ok(n)
  {
    var s := IntToString(n);
    IntStripPadded([], s, []);
    assert [] + s + [] == s;
    ParseSignedOfIntToString(n);
  }

  // ------------------------------------------------------- str.split(sep)

  /** `s.split(sep)` for a non-empty separator: the pieces between the
      occurrences of `sep`, found from left to right without overlap. */
  function SplitOn(s: string, sep: string): (r: seq<string>)
    requires sep != []
    ensures r != [] && r[0] <= s
    decreases |s|
  {
    if |s| < |sep| then [s]
    else if s[..|sep|] == sep then [[]] + SplitOn(s[|sep|..], sep)
    else
      var rest := SplitOn(s[1..], sep);
      [[s[0]] + rest[0]] + rest[1..]
  }

  /** `sep.join(pieces)` */
  function Join(pieces: seq<string>, sep: string): string {
    if pieces == [] then []
    else if |pieces| == 1 then pieces[0]
    else pieces[0] + sep + Join(pieces[1..], sep)
  }

  predicate OccursAt(s: string, sep: string, i: int) {
    0 <= i && i + |sep| <= |s| && s[i..i + |sep|] == sep
  }

  ghost predicate Contains(s: string, sep: string) {
    exists i :: OccursAt(s, sep, i)
  }

  /** Prefixing the first piece with `c` prefixes the joined string with `c`. */
  lemma JoinConsHead(c: char, pieces: seq<string>, sep: string)
    requires pieces != []
    ensures Join([[c] + pieces[0]] + pieces[1..], sep) == [c] + Join(pieces, sep)
  {
    var r := [[c] + pieces[0]] + pieces[1..];
    assert r[1..] == pieces[1..];
  }

  lemma JoinCons(w: string, pieces: seq<string>, sep: string)
    requires pieces != []
    ensures Join([w] + pieces, sep) == w + sep + Join(pieces, sep)
  {
    assert ([w] + pieces)[1..] == pieces;
  }

  lemma JoinNonEmpty(pieces: seq<string>, sep: string)
    requires pieces != [] && pieces[0] != []
    ensures Join(pieces, sep) != []
  {
  }

  /** Joining the pieces with the separator gives the string back. */
  lemma {:induction false} JoinSplitOn(s: string, sep: string)
    requires sep != []
    ensures Join(SplitOn(s, sep), sep) == s
    decreases |s|
  {
    if |s| < |sep| {
    } else if s[..|sep|] == sep {
      var rest := SplitOn(s[|sep|..], sep);
      JoinSplitOn(s[|sep|..], sep);
      assert ([[]] + rest)[1..] == rest;
      assert Join([[]] + rest, sep) == [] + sep + Join(rest, sep);
      assert s == sep + s[|sep|..];
    } else {
      var rest := SplitOn(s[1..], sep);
      JoinSplitOn(s[1..], sep);
      JoinConsHead(s[0], rest, sep);
      assert s == [s[0]] + s[1..];
    }
  }

  /** No piece holds the separator: every occurrence was a cut. */
  lemma {:induction false} SplitOnPiecesLackSeparator(s: string, sep: string)
    requires sep != []
    ensures forall k :: 0 <= k < |SplitOn(s, sep)| ==> !Contains(SplitOn(s, sep)[k], sep)
    decreases |s|
  {
    var r := SplitOn(s, sep);
    if |s| < |sep| {
      forall i | OccursAt(s, sep, i) ensures false { }
    } else if s[..|sep|] == sep {
      SplitOnPiecesLackSeparator(s[|sep|..], sep);
      assert r[1..] == SplitOn(s[|sep|..], sep);
      forall i | OccursAt(r[0], sep, i) ensures false { }
    } else {
      var rest := SplitOn(s[1..], sep);
      SplitOnPiecesLackSeparator(s[1..], sep);
      assert r[1..] == rest[1..];
      var p := [s[0]] + rest[0];
      assert r[0] == p;
      forall i ensures !OccursAt(p, sep, i) {
        if 0 <= i && i + |sep| <= |p| {
          if i == 0 {
            assert p[..|sep|] == s[..|sep|];
          } else {
            assert p[i..i + |sep|] == rest[0][i - 1..i - 1 + |sep|];
            assert !OccursAt(rest[0], sep, i - 1);
          }
        }
      }
      forall k | 1 <= k < |r| ensures !Contains(r[k], sep) {
        assert r[k] == rest[k];
      }
    }
  }

  /** The first cut of `s.split(sep)` is at the leftmost occurrence of
      `sep`: when no occurrence starts inside `p`, not even one running on
      into the separator after it, `p` is the first piece and the rest is
      split anew. */
  lemma {:induction false} SplitOnAtFirst(p: string, sep: string, rest: string)
    requires sep != []
    requires forall i :: 0 <= i < |p| ==> !OccursAt(p + sep + rest, sep, i)
    ensures SplitOn(p + sep + rest, sep) == [p] + SplitOn(rest, sep)
    decreases |p|
  {
    var s := p + sep + rest;
    if p == [] {
      assert s == sep + rest;
      assert s[..|sep|] == sep && s[|sep|..] == rest;
    } else {
      var s' := p[1..] + sep + rest;
      assert !OccursAt(s, sep, 0);
      assert s[1..] == s';
      forall i | 0 <= i < |p| - 1 ensures !OccursAt(s', sep, i) {
        assert !OccursAt(s, sep, i + 1);
        assert s'[i..i + |sep|] == s[i + 1..i + 1 + |sep|];
      }
      SplitOnAtFirst(p[1..], sep, rest);
      var tail := SplitOn(s', sep);
      assert tail[1..] == SplitOn(rest, sep);
      assert p == [p[0]] + p[1..];
    }
  }

  /** Without an occurrence of `sep`, `s.split(sep)` is `[s]`. */
  lemma {:induction false} SplitOnNoSeparator(s: string, sep: string)
    requires sep != []
    requires forall i :: !OccursAt(s, sep, i)
    ensures SplitOn(s, sep) == [s]
    decreases |s|
  {
    if |s| >= |sep| {
      assert !OccursAt(s, sep, 0);
      forall i ensures !OccursAt(s[1..], sep, i) {
        if 0 <= i && i + |sep| <= |s| - 1 {
          assert !OccursAt(s, sep, i + 1);
          assert s[1..][i..i + |sep|] == s[i + 1..i + 1 + |sep|];
        }
      }
      SplitOnNoSeparator(s[1..], sep);
      assert s == [s[0]] + s[1..];
    }
  }

  // ----------------------------------------------------------- str.split()

  /** The longest prefix of `s` without whitespace. */
  function Word(s: string): (r: string)
    ensures r <= s && NoSpace(r)
    ensures |r| == |s| || IsSpace(s[|r|])
  {
    if s == [] || IsSpace(s[0]) then [] else [s[0]] + Word(s[1..])
  }

  /** `s.split()`: the maximal runs of non-whitespace, left to right. */
  function Tokens(s: string): (r: seq<string>)
    ensures |r| <= |s|
    decreases |s|
  {
    var t := StripStart(s);
    if t == [] then [] else
      var w := Word(t);
      assert w != [];
      [w] + Tokens(t[|w|..])
  }

  /** Every word of `s.split()` is non-empty and holds no whitespace. */
  lemma {:induction false} TokensAreWords(s: string)
    ensures forall k :: 0 <= k < |Tokens(s)| ==> Tokens(s)[k] != [] && NoSpace(Tokens(s)[k])
    decreases |s|
  {
    var t := StripStart(s);
    if t != [] {
      var w := Word(t);
      var rest := t[|w|..];
      TokensAreWords(rest);
      var r := Tokens(s);
      assert r == [w] + Tokens(rest);
      forall k | 0 <= k < |r| ensures r[k] != [] && NoSpace(r[k]) {
        if k > 0 {
          assert r[k] == Tokens(rest)[k - 1];
        }
      }
    }
  }

  /** `s.split()` does not look at the whitespace in front of `s`. */
  lemma TokensOfStripped(s: string)
    ensures Tokens(StripStart(s)) == Tokens(s)
  {
    var t := StripStart(s);
    assert StripStart(t) == t;
  }

  /** Leading whitespace is really dropped. */
  lemma StripStartShorter(s: string)
    requires s != [] && IsSpace(s[0])
    ensures |StripStart(s)| < |s|
  {
  }

  lemma {:induction false} StripStartPadded(front: string, t: string)
    requires AllSpace(front) && (t == [] || !IsSpace(t[0]))
    ensures StripStart(front + t) == t
    decreases |front|
  {
    if front == [] {
      assert front + t == t;
    } else {
      assert (front + t)[0] == front[0];
      assert (front + t)[1..] == front[1..] + t;
      StripStartPadded(front[1..], t);
    }
  }

  lemma {:induction false} WordThen(w: string, rest: string)
    requires NoSpace(w) && (rest == [] || IsSpace(rest[0]))
    ensures Word(w + rest) == w
    decreases |w|
  {
    if w == [] {
      assert w + rest == rest;
    } else {
      assert (w + rest)[0] == w[0];
      assert (w + rest)[1..] == w[1..] + rest;
      WordThen(w[1..], rest);
      assert w == [w[0]] + w[1..];
    }
  }

  /** `s.split()` word by word: whitespace, then a word that runs up to
      whitespace or the end, gives that word, then the words of what
      follows. With `TokensEmpty` this fixes every word of `s.split()`. */
  lemma TokensAtFirst(front: string, w: string, rest: string)
    requires AllSpace(front) && w != [] && NoSpace(w) && (rest == [] || IsSpace(rest[0]))
    ensures Tokens(front + w + rest) == [w] + Tokens(rest)
  {
    Assoc(front, w, rest);
    assert (w + rest)[0] == w[0];
    StripStartPadded(front, w + rest);
    WordThen(w, rest);
    assert (w + rest)[|w|..] == rest;
  }

  /** Where the last word of `s.split()` sits in `s`: after the start or a
      whitespace character, and followed by whitespace only. */
  predicate LastWordAt(s: string, p: string, words: seq<string>, q: string) {
    words != [] && s == p + words[|words| - 1] + q && AllSpace(q)
    && (p == [] || IsSpace(p[|p| - 1]))
  }

  lemma Regroup<T>(a: seq<T>, b: seq<T>, c: seq<T>, d: seq<T>, e: seq<T>)
    ensures a + b + (c + d + e) == (a + b + c) + d + e
  {
  }

  /** `s` is its first `k` elements followed by the others. */
  lemma TakeDrop<T>(s: seq<T>, k: int)
    requires 0 <= k <= |s|
    ensures s == s[..k] + s[k..]
  {
  }

  lemma Assoc<T>(a: seq<T>, b: seq<T>, c: seq<T>)
    ensures a + (b + c) == a + b + c
  {
  }

  lemma Flatten<T>(a: seq<T>, b: seq<T>, c: seq<T>, d: seq<T>, e: seq<T>, f: seq<T>)
    ensures a + (b + (c + d + (e + f))) == a + b + c + d + e + f
  {
  }

  lemma HeadOfConcat<T>(p: seq<T>, x: seq<T>, q: seq<T>)
    requires x != []
    ensures (p + x + q)[0] == if p == [] then x[0] else p[0]
  {
  }

  /** One step of `s.split()`: the first word, then the split of the rest. */
  lemma TokensStep(s: string, w: string, rest: string)
    requires StripStart(s) != []
    requires w == Word(StripStart(s)) && rest == StripStart(s)[|w|..]
    ensures w != [] && Tokens(s) == [w] + Tokens(rest)
  {
  }

  /** The same step on the text: the blank start, the first word, the rest. */
  lemma TokensFirstWord(s: string, front: string, w: string, rest: string)
    requires StripStart(s) != []
    requires front == s[..|s| - |StripStart(s)|]
    requires w == Word(StripStart(s)) && rest == StripStart(s)[|w|..]
    ensures s == front + w + rest
    ensures AllSpace(front) && (rest == [] || IsSpace(rest[0]))
  {
    var t := StripStart(s);
    TakeDrop(s, |s| - |t|);
    TakeDrop(t, |w|);
    Assoc(front, w, rest);
  }

  /** The last word of a one-word split, after a blank start. */
  lemma LastWordAtOnly(s: string, front: string, w: string, rest: string, words: seq<string>)
    requires s == front + w + rest && AllSpace(front)
    requires words == [w] + Tokens(rest) && Tokens(rest) == []
    ensures LastWordAt(s, front, words, rest)
  {
    TokensEmpty(rest);
    assert words == [w];
  }

  /** A word and a whitespace character in front keep the last word's place. */
  lemma LastWordAtCons(s: string, front: string, w: string, rest: string,
                       words: seq<string>, p: string, q: string)
    requires s == front + w + rest && rest != [] && IsSpace(rest[0])
    requires LastWordAt(rest, p, words, q)
    requires words[|words| - 1] != [] && !IsSpace(words[|words| - 1][0])
    ensures LastWordAt(s, front + w + p, [w] + words, q)
  {
    var last := words[|words| - 1];
    HeadOfConcat(p, last, q);
    Regroup(front, w, p, last, q);
    assert ([w] + words)[|words|] == last;
  }

  /** `s` is blank text `front`, the first word `w` of `s.split()`, then
      text `rest` that is empty or starts with whitespace. */
  predicate FirstWordSplit(s: string, front: string, w: string, rest: string) {
    s == front + w + rest && AllSpace(front) && w != [] && |rest| < |s|
    && (rest == [] || IsSpace(rest[0]))
    && Tokens(s) == [w] + Tokens(rest)
  }

  /** A text with a word is blank text, its first word, then text that is
      empty or starts with whitespace; the split is that word and the
      split of the rest. */
  lemma TokensSplitFirst(s: string) returns (front: string, w: string, rest: string)
    requires Tokens(s) != []
    ensures FirstWordSplit(s, front, w, rest)
  {
    var t := StripStart(s);
    assert t != [];
    w := Word(t);
    rest := t[|w|..];
    front := s[..|s| - |t|];
    TokensStep(s, w, rest);
    TokensFirstWord(s, front, w, rest);
  }

  /** The last word of `s.split()` is a word: it is not empty and does not
      start with whitespace. */
  lemma TokensLastIsWord(s: string)
    requires Tokens(s) != []
    ensures var words := Tokens(s);
      words[|words| - 1] != [] && !IsSpace(words[|words| - 1][0])
  {
    TokensAreWords(s);
    var words := Tokens(s);
    assert NoSpace(words[|words| - 1]);
  }

  /** Finds the text `p` before the last word of `s.split()` and the text
      `q` after it. */
  lemma TokensLastWordAt(s: string) returns (p: string, q: string)
    requires Tokens(s) != []
    ensures LastWordAt(s, p, Tokens(s), q)
  {
    var front, w, rest := TokensSplitFirst(s);
    p, q := LastWordAfterFirst(s, front, w, rest);
  }

  /** The last word once the first word `w` of `s` is split off: `w`
      itself, or the last word of the rest. */
  lemma {:induction false} LastWordAfterFirst(s: string, front: string, w: string, rest: string)
      returns (p: string, q: string)
    requires FirstWordSplit(s, front, w, rest)
    ensures LastWordAt(s, p, Tokens(s), q)
    decreases |s|, 1
  {
    if Tokens(rest) == [] {
      LastWordAtOnly(s, front, w, rest, Tokens(s));
      p, q := front, rest;
    } else {
      p, q := LastWordAfterMore(s, front, w, rest);
    }
  }

  /** When words follow the first one, the last word is the rest's. */
  lemma {:induction false} LastWordAfterMore(s: string, front: string, w: string, rest: string)
      returns (p: string, q: string)
    requires s == front + w + rest && w != [] && |rest| < |s| && rest != [] && IsSpace(rest[0])
    requires Tokens(s) == [w] + Tokens(rest) && Tokens(rest) != []
    ensures LastWordAt(s, p, Tokens(s), q)
    decreases |s|, 0
  {
    var front', w', rest' := TokensSplitFirst(rest);
    var p', q' := LastWordAfterFirst(rest, front', w', rest');
    TokensLastIsWord(rest);
    LastWordAtCons(s, front, w, rest, Tokens(rest), p', q');
    p, q := front + w + p', q';
  }

  /** The last word of `s.split()` starts `s` or follows a whitespace
      character, and only whitespace comes after it. */
  lemma TokensLastWord(s: string)
    requires !AllSpace(s)
    ensures exists p, q :: LastWordAt(s, p, Tokens(s), q)
  {
    TokensEmpty(s);
    var p, q := TokensLastWordAt(s);
  }

  /** The characters of `s` that are not whitespace, in order. */
  function NonSpaceChars(s: string): string {
    if s == [] then []
    else (if IsSpace(s[0]) then [] else [s[0]]) + NonSpaceChars(s[1..])
  }

  function Concat(pieces: seq<string>): string {
    if pieces == [] then [] else pieces[0] + Concat(pieces[1..])
  }

  /** `s.split()` is empty exactly when `s` is blank. */
  lemma TokensEmpty(s: string)
    ensures Tokens(s) == [] <==> AllSpace(s)
  {
    var t := StripStart(s);
    if t == [] {
      assert s[..|s|] == s;
    } else {
      assert !IsSpace(s[|s| - |t|]);
    }
  }

  lemma {:induction false} NonSpaceCharsAppend(a: string, b: string)
    ensures NonSpaceChars(a + b) == NonSpaceChars(a) + NonSpaceChars(b)
    decreases |a|
  {
    if a != [] {
      assert (a + b)[0] == a[0];
      assert (a + b)[1..] == a[1..] + b;
      NonSpaceCharsAppend(a[1..], b);
    } else {
      assert a + b == b;
    }
  }

  lemma {:induction false} NonSpaceCharsOfBlank(s: string)
    requires AllSpace(s)
    ensures NonSpaceChars(s) == []
    decreases |s|
  {
    if s != [] {
      NonSpaceCharsOfBlank(s[1..]);
    }
  }

  lemma {:induction false} NonSpaceCharsOfWord(s: string)
    requires NoSpace(s)
    ensures NonSpaceChars(s) == s
    decreases |s|
  {
    if s != [] {
      NonSpaceCharsOfWord(s[1..]);
    }
  }

  /** The tokens hold every non-whitespace character of `s`, in order. */
  lemma {:induction false} TokensKeepText(s: string)
    ensures Concat(Tokens(s)) == NonSpaceChars(s)
    decreases |s|
  {
    var t := StripStart(s);
    NonSpaceCharsOfStripped(s);
    if t != [] {
      var w := Word(t);
      var rest := t[|w|..];
      assert Tokens(s) == [w] + Tokens(rest);
      assert Concat(Tokens(s)) == w + Concat(Tokens(rest));
      NonSpaceCharsOfWordThen(t);
      TokensKeepText(rest);
    }
  }

  /** Leading whitespace contributes no characters. */
  lemma NonSpaceCharsOfStripped(s: string)
    ensures NonSpaceChars(StripStart(s)) == NonSpaceChars(s)
  {
    var t := StripStart(s);
    var k := |s| - |t|;
    assert s == s[..k] + t;
    NonSpaceCharsAppend(s[..k], t);
    NonSpaceCharsOfBlank(s[..k]);
  }

  /** A leading word contributes all of its characters. */
  lemma NonSpaceCharsOfWordThen(t: string)
    ensures NonSpaceChars(t) == Word(t) + NonSpaceChars(t[|Word(t)|..])
  {
    var w := Word(t);
    assert t == w + t[|w|..];
    NonSpaceCharsAppend(w, t[|w|..]);
    NonSpaceCharsOfWord(w);
  }
}
