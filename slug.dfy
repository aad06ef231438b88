/** `PMVHavenUserIE._slugify`: turns a video title into the slug that the
    playlist side puts in front of `_<id>` in a video permalink. */
module Slug {
  import opened Wrappers
  import opened PyText

  /** The slug used when the title is missing or nothing of it survives. */
  const Fallback := "video"

  /** `re.sub(r'[^A-Za-z0-9 ]+', '', s)`: keeps ASCII letters, digits and
      the plain space, drops every other character. */
  function Clean(s: string): (r: string)
    ensures forall i :: 0 <= i < |r| ==> IsAsciiAlnum(r[i]) || r[i] == ' '
  {
    if s == [] then []
    else (if IsAsciiAlnum(s[0]) || s[0] == ' ' then [s[0]] else []) + Clean(s[1..])
  }

  /** `re.sub(r'\s+', '-', s)`: every maximal run of whitespace becomes one `-`. */
  function Hyphenate(s: string): (r: string)
    ensures |r| <= |s| && (r == [] <==> s == [])
  {
    HyphenateAfter(s, false)
  }

  /** The substitution from some point on, left to right: `inRun` tells
      whether the character before `s` was whitespace, so that its run has
      already written its `-`. */
  function HyphenateAfter(s: string, inRun: bool): (r: string)
    ensures |r| <= |s|
    ensures !inRun ==> (r == [] <==> s == [])
  {
    if s == [] then []
    else if IsSpace(s[0]) then (if inRun then [] else "-") + HyphenateAfter(s[1..], true)
    else [s[0]] + HyphenateAfter(s[1..], false)
  }

  function DropLeadingHyphens(s: string): (r: string)
    ensures |r| <= |s| && r == s[|s| - |r|..]
    ensures forall i :: 0 <= i < |s| - |r| ==> s[i] == '-'
    ensures r == [] || r[0] != '-'
  {
    if s != [] && s[0] == '-' then DropLeadingHyphens(s[1..]) else s
  }

  function DropTrailingHyphens(s: string): (r: string)
    ensures |r| <= |s| && r == s[..|r|]
    ensures forall i :: |r| <= i < |s| ==> s[i] == '-'
    ensures r == [] || r[|r| - 1] != '-'
  {
    if s != [] && s[|s| - 1] == '-' then DropTrailingHyphens(s[..|s| - 1]) else s
  }

  /** `s.strip('-')` */
  function StripHyphens(s: string): (r: string)
    ensures |r| <= |s| && (r == [] || (r[0] != '-' && r[|r| - 1] != '-'))
  {
    DropTrailingHyphens(DropLeadingHyphens(s))
  }

  /** `_slugify(title)`: a falsy title (None or empty) and a title of
      which nothing survives give "video". */
  function Slugify(title: Option<string>): (r: string)
    ensures r != []
  {
    if title.None? || title.value == [] then Fallback
    else
      var slug := StripHyphens(Hyphenate(Clean(title.value)));
      if slug == [] then Fallback else slug
  }

  // ------------------------------------------------------------ the shape

  predicate SlugChars(s: string) {
    forall i :: 0 <= i < |s| ==> IsAsciiAlnum(s[i]) || s[i] == '-'
  }

  predicate NoDoubleHyphen(s: string) {
    forall i :: 0 <= i < |s| - 1 ==> s[i] != '-' || s[i + 1] != '-'
  }

  /** What the video URL pattern needs of the part before `_<id>`, and more:
      non-empty, only `[A-Za-z0-9-]`, no `-` at either end, no `--`. */
  predicate IsSlug(s: string) {
    s != [] && SlugChars(s) && s[0] != '-' && s[|s| - 1] != '-' && NoDoubleHyphen(s)
  }

  /** The ASCII letters and digits of `s`, in order. */
  function AlnumOf(s: string): string {
    if s == [] then []
    else (if IsAsciiAlnum(s[0]) then [s[0]] else []) + AlnumOf(s[1..])
  }

  lemma {:induction false} AlnumOfAppend(a: string, b: string)
    ensures AlnumOf(a + b) == AlnumOf(a) + AlnumOf(b)
    decreases |a|
  {
    if a == [] {
      assert a + b == b;
    } else {
      var head := if IsAsciiAlnum(a[0]) then [a[0]] else [];
      assert (a + b)[0] == a[0];
      assert (a + b)[1..] == a[1..] + b;
      assert AlnumOf(a + b) == head + AlnumOf(a[1..] + b);
      AlnumOfAppend(a[1..], b);
      assert AlnumOf(a) == head + AlnumOf(a[1..]);
    }
  }

  lemma {:induction false} AlnumOfNone(s: string)
    requires forall i :: 0 <= i < |s| ==> !IsAsciiAlnum(s[i])
    ensures AlnumOf(s) == []
    decreases |s|
  {
    if s != [] {
      AlnumOfNone(s[1..]);
    }
  }

  lemma {:induction false} AlnumOfAll(s: string)
    requires AllAlnum(s)
    ensures AlnumOf(s) == s
    decreases |s|
  {
    if s != [] {
      AlnumOfAll(s[1..]);
    }
  }

  lemma {:induction false} AlnumOfClean(s: string)
    ensures AlnumOf(Clean(s)) == AlnumOf(s)
    decreases |s|
  {
    if s != [] {
      var head := if IsAsciiAlnum(s[0]) || s[0] == ' ' then [s[0]] else [];
      AlnumOfAppend(head, Clean(s[1..]));
      AlnumOfClean(s[1..]);
    }
  }

  /** Cleaning works one character at a time, so it distributes over
      concatenation. */
  lemma {:induction false} CleanAppend(a: string, b: string)
    ensures Clean(a + b) == Clean(a) + Clean(b)
    decreases |a|
  {
    if a == [] {
      assert a + b == b;
    } else {
      var head := if IsAsciiAlnum(a[0]) || a[0] == ' ' then [a[0]] else [];
      assert (a + b)[0] == a[0];
      assert (a + b)[1..] == a[1..] + b;
      assert Clean(a + b) == head + Clean(a[1..] + b);
      CleanAppend(a[1..], b);
      assert Clean(a) == head + Clean(a[1..]);
    }
  }

  /** One character survives cleaning exactly when it is an ASCII letter,
      an ASCII digit or the space. */
  lemma CleanOfChar(c: char)
    ensures Clean([c]) == if IsAsciiAlnum(c) || c == ' ' then [c] else []
  {
    assert [c][1..] == [];
  }

  /** Text made only of letters, digits and spaces comes through cleaning
      unchanged, its spaces included. */
  lemma {:induction false} CleanKeepsKept(s: string)
    requires forall i :: 0 <= i < |s| ==> IsAsciiAlnum(s[i]) || s[i] == ' '
    ensures Clean(s) == s
    decreases |s|
  {
    if s != [] {
      CleanKeepsKept(s[1..]);
    }
  }

  /** Putting a letter, a digit or a `-` in front keeps the slug shape,
      provided a `-` does not land on another `-`. */
  lemma SlugShapeCons(c: char, h: string)
    requires IsAsciiAlnum(c) || c == '-'
    requires SlugChars(h) && NoDoubleHyphen(h)
    requires c == '-' && h != [] ==> h[0] != '-'
    ensures SlugChars([c] + h) && NoDoubleHyphen([c] + h)
  {
    var r := [c] + h;
    forall i | 0 <= i < |r| - 1 ensures r[i] != '-' || r[i + 1] != '-' {
      if i > 0 {
        assert r[i] == h[i - 1] && r[i + 1] == h[i];
      }
    }
  }

  lemma {:induction false} HyphenateAfterShape(s: string, inRun: bool)
    requires forall i :: 0 <= i < |s| ==> IsAsciiAlnum(s[i]) || s[i] == ' '
    ensures var r := HyphenateAfter(s, inRun); SlugChars(r) && NoDoubleHyphen(r)
    ensures var r := HyphenateAfter(s, inRun); inRun && r != [] ==> r[0] != '-'
    ensures !inRun && s != [] ==> (HyphenateAfter(s, inRun)[0] == '-' <==> s[0] == ' ')
    decreases |s|
  {
    if s != [] {
      var space := IsSpace(s[0]);
      assert forall i :: 0 <= i < |s| - 1 ==> s[1..][i] == s[i + 1];
      HyphenateAfterShape(s[1..], space);
      var h := HyphenateAfter(s[1..], space);
      if !space {
        SlugShapeCons(s[0], h);
      } else if !inRun {
        SlugShapeCons('-', h);
      }
    }
  }

  lemma HyphenateShape(s: string)
    requires forall i :: 0 <= i < |s| ==> IsAsciiAlnum(s[i]) || s[i] == ' '
    ensures SlugChars(Hyphenate(s)) && NoDoubleHyphen(Hyphenate(s))
    ensures Hyphenate(s) == [] <==> s == []
    ensures s != [] ==> (Hyphenate(s)[0] == '-' <==> s[0] == ' ')
  {
    HyphenateAfterShape(s, false);
  }

  lemma {:induction false} HyphenateAfterKeepsAlnum(s: string, inRun: bool)
    ensures AlnumOf(HyphenateAfter(s, inRun)) == AlnumOf(s)
    decreases |s|
  {
    if s != [] {
      var space := IsSpace(s[0]);
      var h := HyphenateAfter(s[1..], space);
      var head := if !space then [s[0]] else if inRun then [] else "-";
      HyphenateAfterKeepsAlnum(s[1..], space);
      assert HyphenateAfter(s, inRun) == head + h;
      AlnumOfAppend(head, h);
    }
  }

  /** Replacing whitespace runs by `-` neither adds nor drops a letter or digit. */
  lemma HyphenateKeepsAlnum(s: string)
    ensures AlnumOf(Hyphenate(s)) == AlnumOf(s)
  {
    HyphenateAfterKeepsAlnum(s, false);
  }

  /** A slice of a slug-shaped string is slug-shaped. */
  lemma SlugShapeSlice(s: string, lo: int, hi: int)
    requires 0 <= lo <= hi <= |s|
    requires SlugChars(s) && NoDoubleHyphen(s)
    ensures SlugChars(s[lo..hi]) && NoDoubleHyphen(s[lo..hi])
  {
    var r := s[lo..hi];
    assert forall i :: 0 <= i < |r| ==> r[i] == s[lo + i];
  }

  lemma DropLeadingHyphensShape(s: string)
    requires SlugChars(s) && NoDoubleHyphen(s)
    ensures var r := DropLeadingHyphens(s);
      SlugChars(r) && NoDoubleHyphen(r) && AlnumOf(r) == AlnumOf(s)
  {
    SlugShapeSlice(s, |s| - |DropLeadingHyphens(s)|, |s|);
    AlnumOfDropLeading(s);
  }

  lemma {:induction false} AlnumOfDropLeading(s: string)
    ensures AlnumOf(DropLeadingHyphens(s)) == AlnumOf(s)
    decreases |s|
  {
    if s != [] && s[0] == '-' {
      AlnumOfDropLeading(s[1..]);
    }
  }

  lemma DropTrailingHyphensShape(s: string)
    requires SlugChars(s) && NoDoubleHyphen(s)
    ensures var r := DropTrailingHyphens(s);
      SlugChars(r) && NoDoubleHyphen(r) && AlnumOf(r) == AlnumOf(s)
  {
    var r := DropTrailingHyphens(s);
    SlugShapeSlice(s, 0, |r|);
    assert s == r + s[|r|..];
    AlnumOfAppend(r, s[|r|..]);
    AlnumOfNone(s[|r|..]);
  }

  lemma StripHyphensShape(s: string)
    requires SlugChars(s) && NoDoubleHyphen(s)
    ensures var r := StripHyphens(s);
      SlugChars(r) && NoDoubleHyphen(r) && AlnumOf(r) == AlnumOf(s)
      && (r == [] || (r[0] != '-' && r[|r| - 1] != '-'))
  {
    var a := DropLeadingHyphens(s);
    DropLeadingHyphensShape(s);
    DropTrailingHyphensShape(a);
    var r := DropTrailingHyphens(a);
    assert StripHyphens(s) == r;
    if r != [] {
      assert r[0] == a[0] && a[0] != '-';
      assert r[|r| - 1] != '-';
    }
  }

  lemma {:induction false} AlnumOfSlugChars(s: string)
    requires SlugChars(s) && s != [] && s[0] != '-'
    ensures AlnumOf(s) != []
  {
    assert AlnumOf(s) == [s[0]] + AlnumOf(s[1..]);
  }

  /** The slug is always usable before `_<id>`, is "video" exactly when the
      title has no ASCII letter or digit, and otherwise keeps every letter
      and digit of the title in order. */
  lemma SlugifyMakesSlug(title: Option<string>)
    ensures IsSlug(Slugify(title))
    ensures title.None? || AlnumOf(title.value) == [] ==> Slugify(title) == Fallback
    ensures title.Some? && AlnumOf(title.value) != [] ==>
      AlnumOf(Slugify(title)) == AlnumOf(title.value)
  {
    if title.Some? && title.value != [] {
      var c := Clean(title.value);
      AlnumOfClean(title.value);
      HyphenateShape(c);
      HyphenateKeepsAlnum(c);
      var h := Hyphenate(c);
      StripHyphensShape(h);
      var slug := StripHyphens(h);
      if slug != [] {
        AlnumOfSlugChars(slug);
      }
    }
  }

  // ------------------------------------------- the words, joined by `-`

  predicate NoHyphen(s: string) { forall i :: 0 <= i < |s| ==> s[i] != '-' }

  lemma NoHyphenSuffix(s: string, k: int)
    requires NoHyphen(s) && 0 <= k <= |s|
    ensures NoHyphen(s[k..])
  {
    assert forall i :: 0 <= i < |s| - k ==> s[k..][i] == s[k + i];
  }

  /** A run without whitespace passes through `Hyphenate` unchanged. */
  lemma {:induction false} HyphenateWordThen(w: string, x: string)
    requires NoSpace(w)
    ensures HyphenateAfter(w + x, false) == w + HyphenateAfter(x, false)
    decreases |w|
  {
    if w == [] {
      assert w + x == x;
    } else {
      assert (w + x)[0] == w[0];
      assert (w + x)[1..] == w[1..] + x;
      HyphenateWordThen(w[1..], x);
      assert w == [w[0]] + w[1..];
    }
  }

  /** Trailing `-` are dropped from the end only. */
  lemma {:induction false} DropTrailingAppend(x: string, y: string)
    requires DropTrailingHyphens(y) != []
    ensures DropTrailingHyphens(x + y) == x + DropTrailingHyphens(y)
    decreases |y|
  {
    var s := x + y;
    assert s[|s| - 1] == y[|y| - 1];
    if y[|y| - 1] == '-' {
      assert s[..|s| - 1] == x + y[..|y| - 1];
      DropTrailingAppend(x, y[..|y| - 1]);
    }
  }

  /** `Hyphenate` keeps the first word of a text that starts with one. */
  lemma HyphenateFirstWord(u: string, w: string, rest: string)
    requires NoHyphen(u) && u != [] && !IsSpace(u[0])
    requires w == Word(u) && rest == u[|w|..]
    ensures Hyphenate(u) == w + Hyphenate(rest)
    ensures w != [] && w[|w| - 1] != '-' && NoHyphen(rest)
  {
    TakeDrop(u, |w|);
    assert u[..|w|] == w;
    assert u == w + rest;
    HyphenateWordThen(w, rest);
    assert w[|w| - 1] == u[|w| - 1];
    NoHyphenSuffix(u, |w|);
  }

  /** Inside a whitespace run, the rest of the run writes nothing. */
  lemma {:induction false} HyphenateInRun(t: string)
    ensures HyphenateAfter(t, true) == HyphenateAfter(StripStart(t), false)
    decreases |t|
  {
    if t != [] && IsSpace(t[0]) {
      HyphenateInRun(t[1..]);
    }
  }

  /** `Hyphenate` turns a leading whitespace run into one `-`. */
  lemma HyphenateSpace(rest: string)
    requires rest != [] && IsSpace(rest[0])
    ensures Hyphenate(rest) == "-" + Hyphenate(StripStart(rest))
  {
    HyphenateInRun(rest[1..]);
    assert StripStart(rest) == StripStart(rest[1..]);
  }

  lemma DropTrailingOfWord(w: string, x: string)
    requires w != [] && w[|w| - 1] != '-' && (x == [] || x == "-")
    ensures DropTrailingHyphens(w + x) == w
  {
    if x == "-" {
      assert (w + x)[..|w|] == w;
    } else {
      assert w + x == w;
    }
  }

  /** A word, one `-` and a hyphenated remainder whose trailing `-` drop
      to its joined words, drop to all the words joined. */
  lemma DropTrailingJoinStep(h: string, w: string, hv: string,
                             words: seq<string>, rest: seq<string>)
    requires h == w + ("-" + hv) && words == [w] + rest
    requires rest != [] && rest[0] != [] && DropTrailingHyphens(hv) == Join(rest, "-")
    ensures DropTrailingHyphens(h) == Join(words, "-")
  {
    JoinNonEmpty(rest, "-");
    Assoc(w, "-", hv);
    DropTrailingAppend(w + "-", hv);
    JoinCons(w, rest, "-");
  }

  /** After the leading whitespace, hyphenating and dropping the trailing
      `-` joins the words of `s.split()` with single `-`. */
  lemma {:induction false} HyphenatedWords(u: string)
    requires NoHyphen(u) && (u == [] || !IsSpace(u[0]))
    ensures DropTrailingHyphens(Hyphenate(u)) == Join(Tokens(u), "-")
    decreases |u|
  {
    if u != [] {
      var w := Word(u);
      var rest := u[|w|..];
      assert StripStart(u) == u;
      TokensStep(u, w, rest);
      HyphenateFirstWord(u, w, rest);
      if rest == [] {
        DropTrailingOfWord(w, []);
      } else {
        TokensFirstWord(u, [], w, rest);
        HyphenatedWordsAfterSpace(u, w, rest);
      }
    }
  }

  lemma {:induction false} HyphenatedWordsAfterSpace(u: string, w: string, rest: string)
    requires NoHyphen(rest) && rest != [] && IsSpace(rest[0])
    requires w != [] && w[|w| - 1] != '-'
    requires Hyphenate(u) == w + Hyphenate(rest) && Tokens(u) == [w] + Tokens(rest)
    ensures DropTrailingHyphens(Hyphenate(u)) == Join(Tokens(u), "-")
    decreases |rest|, 1
  {
    if StripStart(rest) == [] {
      HyphenatedWordsLast(u, w, rest);
    } else {
      HyphenatedWordsMore(u, w, rest);
    }
  }

  /** Whitespace closing the text leaves the first word alone in the slug. */
  lemma HyphenatedWordsLast(u: string, w: string, rest: string)
    requires rest != [] && IsSpace(rest[0]) && StripStart(rest) == []
    requires w != [] && w[|w| - 1] != '-'
    requires Hyphenate(u) == w + Hyphenate(rest) && Tokens(u) == [w] + Tokens(rest)
    ensures DropTrailingHyphens(Hyphenate(u)) == Join(Tokens(u), "-")
  {
    var v := StripStart(rest);
    HyphenateSpace(rest);
    TokensOfStripped(rest);
    DropTrailingLastWord(Hyphenate(u), w, Hyphenate(rest), Hyphenate(v),
                         Tokens(u), Tokens(rest), Tokens(v));
  }

  /** The words after the first one are hyphenated on their own, and joined behind it. */
  lemma {:induction false} HyphenatedWordsMore(u: string, w: string, rest: string)
    requires NoHyphen(rest) && rest != [] && IsSpace(rest[0]) && StripStart(rest) != []
    requires w != [] && w[|w| - 1] != '-'
    requires Hyphenate(u) == w + Hyphenate(rest) && Tokens(u) == [w] + Tokens(rest)
    ensures DropTrailingHyphens(Hyphenate(u)) == Join(Tokens(u), "-")
    decreases |rest|, 0
  {
    var v := StripStart(rest);
    HyphenateSpace(rest);
    TokensOfStripped(rest);
    NoHyphenSuffix(rest, |rest| - |v|);
    StripStartShorter(rest);
    HyphenatedWords(v);
    HyphenatedWordsTail(u, w, v);
  }

  /** Joins the slug of the remaining words `v` behind the first word `w`. */
  lemma {:induction false} HyphenatedWordsTail(u: string, w: string, v: string)
    requires v != [] && NoHyphen(v) && !IsSpace(v[0])
    requires w != [] && w[|w| - 1] != '-'
    requires Hyphenate(u) == w + ("-" + Hyphenate(v)) && Tokens(u) == [w] + Tokens(v)
    requires DropTrailingHyphens(Hyphenate(v)) == Join(Tokens(v), "-")
    ensures DropTrailingHyphens(Hyphenate(u)) == Join(Tokens(u), "-")
  {
    assert StripStart(v) == v;
    TokensStep(v, Word(v), v[|Word(v)|..]);
    DropTrailingJoinStep(Hyphenate(u), w, Hyphenate(v), Tokens(u), Tokens(v));
  }

  /** A last word followed by the `-` of trailing whitespace joins to itself. */
  lemma DropTrailingLastWord(h: string, w: string, hr: string, hv: string,
                             words: seq<string>, tr: seq<string>, tv: seq<string>)
    requires h == w + hr && hr == "-" + hv && hv == []
    requires words == [w] + tr && tr == tv && tv == []
    requires w != [] && w[|w| - 1] != '-'
    ensures DropTrailingHyphens(h) == Join(words, "-")
  {
    assert h == w + "-" && words == [w];
    DropTrailingOfWord(w, "-");
  }

  /** Hyphenating a text that starts with a letter or digit puts no `-` first. */
  lemma DropLeadingOfWordStart(u: string)
    requires NoHyphen(u) && (u == [] || !IsSpace(u[0]))
    ensures DropLeadingHyphens(Hyphenate(u)) == Hyphenate(u)
  {
    if u != [] {
      assert u[0] != '-';
      assert Hyphenate(u) == [u[0]] + HyphenateAfter(u[1..], false);
    }
  }

  lemma DropLeadingHyphen(h: string)
    ensures DropLeadingHyphens("-" + h) == DropLeadingHyphens(h)
  {
    assert ("-" + h)[0] == '-' && ("-" + h)[1..] == h;
  }

  /** The leading `-` that `strip('-')` drops is the leading whitespace's. */
  lemma DropLeadingOfHyphenate(s: string)
    requires NoHyphen(s)
    ensures DropLeadingHyphens(Hyphenate(s)) == Hyphenate(StripStart(s))
  {
    var u := StripStart(s);
    NoHyphenSuffix(s, |s| - |u|);
    DropLeadingOfWordStart(u);
    if s != [] && IsSpace(s[0]) {
      HyphenateSpace(s);
      DropLeadingHyphen(Hyphenate(u));
    }
  }

  /** `s.strip('-')` of the hyphenated text is its words joined by `-`. */
  lemma StripHyphensOfHyphenate(s: string)
    requires NoHyphen(s)
    ensures StripHyphens(Hyphenate(s)) == Join(Tokens(s), "-")
  {
    var u := StripStart(s);
    DropLeadingOfHyphenate(s);
    NoHyphenSuffix(s, |s| - |u|);
    HyphenatedWords(u);
    TokensOfStripped(s);
  }

  lemma CleanNoHyphen(s: string)
    ensures NoHyphen(Clean(s))
  {
  }

  /** The slug is the words of the cleaned title joined by single `-`, and
      "video" when the cleaned title has no word. */
  lemma SlugifyIsJoinedWords(title: string)
    ensures var words := Tokens(Clean(title));
      Slugify(Some(title)) == if words == [] then Fallback else Join(words, "-")
  {
    var c := Clean(title);
    if title == [] {
      assert Tokens(c) == [];
    } else {
      CleanNoHyphen(title);
      StripHyphensOfHyphenate(c);
      var words := Tokens(c);
      if words != [] {
        TokensAreWords(c);
        JoinNonEmpty(words, "-");
      }
    }
  }

  lemma {:induction false} CleanWithoutSpace(s: string)
    requires forall i :: 0 <= i < |s| ==> s[i] != ' '
    ensures Clean(s) == AlnumOf(s)
    decreases |s|
  {
    if s != [] {
      CleanWithoutSpace(s[1..]);
    }
  }

  lemma {:induction false} HyphenateAlnum(s: string)
    requires AllAlnum(s)
    ensures Hyphenate(s) == s
    decreases |s|
  {
    if s != [] {
      HyphenateAlnum(s[1..]);
      assert s == [s[0]] + s[1..];
    }
  }

  lemma AlnumOfIsAlnum(s: string)
    ensures AllAlnum(AlnumOf(s))
  {
    if s != [] {
      AlnumOfIsAlnum(s[1..]);
    }
  }

  lemma StripHyphensAlnum(s: string)
    requires s != [] && AllAlnum(s)
    ensures StripHyphens(s) == s
  {
    assert IsAsciiAlnum(s[0]) && IsAsciiAlnum(s[|s| - 1]);
    assert DropLeadingHyphens(s) == s;
  }

  /** Hyphens come only from spaces: a title without a space slugs to its
      letters and digits alone. */
  lemma SlugOfOneWord(title: string)
    requires forall i :: 0 <= i < |title| ==> title[i] != ' '
    requires AlnumOf(title) != []
    ensures Slugify(Some(title)) == AlnumOf(title)
  {
    var a := AlnumOf(title);
    assert title != [];
    CleanWithoutSpace(title);
    AlnumOfIsAlnum(title);
    HyphenateAlnum(a);
    StripHyphensAlnum(a);
  }
}
