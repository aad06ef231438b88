/** The video page URL: `PMVHavenVideoIE._VALID_URL`, which recovers the
    video id, and the permalink `_entries_page` writes for each video. */
module VideoUrl {
  import opened Wrappers
  import opened PyText

  const SecureScheme := "https://"
  const PlainScheme := "http://"
  const VideoPath := "pmvhaven.com/video/"
  const WwwVideoPath := "www.pmvhaven.com/video/"

  /** `https?://` */
  function AfterScheme(url: string): Option<string> {
    if SecureScheme <= url then Some(url[|SecureScheme|..])
    else if PlainScheme <= url then Some(url[|PlainScheme|..])
    else None
  }

  /** `(?:www\.)?pmvhaven\.com/video/` */
  function AfterVideoPath(rest: string): Option<string> {
    if WwwVideoPath <= rest then Some(rest[|WwwVideoPath|..])
    else if VideoPath <= rest then Some(rest[|VideoPath|..])
    else None
  }

  /** The position of the first `c` in `s`, if any. */
  function IndexOf(s: string, c: char): (r: Option<nat>)
    ensures r.Some? ==> r.value < |s| && s[r.value] == c
    ensures r.Some? ==> forall j :: 0 <= j < r.value ==> s[j] != c
    ensures r.None? <==> forall j :: 0 <= j < |s| ==> s[j] != c
  {
    if s == [] then None
    else if s[0] == c then Some(0)
    else match IndexOf(s[1..], c)
      case None => None
      case Some(i) => Some(i + 1)
  }

  /** The longest prefix of `s` in `[a-zA-Z0-9]`: what the greedy `+` takes. */
  function AlnumPrefix(s: string): (r: string)
    ensures r <= s && AllAlnum(r)
    ensures |r| == |s| || !IsAsciiAlnum(s[|r|])
  {
    if s == [] || !IsAsciiAlnum(s[0]) then [] else [s[0]] + AlnumPrefix(s[1..])
  }

  /** `re.match(_VALID_URL, url).group('id')`, None when the URL does not
      match. `[^_]+` cannot step over an underscore, so the id starts right
      after the first `_` past `/video/`, which needs at least one character
      before it; the id is the longest run of letters and digits there, and
      the match is anchored at the start only. */
  function MatchVideoId(url: string): (r: Option<string>)
    ensures r.Some? ==> r.value != [] && AllAlnum(r.value)
  {
    match AfterScheme(url)
    case None => None
    case Some(rest) =>
      match AfterVideoPath(rest)
      case None => None
      case Some(tail) =>
        match IndexOf(tail, '_')
        case None => None
        case Some(i) =>
          if i == 0 then None
          else
            var id := AlnumPrefix(tail[i + 1..]);
            if id == [] then None else Some(id)
  }

  predicate NoUnderscore(s: string) { forall i :: 0 <= i < |s| ==> s[i] != '_' }

  /** `url` is `scheme + host + slug + "_" + id + rest` as `_VALID_URL`
      reads it: `https?://`, `(?:www\.)?pmvhaven\.com/video/`, a non-empty
      `[^_]+`, the `_`, the id `[a-zA-Z0-9]+`, and after the id anything
      that does not extend it. */
  predicate IsVideoUrl(url: string, scheme: string, host: string, slug: string,
                       id: string, rest: string) {
    (scheme == SecureScheme || scheme == PlainScheme)
    && (host == VideoPath || host == WwwVideoPath)
    && slug != [] && NoUnderscore(slug)
    && id != [] && AllAlnum(id) && (rest == [] || !IsAsciiAlnum(rest[0]))
    && url == scheme + host + slug + "_" + id + rest
  }

  /** `f'https://pmvhaven.com/video/{slug}_{vid}'` */
  function Permalink(slug: string, vid: string): (r: string)
    ensures |r| == |SecureScheme + VideoPath| + |slug| + 1 + |vid|
    ensures SecureScheme + VideoPath <= r
    ensures r[|r| - |vid| - 1..] == "_" + vid
  {
    SecureScheme + VideoPath + slug + "_" + vid
  }

  lemma {:induction false} AlnumPrefixOfAlnum(s: string)
    requires AllAlnum(s)
    ensures AlnumPrefix(s) == s
    decreases |s|
  {
    if s != [] {
      AlnumPrefixOfAlnum(s[1..]);
    }
  }

  lemma AfterSecureScheme(rest: string)
    ensures AfterScheme(SecureScheme + rest) == Some(rest)
  {
    assert SecureScheme <= SecureScheme + rest;
    assert (SecureScheme + rest)[|SecureScheme|..] == rest;
  }

  lemma AfterEitherScheme(scheme: string, rest: string)
    requires scheme == SecureScheme || scheme == PlainScheme
    ensures AfterScheme(scheme + rest) == Some(rest)
  {
    if scheme == SecureScheme {
      AfterSecureScheme(rest);
    } else {
      var url := scheme + rest;
      assert url[4] != SecureScheme[4];
      assert PlainScheme <= url;
      assert url[|PlainScheme|..] == rest;
    }
  }

  lemma AfterBareVideoPath(tail: string)
    ensures AfterVideoPath(VideoPath + tail) == Some(tail)
  {
    var rest := VideoPath + tail;
    assert rest[0] != WwwVideoPath[0];
    assert VideoPath <= rest;
    assert rest[|VideoPath|..] == tail;
  }

  lemma AfterEitherVideoPath(host: string, tail: string)
    requires host == VideoPath || host == WwwVideoPath
    ensures AfterVideoPath(host + tail) == Some(tail)
  {
    if host == VideoPath {
      AfterBareVideoPath(tail);
    } else {
      var rest := host + tail;
      assert WwwVideoPath <= rest;
      assert rest[|WwwVideoPath|..] == tail;
    }
  }

  /** The greedy `[a-zA-Z0-9]+` stops exactly where the id stops. */
  lemma {:induction false} AlnumPrefixThen(id: string, rest: string)
    requires AllAlnum(id) && (rest == [] || !IsAsciiAlnum(rest[0]))
    ensures AlnumPrefix(id + rest) == id
    decreases |id|
  {
    var s := id + rest;
    if id == [] {
      assert s == rest;
    } else {
      assert s[0] == id[0];
      assert s[1..] == id[1..] + rest;
      AlnumPrefixThen(id[1..], rest);
      assert id == [id[0]] + id[1..];
    }
  }

  lemma {:induction false} FirstUnderscore(slug: string, vid: string)
    requires NoUnderscore(slug)
    ensures IndexOf(slug + "_" + vid, '_') == Some(|slug|)
    decreases |slug|
  {
    var tail := slug + "_" + vid;
    if slug == [] {
      assert tail[0] == '_';
    } else {
      assert tail[0] == slug[0];
      assert tail[1..] == slug[1..] + "_" + vid;
      FirstUnderscore(slug[1..], vid);
    }
  }

  /** A permalink built from a non-empty slug without `_` and an id of
      letters and digits is a video URL, and matching it gives the id back. */
  lemma PermalinkRoundTrip(slug: string, vid: string)
    requires slug != [] && NoUnderscore(slug)
    requires vid != [] && AllAlnum(vid)
    ensures MatchVideoId(Permalink(slug, vid)) == Some(vid)
  {
    var tail := slug + "_" + vid;
    var rest := VideoPath + tail;
    assert Permalink(slug, vid) == SecureScheme + rest;
    AfterSecureScheme(rest);
    AfterBareVideoPath(tail);
    FirstUnderscore(slug, vid);
    assert tail[|slug| + 1..] == vid;
    AlnumPrefixOfAlnum(vid);
  }

  /** Every URL of the video shape matches, and the match gives its id. */
  lemma MatchVideoIdComplete(url: string, scheme: string, host: string, slug: string,
                             id: string, rest: string)
    requires IsVideoUrl(url, scheme, host, slug, id, rest)
    ensures MatchVideoId(url) == Some(id)
  {
    var tail := slug + "_" + (id + rest);
    Flatten(scheme, host, slug, "_", id, rest);
    AfterEitherScheme(scheme, host + tail);
    AfterEitherVideoPath(host, tail);
    FirstUnderscore(slug, id + rest);
    assert tail[|slug| + 1..] == id + rest;
    AlnumPrefixThen(id, rest);
  }

  lemma SchemeParts(url: string) returns (scheme: string, rest: string)
    requires AfterScheme(url).Some?
    ensures (scheme == SecureScheme || scheme == PlainScheme)
    ensures url == scheme + rest && AfterScheme(url) == Some(rest)
  {
    scheme := if SecureScheme <= url then SecureScheme else PlainScheme;
    rest := url[|scheme|..];
  }

  lemma VideoPathParts(rest: string) returns (host: string, tail: string)
    requires AfterVideoPath(rest).Some?
    ensures host == VideoPath || host == WwwVideoPath
    ensures rest == host + tail && AfterVideoPath(rest) == Some(tail)
  {
    host := if WwwVideoPath <= rest then WwwVideoPath else VideoPath;
    tail := rest[|host|..];
  }

  lemma UnderscoreParts(tail: string) returns (slug: string, after: string)
    requires IndexOf(tail, '_').Some? && IndexOf(tail, '_').value != 0
    ensures slug != [] && NoUnderscore(slug) && tail == slug + "_" + after
    ensures after == tail[IndexOf(tail, '_').value + 1..]
  {
    var i := IndexOf(tail, '_').value;
    slug := tail[..i];
    after := tail[i + 1..];
    assert tail == slug + [tail[i]] + after;
  }

  lemma IdParts(after: string) returns (rest: string)
    ensures after == AlnumPrefix(after) + rest
    ensures rest == [] || !IsAsciiAlnum(rest[0])
  {
    rest := after[|AlnumPrefix(after)|..];
  }

  /** A URL that matches has the video shape around the id it gives, and
      these are the parts. */
  lemma MatchVideoIdParts(url: string) returns (scheme: string, host: string, slug: string,
                                                rest: string)
    requires MatchVideoId(url).Some?
    ensures IsVideoUrl(url, scheme, host, slug, MatchVideoId(url).value, rest)
  {
    var afterScheme, tail, after;
    scheme, afterScheme := SchemeParts(url);
    host, tail := VideoPathParts(afterScheme);
    slug, after := UnderscoreParts(tail);
    rest := IdParts(after);
    var id := AlnumPrefix(after);
    assert id == MatchVideoId(url).value;
    Flatten(scheme, host, slug, "_", id, rest);
  }

  /** `_VALID_URL` gives the id `id` exactly for the URLs of the video
      shape around `id`: the part before it is the text up to the first `_`. */
  lemma MatchVideoIdIff(url: string, id: string)
    ensures MatchVideoId(url) == Some(id) <==>
      exists scheme, host, slug, rest :: IsVideoUrl(url, scheme, host, slug, id, rest)
  {
    if MatchVideoId(url) == Some(id) {
      var scheme, host, slug, rest := MatchVideoIdParts(url);
    }
    forall scheme, host, slug, rest | IsVideoUrl(url, scheme, host, slug, id, rest)
      ensures MatchVideoId(url) == Some(id)
    {
      MatchVideoIdComplete(url, scheme, host, slug, id, rest);
    }
  }

  /** The first `_` ends the slug: "my_title_abc" gives the id "title". */
  lemma FirstUnderscoreWins()
    ensures MatchVideoId(SecureScheme + VideoPath + "my_title_abc") == Some("title")
  {
    var url := SecureScheme + VideoPath + "my_title_abc";
    assert "my_title_abc" == "my" + "_" + "title" + "_abc";
    assert url == SecureScheme + VideoPath + "my" + "_" + "title" + "_abc";
    MatchVideoIdComplete(url, SecureScheme, VideoPath, "my", "title", "_abc");
  }
}
