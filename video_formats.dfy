/** `PMVHavenVideoIE._extract_video_meta` and `_extract_formats`: the page's
    dimensions and the single format candidate read from its meta tags. */
module VideoFormats {
  import opened Wrappers
  import opened PyText
  import opened MetaTags
  import opened VideoFields

  const OgSecureUrl := Key(Property, "og:video:secure_url")
  const TwitterPlayer := Key(Name, "twitter:player")

  /** The container every candidate is labelled with. */
  const Mp4 := "mp4"

  /** The resolution a format gets without usable dimensions. */
  const Unknown := "unknown"

  /** The keys `_extract_video_meta` may set; a None field is a key the
      returned dict does not have. */
  datatype Dimensions = Dimensions(width: Option<int>, height: Option<int>, resolution: Option<string>)

  const NoDimensions := Dimensions(None, None, None)

  /** `f"{width}x{height}"` */
  function Resolution(width: int, height: int): (r: string)
    ensures |r| == |IntToString(width)| + 1 + |IntToString(height)|
    ensures r[|IntToString(width)|] == 'x' && IsDigit(r[|r| - 1])
  {
    IntToString(width) + "x" + IntToString(height)
  }

  /** The resolution string splits at its first `x` into two numerals that
      read back as the width and the height. */
  lemma ResolutionRoundTrip(width: int, height: int)
    ensures var s := Resolution(width, height); var k := |IntToString(width)|;
      k < |s| && s[k] == 'x' && (forall j :: 0 <= j < k ==> s[j] != 'x')
      && ParseInt(s[..k]) == Ok(width) && ParseInt(s[k + 1..]) == Ok(height)
  {
    var w := IntToString(width);
    var h := IntToString(height);
    var s := Resolution(width, height);
    var k := |w|;
    assert s == w + ("x" + h);
    assert s[..k] == w;
    assert s[k..] == "x" + h;
    assert s[k] == 'x';
    assert s[k + 1..] == h;
    forall j | 0 <= j < k ensures s[j] != 'x' {
      assert s[j] == w[j];
    }
    ParseIntOfIntToString(width);
    ParseIntOfIntToString(height);
  }

  /** `_extract_video_meta`, step by step as the source fills its dict: each
      dimension looks up its og tag, falling back to its twitter tag on its
      own; both are read only when both were found. */
  method ExtractVideoMeta(page: Page) returns (r: Result<Dimensions>)
    ensures r.Ok? ==> (r.value.width.Some? <==> r.value.height.Some?)
    ensures r.Ok? ==> (r.value.resolution.Some? <==> r.value.width.Some?)
    ensures r.Ok? && r.value.width.Some? ==>
      r.value.resolution == Some(Resolution(r.value.width.value, r.value.height.value))
    ensures r == Ok(NoDimensions) <==>
      (Absent(page, OgWidth) && Absent(page, TwitterWidth))
      || (Absent(page, OgHeight) && Absent(page, TwitterHeight))
    ensures r.Ok? && r.value.width.Some? ==>
      ExtractWidth(page) == Ok(r.value.width) && ExtractHeight(page) == Ok(r.value.height)
    ensures r.Err? <==>
      ExtractWidth(page) != Ok(None) && ExtractHeight(page) != Ok(None)
      && (ExtractWidth(page).Err? || ExtractHeight(page).Err?)
    ensures r.Err? ==>
      r.error == (if ExtractWidth(page).Err? then ExtractWidth(page).error else ExtractHeight(page).error)
  {
    var widthAt := Find(page, OgWidth);
    var heightAt := Find(page, OgHeight);
    if widthAt.None? {
      widthAt := Find(page, TwitterWidth);
    }
    if heightAt.None? {
      heightAt := Find(page, TwitterHeight);
    }
    assert widthAt == FindEither(page, OgWidth, TwitterWidth);
    assert heightAt == FindEither(page, OgHeight, TwitterHeight);

    var width: Option<int> := None;
    var height: Option<int> := None;
    if widthAt.Some? && heightAt.Some? {
      var w := IntContent(page[widthAt.value]);
      if w.Err? {
        return Err(w.error);
      }
      var h := IntContent(page[heightAt.value]);
      if h.Err? {
        return Err(h.error);
      }
      width, height := Some(w.value), Some(h.value);
    }

    var resolution: Option<string> := None;
    if width.Some? && height.Some? {
      resolution := Some(Resolution(width.value, height.value));
    }
    r := Ok(Dimensions(width, height, resolution));
  }

  /** The media URL: og:video:secure_url, else twitter:player. */
  function ExtractVideoUrl(page: Page): (r: Result<Option<string>>)
    ensures r == Ok(None) <==> Absent(page, OgSecureUrl) && Absent(page, TwitterPlayer)
    ensures forall i :: Picked(page, OgSecureUrl, TwitterPlayer, i) ==>
      (page[i].content.Some? ==> r == Ok(page[i].content))
      && (page[i].content.None? ==> r == Err(KeyError("content")))
  {
    OptionalContent(page, FindEither(page, OgSecureUrl, TwitterPlayer))
  }

  /** One format candidate: its URL, container, the Referer header it must
      be fetched with, and its resolution. */
  datatype Format = Format(url: string, ext: string, referer: string, resolution: string)

  /** `_extract_formats(soup, url)`: reads the media URL, then the width and
      the height (so a bad dimension raises even when there is no media URL),
      and returns one candidate when the media URL is a non-empty string. */
  function ExtractFormats(page: Page, url: string): (r: Result<seq<Format>>)
    ensures r.Err? <==>
      ExtractVideoUrl(page).Err? || ExtractWidth(page).Err? || ExtractHeight(page).Err?
    ensures r.Err? ==>
      r.error == (if ExtractVideoUrl(page).Err? then ExtractVideoUrl(page).error
                  else if ExtractWidth(page).Err? then ExtractWidth(page).error
                  else ExtractHeight(page).error)
    ensures r.Ok? ==> |r.value| <= 1
    ensures r.Ok? ==> (r.value == [] <==> ExtractVideoUrl(page).value in {None, Some("")})
    ensures r.Ok? && r.value != [] ==>
      Some(r.value[0].url) == ExtractVideoUrl(page).value
      && r.value[0].ext == Mp4 && r.value[0].referer == url
    ensures r.Ok? && r.value != [] ==>
      var w := ExtractWidth(page).value;
      var h := ExtractHeight(page).value;
      if w.Some? && h.Some? && w.value != 0 && h.value != 0
      then r.value[0].resolution == Resolution(w.value, h.value)
      else r.value[0].resolution == Unknown
  {
    match ExtractVideoUrl(page)
    case Err(e) => Err(e)
    case Ok(videoUrl) =>
      match ExtractWidth(page)
      case Err(e) => Err(e)
      case Ok(width) =>
        match ExtractHeight(page)
        case Err(e) => Err(e)
        case Ok(height) =>
          var resolution :=
            if width.Some? && height.Some? && width.value != 0 && height.value != 0
            then Resolution(width.value, height.value) else Unknown;
          if videoUrl.Some? && videoUrl.value != [] then
            Ok([Format(videoUrl.value, Mp4, url, resolution)])
          else Ok([])
  }

  /** A format's resolution other than "unknown" is exactly the resolution
      `_extract_video_meta` reports for the same page: both dimension chains
      found a tag, and the two agree. */
  lemma FormatResolutionAgrees(page: Page, url: string, f: Format)
    requires ExtractFormats(page, url) == Ok([f]) && f.resolution != Unknown
    ensures ExtractWidth(page).Ok? && ExtractWidth(page).value.Some?
    ensures ExtractHeight(page).Ok? && ExtractHeight(page).value.Some?
    ensures f.resolution ==
      Resolution(ExtractWidth(page).value.value, ExtractHeight(page).value.value)
  {
  }

  /** When both dimensions are present and non-zero, the format never says
      "unknown". */
  lemma KnownResolutionNotUnknown(width: int, height: int)
    ensures Resolution(width, height) != Unknown
  {
    var s := Resolution(width, height);
    assert s[0] == IntToString(width)[0];
    assert s[0] != 'u';
  }
}
