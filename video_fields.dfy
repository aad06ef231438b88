/** The field extractors of `PMVHavenVideoIE`: each reads the first meta
    element of its first key that occurs, else of its fallback key, and
    raises what Python raises on a missing `content` or a bad numeral. */
module VideoFields {
  import opened Wrappers
  import opened PyText
  import opened MetaTags

  const OgTitle := Key(Property, "og:title")
  const TwitterTitle := Key(Name, "twitter:title")
  const OgVideoTag := Key(Property, "og:video:tag")
  const Keywords := Key(Name, "keywords")
  const Description := Key(Name, "description")
  const OgDescription := Key(Property, "og:description")
  const OgDuration := Key(Property, "og:video:duration")
  const OgImage := Key(Property, "og:image")
  const TwitterImage := Key(Name, "twitter:image")
  const OgWidth := Key(Property, "og:video:width")
  const TwitterWidth := Key(Name, "twitter:player:width")
  const OgHeight := Key(Property, "og:video:height")
  const TwitterHeight := Key(Name, "twitter:player:height")

  /** The separator the tag lists are split on. */
  const TagSeparator := ", "

  /** `tag['content']` */
  function ContentOf(t: MetaTag): (r: Result<string>)
    ensures r.Ok? <==> t.content.Some?
    ensures r.Ok? ==> r.value == t.content.value
    ensures r.Err? ==> r.error == KeyError("content")
  {
    if t.content.Some? then Ok(t.content.value) else Err(KeyError("content"))
  }

  /** `int(tag['content'])` */
  function IntContent(t: MetaTag): (r: Result<int>)
    ensures t.content.None? ==> r == Err(KeyError("content"))
    ensures t.content.Some? ==> r == ParseInt(t.content.value)
    ensures r.Err? ==> r.error == KeyError("content") || r.error == ValueError(t.content.value)
  {
    if t.content.Some? then ParseInt(t.content.value) else Err(KeyError("content"))
  }

  /** The content of the element a lookup found, None when it found none. */
  function OptionalContent(page: Page, at: Option<nat>): Result<Option<string>>
    requires at.Some? ==> at.value < |page|
  {
    match at
    case None => Ok(None)
    case Some(i) =>
      match ContentOf(page[i])
      case Ok(c) => Ok(Some(c))
      case Err(e) => Err(e)
  }

  function OptionalInt(page: Page, at: Option<nat>): Result<Option<int>>
    requires at.Some? ==> at.value < |page|
  {
    match at
    case None => Ok(None)
    case Some(i) =>
      match IntContent(page[i])
      case Ok(n) => Ok(Some(n))
      case Err(e) => Err(e)
  }

  /** `_extract_title`: og:title, else twitter:title, else None. */
  function ExtractTitle(page: Page): (r: Result<Option<string>>)
    ensures r == Ok(None) <==> Absent(page, OgTitle) && Absent(page, TwitterTitle)
    ensures forall i :: Picked(page, OgTitle, TwitterTitle, i) ==>
      (page[i].content.Some? ==> r == Ok(page[i].content))
      && (page[i].content.None? ==> r == Err(KeyError("content")))
  {
    OptionalContent(page, FindEither(page, OgTitle, TwitterTitle))
  }

  /** `_extract_tags`: og:video:tag split on ", ", else keywords split on
      ", ", else the empty list. */
  function ExtractTags(page: Page): (r: Result<seq<string>>)
    ensures r == Ok([]) <==> Absent(page, OgVideoTag) && Absent(page, Keywords)
    ensures forall i :: Picked(page, OgVideoTag, Keywords, i) ==>
      (page[i].content.Some? ==> r == Ok(SplitOn(page[i].content.value, TagSeparator)))
      && (page[i].content.None? ==> r == Err(KeyError("content")))
  {
    match OptionalContent(page, FindEither(page, OgVideoTag, Keywords))
    case Err(e) => Err(e)
    case Ok(None) => Ok([])
    case Ok(Some(c)) => Ok(SplitOn(c, TagSeparator))
  }

  /** `_extract_description`: name=description, else og:description, else None. */
  function ExtractDescription(page: Page): (r: Result<Option<string>>)
    ensures r == Ok(None) <==> Absent(page, Description) && Absent(page, OgDescription)
    ensures forall i :: Picked(page, Description, OgDescription, i) ==>
      (page[i].content.Some? ==> r == Ok(page[i].content))
      && (page[i].content.None? ==> r == Err(KeyError("content")))
  {
    OptionalContent(page, FindEither(page, Description, OgDescription))
  }

  /** `_extract_creator`: the last whitespace-separated word of the
      name=description content; `[-1]` raises IndexError on a blank one.
      The og:description fallback of the description is not consulted. */
  function ExtractCreator(page: Page): (r: Result<Option<string>>)
    ensures r == Ok(None) <==> Absent(page, Description)
    ensures forall i :: FirstWith(page, Description, i) ==>
      (page[i].content.None? ==> r == Err(KeyError("content")))
      && (page[i].content.Some? ==>
            (AllSpace(page[i].content.value) <==> r == Err(IndexError)))
    ensures forall i ::
      FirstWith(page, Description, i) && page[i].content.Some? && !AllSpace(page[i].content.value) ==>
        var words := Tokens(page[i].content.value);
        words != [] && r == Ok(Some(words[|words| - 1]))
    ensures r.Ok? && r.value.Some? ==> r.value.value != [] && NoSpace(r.value.value)
  {
    match OptionalContent(page, Find(page, Description))
    case Err(e) => Err(e)
    case Ok(None) => Ok(None)
    case Ok(Some(c)) =>
      var words := Tokens(c);
      TokensEmpty(c);
      TokensAreWords(c);
      if words == [] then Err(IndexError) else Ok(Some(words[|words| - 1]))
  }

  /** `_extract_duration`: `int()` of og:video:duration, else None. */
  function ExtractDuration(page: Page): (r: Result<Option<int>>)
    ensures r == Ok(None) <==> Absent(page, OgDuration)
    ensures forall i :: FirstWith(page, OgDuration, i) ==>
      (r.Err? <==> IntContent(page[i]).Err?)
      && (r.Err? ==> r.error == IntContent(page[i]).error)
      && (r.Ok? ==> r.value == Some(IntContent(page[i]).value))
  {
    OptionalInt(page, Find(page, OgDuration))
  }

  /** `_extract_thumbnail`: og:image, else twitter:image, else None. */
  function ExtractThumbnail(page: Page): (r: Result<Option<string>>)
    ensures r == Ok(None) <==> Absent(page, OgImage) && Absent(page, TwitterImage)
    ensures forall i :: Picked(page, OgImage, TwitterImage, i) ==>
      (page[i].content.Some? ==> r == Ok(page[i].content))
      && (page[i].content.None? ==> r == Err(KeyError("content")))
  {
    OptionalContent(page, FindEither(page, OgImage, TwitterImage))
  }

  /** `_extract_width`: `int()` of og:video:width, else of
      twitter:player:width, else None. */
  function ExtractWidth(page: Page): (r: Result<Option<int>>)
    ensures r == Ok(None) <==> Absent(page, OgWidth) && Absent(page, TwitterWidth)
    ensures forall i :: Picked(page, OgWidth, TwitterWidth, i) ==>
      (r.Err? <==> IntContent(page[i]).Err?)
      && (r.Err? ==> r.error == IntContent(page[i]).error)
      && (r.Ok? ==> r.value == Some(IntContent(page[i]).value))
  {
    OptionalInt(page, FindEither(page, OgWidth, TwitterWidth))
  }

  /** `_extract_height`: `int()` of og:video:height, else of
      twitter:player:height, else None. */
  function ExtractHeight(page: Page): (r: Result<Option<int>>)
    ensures r == Ok(None) <==> Absent(page, OgHeight) && Absent(page, TwitterHeight)
    ensures forall i :: Picked(page, OgHeight, TwitterHeight, i) ==>
      (r.Err? <==> IntContent(page[i]).Err?)
      && (r.Err? ==> r.error == IntContent(page[i]).error)
      && (r.Ok? ==> r.value == Some(IntContent(page[i]).value))
  {
    OptionalInt(page, FindEither(page, OgHeight, TwitterHeight))
  }

  /** The tags joined back with ", " give the content they were read from,
      and no tag holds the separator. */
  lemma TagsJoinBack(page: Page, i: nat)
    requires Picked(page, OgVideoTag, Keywords, i) && page[i].content.Some?
    ensures ExtractTags(page).Ok?
    ensures Join(ExtractTags(page).value, TagSeparator) == page[i].content.value
    ensures forall k :: 0 <= k < |ExtractTags(page).value| ==>
      !Contains(ExtractTags(page).value[k], TagSeparator)
  {
    JoinSplitOn(page[i].content.value, TagSeparator);
    SplitOnPiecesLackSeparator(page[i].content.value, TagSeparator);
  }

  /** The content a creator is read from is the description's too. */
  lemma DescriptionOfNameTag(page: Page)
    requires Find(page, Description).Some?
    ensures ExtractDescription(page) == OptionalContent(page, Find(page, Description))
  {
  }

  /** The creator is the last word of the description whenever the page has
      a name=description element; the description then comes from it too. */
  lemma CreatorIsLastWordOfDescription(page: Page)
    requires ExtractCreator(page).Ok? && ExtractCreator(page).value.Some?
    ensures ExtractDescription(page).Ok? && ExtractDescription(page).value.Some?
    ensures var words := Tokens(ExtractDescription(page).value.value);
      words != [] && ExtractCreator(page).value.value == words[|words| - 1]
  {
    DescriptionOfNameTag(page);
  }
}
