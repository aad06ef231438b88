# PMVHaven extractor core, modelled in Dafny

This project models the deterministic core of the yt-dlp plugin for
pmvhaven.com (`yt_dlp_plugins/extractor/PMVHaven.py`). The plugin has two
extractors:

- **`PMVHavenVideoIE`** reads a video page's `<meta>` tags. Here the page is
  its sequence of meta elements (`MetaTags.Page`), and `soup.find` is a
  first-match lookup (`MetaTags.Find`). Every field extractor is modelled with
  its fallback order and with the Python exceptions it can raise: a missing
  `content` attribute (KeyError), a numeral `int()` rejects (ValueError), and
  the blank description whose `split()[-1]` fails (IndexError). The video id
  comes from the URL pattern `_VALID_URL`. `_extract_video_meta` fills its
  dict step by step and is modelled as a method. `_extract_formats` yields at
  most one format candidate.
- **`PMVHavenUserIE`** pages through the profile API. The model covers the
  request payload of `_call_api`, the stop rule of `_entries_page`, and the
  entry it builds for each video object. This includes `_slugify` and the
  permalink `https://pmvhaven.com/video/{slug}_{vid}`. The main theorem is
  that the video extractor's URL pattern recovers the id from that permalink.

The Python built-ins the code leans on are modelled in `PyText`: `str.isspace`,
the narrower whitespace `int()` skips, `str(int)`, `int(str)`, `split(sep)`
and `split()`. The JSON lookups (`traverse_obj`, `int_or_none`) are modelled
in `Json`. Module by file:
`wrappers.dfy`, `pytext.dfy`, `json.dfy`, `meta_tags.dfy`, `video_fields.dfy`,
`video_formats.dfy`, `video_url.dfy`, `slug.dfy`, `profile_api.dfy`.

### Behaviour of the code worth knowing

- A video object without a string `_id` is not skipped. Its entry has no id,
  but its URL ends in `_None`, and the video extractor reads that as the id
  "None" (`ProfileApi.EntryWithoutIdUrl`).
- `count` goes through `int_or_none`. A count sent as the string `"40"`
  therefore stops paging just as the number 40 does. Only a missing count or
  one `int()` cannot read never stops paging.
- `_extract_formats` returns no candidate when there is no media URL tag, and
  also when that tag's content is the empty string. It reads the width and the
  height before it tests the URL, so a malformed dimension raises even on a
  page without a media URL.
- The creator comes only from the `name=description` tag. A page whose
  description comes from `og:description` gets no creator.
- The video id is what follows the first `_` after `/video/`, not the last
  one. A permalink whose slug held a `_` would lose part of its id, which is
  why `_slugify` drops every character but letters, digits and spaces.
  `https://pmvhaven.com/video/my_title_abc` gives the id "title"
  (`VideoUrl.FirstUnderscoreWins`).
- `int()` skips less whitespace than `str.split()` and `str.strip()`. The
  separators U+001C..U+001F count as whitespace for the latter two but make
  `int()` fail. A duration, width or height tag whose content starts with one
  raises ValueError, and such a `count` or `views` reads as None
  (`PyText.ParseIntRejectsSeparator`).
- Each page request posts `{mode, user}` and, after the first page,
  `index = page + 1`. The entry's slug is built from the video's title, or
  from its id when the title is missing, and paging stops once
  `page * 20 >= count`.

## Model

| member | source | states |
|---|---|---|
| `MetaTags.Find` | yt_dlp_plugins/extractor/PMVHaven.py:60 | `soup.find`: the result is the first element the key selects, and None exactly when none does |
| `MetaTags.FindEither` | yt_dlp_plugins/extractor/PMVHaven.py:155-160 | the `if not tag: tag = soup.find(fallback)` chain: the fallback key is consulted exactly when the first key selects nothing; None exactly when neither key occurs |
| `MetaTags.PickedUnique` | yt_dlp_plugins/extractor/PMVHaven.py:135-137 | a two-key lookup chain settles on at most one element |
| `VideoFields.ExtractTitle` | yt_dlp_plugins/extractor/PMVHaven.py:59-66 | og:title wins, else twitter:title; None exactly when neither exists; KeyError when the chosen tag has no content |
| `VideoFields.ContentOf` | yt_dlp_plugins/extractor/PMVHaven.py:62 | `tag['content']`: the attribute's value when the element has one, KeyError("content") exactly when it has none |
| `VideoFields.IntContent` | yt_dlp_plugins/extractor/PMVHaven.py:114 | `int(tag['content'])`: KeyError("content") without the attribute, else exactly what `int()` gives on the text, so every error is that KeyError or a ValueError carrying the text |
| `VideoFields.ExtractTags` | yt_dlp_plugins/extractor/PMVHaven.py:76-83 | og:video:tag split on ", ", else keywords split on ", "; the empty list exactly when neither tag exists |
| `VideoFields.TagsJoinBack` | yt_dlp_plugins/extractor/PMVHaven.py:79 | the tags joined with ", " give back the content they came from, and no tag contains ", " |
| `VideoFields.ExtractDescription` | yt_dlp_plugins/extractor/PMVHaven.py:102-109 | name=description wins, else og:description; None exactly when neither exists |
| `VideoFields.ExtractCreator` | yt_dlp_plugins/extractor/PMVHaven.py:89-95 | None exactly when there is no name=description tag; IndexError exactly when its content is blank; KeyError when the tag has no content; otherwise exactly `Ok(Some(w))` for `w` the last word of the content's `split()`, a non-empty word without whitespace |
| `VideoFields.CreatorIsLastWordOfDescription` | yt_dlp_plugins/extractor/PMVHaven.py:89-105 | a creator is the last whitespace-separated word of the description that the description extractor returns for the same page |
| `VideoFields.ExtractDuration` | yt_dlp_plugins/extractor/PMVHaven.py:111-115 | `int()` of the first og:video:duration content; None exactly when the tag is absent; the int() or KeyError failure otherwise |
| `VideoFields.ExtractThumbnail` | yt_dlp_plugins/extractor/PMVHaven.py:125-132 | og:image wins, else twitter:image; None exactly when neither exists |
| `VideoFields.ExtractWidth` | yt_dlp_plugins/extractor/PMVHaven.py:171-177 | `int()` of og:video:width, else of twitter:player:width; None exactly when neither exists; the parse error otherwise |
| `VideoFields.ExtractHeight` | yt_dlp_plugins/extractor/PMVHaven.py:179-185 | `int()` of og:video:height, else of twitter:player:height; None exactly when neither exists |
| `VideoFormats.ExtractVideoMeta` | yt_dlp_plugins/extractor/PMVHaven.py:153-169 | width and height are both set or both absent; resolution is set exactly when they are and equals "{width}x{height}"; each dimension equals what its own og-then-twitter chain gives; nothing is set exactly when one chain finds no tag; the width's error wins over the height's |
| `VideoFormats.Resolution` | yt_dlp_plugins/extractor/PMVHaven.py:167 | `f"{width}x{height}"`: the width's numeral, an `x` right after it, then the height's numeral, ending in a digit |
| `VideoFormats.ResolutionRoundTrip` | yt_dlp_plugins/extractor/PMVHaven.py:167 | the resolution string splits at its first `x` into numerals that `int()` reads back as the width and the height |
| `VideoFormats.ExtractVideoUrl` | yt_dlp_plugins/extractor/PMVHaven.py:135-138 | og:video:secure_url wins, else twitter:player; None exactly when neither exists |
| `VideoFormats.ExtractFormats` | yt_dlp_plugins/extractor/PMVHaven.py:134-151 | at most one candidate; none exactly when the media URL is missing or empty; the candidate has that URL, ext mp4 and Referer = page URL; resolution "WxH" when both dimensions are present and non-zero, else "unknown"; errors are raised in the source's order |
| `VideoFormats.FormatResolutionAgrees` | yt_dlp_plugins/extractor/PMVHaven.py:139-141 | a known format resolution comes from present width and height and is the same string the video meta reports |
| `VideoFormats.KnownResolutionNotUnknown` | yt_dlp_plugins/extractor/PMVHaven.py:141 | a "WxH" resolution can never be mistaken for "unknown" |
| `VideoUrl.MatchVideoId` | yt_dlp_plugins/extractor/PMVHaven.py:18 | the id captured by `_VALID_URL` is a non-empty run of ASCII letters and digits |
| `VideoUrl.MatchVideoIdIff` | yt_dlp_plugins/extractor/PMVHaven.py:18 | the pattern gives the id `id` exactly when the URL is `http(s)://`, an optional `www.`, `pmvhaven.com/video/`, a non-empty slug without `_`, `_`, then `id` (letters and digits), followed by nothing or by a character that is neither letter nor digit |
| `VideoUrl.MatchVideoIdComplete` | yt_dlp_plugins/extractor/PMVHaven.py:18 | every URL of that shape matches, and the id is the part after the first `_` |
| `VideoUrl.MatchVideoIdParts` | yt_dlp_plugins/extractor/PMVHaven.py:18 | every URL that matches splits into that shape around the captured id |
| `VideoUrl.FirstUnderscoreWins` | yt_dlp_plugins/extractor/PMVHaven.py:18 | the slug ends at the first `_`: `.../video/my_title_abc` gives the id "title" |
| `VideoUrl.Permalink` | yt_dlp_plugins/extractor/PMVHaven.py:245 | the URL starts with `https://pmvhaven.com/video/`, ends with `_` and the id, and is exactly as long as its parts |
| `VideoUrl.PermalinkRoundTrip` | yt_dlp_plugins/extractor/PMVHaven.py:245 | a permalink built from a non-empty slug without `_` and an alphanumeric id matches the video URL pattern, and the captured id is that id |
| `Slug.Slugify` | yt_dlp_plugins/extractor/PMVHaven.py:220-230 | the slug is never empty |
| `Slug.SlugifyMakesSlug` | yt_dlp_plugins/extractor/PMVHaven.py:221-230 | the slug holds only ASCII letters, digits and `-`, never starts or ends with `-` and has no `--`; it is "video" when the title is None, empty or has no letter or digit, and otherwise keeps exactly the title's letters and digits in order |
| `Slug.SlugifyIsJoinedWords` | yt_dlp_plugins/extractor/PMVHaven.py:226-230 | for a title, the slug is the words of the cleaned title joined by single `-` (`'-'.join(cleaned.split())`), and "video" when the cleaned title has no word |
| `Slug.StripHyphensOfHyphenate` | yt_dlp_plugins/extractor/PMVHaven.py:229 | for a text without `-`, replacing whitespace runs by `-` and then `strip('-')` gives its words joined by `-` |
| `Slug.Clean` | yt_dlp_plugins/extractor/PMVHaven.py:228 | only ASCII letters, digits and spaces survive the first substitution |
| `Slug.CleanOfChar` | yt_dlp_plugins/extractor/PMVHaven.py:228 | one character is kept exactly when it is an ASCII letter, an ASCII digit or the space, and dropped otherwise |
| `Slug.CleanAppend` | yt_dlp_plugins/extractor/PMVHaven.py:228 | the substitution distributes over concatenation, so with `CleanOfChar` every character of the title is kept or dropped in place and the order is kept |
| `Slug.CleanKeepsKept` | yt_dlp_plugins/extractor/PMVHaven.py:222-228 | a title of letters, digits and spaces comes through unchanged, its spaces included, for the next step to turn into hyphens |
| `Slug.Hyphenate` | yt_dlp_plugins/extractor/PMVHaven.py:229 | the substitution never lengthens the text, and gives the empty text exactly for the empty text |
| `Slug.StripHyphens` | yt_dlp_plugins/extractor/PMVHaven.py:229 | `strip('-')` leaves no `-` at either end and never lengthens the text |
| `Slug.HyphenateKeepsAlnum` | yt_dlp_plugins/extractor/PMVHaven.py:229 | replacing whitespace runs by `-` neither adds nor drops a letter or digit |
| `Slug.SlugOfOneWord` | yt_dlp_plugins/extractor/PMVHaven.py:228-229 | hyphens come only from spaces: a title without a space slugs to its letters and digits |
| `ProfileApi.RequestIndex` | yt_dlp_plugins/extractor/PMVHaven.py:206-207 | page 0 sends no index, and every later page sends an index of at least 2 |
| `ProfileApi.BuildPayload` | yt_dlp_plugins/extractor/PMVHaven.py:200-207 | the payload has exactly `mode` and `user` for page 0, plus `index = page + 1` after it |
| `ProfileApi.RequestIndexInjective` | yt_dlp_plugins/extractor/PMVHaven.py:205-207 | distinct pages send distinct indices, and no page sends index 1 |
| `ProfileApi.TotalOf` | yt_dlp_plugins/extractor/PMVHaven.py:236 | a total exists only when the answer has `count`, and an integer `count` is the total as is |
| `ProfileApi.StopsPaging` | yt_dlp_plugins/extractor/PMVHaven.py:237 | the rule stops only when there is a total, and always stops when the total is 0 or less |
| `ProfileApi.StopRuleMonotone` | yt_dlp_plugins/extractor/PMVHaven.py:236-238 | without a usable count the rule never stops; once it stops, it stops for every later page |
| `ProfileApi.PagesServed` | yt_dlp_plugins/extractor/PMVHaven.py:236-238 | with a count of n, exactly the first ceil(n / 20) pages get through the rule |
| `ProfileApi.StringsOf` | yt_dlp_plugins/extractor/PMVHaven.py:256 | the thumbnail filter never adds elements |
| `ProfileApi.StringsOfMembers` | yt_dlp_plugins/extractor/PMVHaven.py:255-256 | the thumbnails are exactly the string elements of the list, and empty exactly when it has none |
| `ProfileApi.StringsOfAppend` | yt_dlp_plugins/extractor/PMVHaven.py:256 | the thumbnail filter keeps the list's order |
| `ProfileApi.EntryOf` | yt_dlp_plugins/extractor/PMVHaven.py:242-251 | the entry names the video extractor, its id is the `_id` string, and its title is the `title` string or else the id |
| `ProfileApi.EntryOfFields` | yt_dlp_plugins/extractor/PMVHaven.py:241-265 | the entry's id is the `_id` string; the title falls back to the id; the url is the permalink of the slugified title and the rendered id; the uploader falls back to `creator`; thumbnails are the string elements, or None when there are none; the view count is `int_or_none` of `views`; the timestamp is `isoDate` parsed, None without one |
| `ProfileApi.OrElse` | yt_dlp_plugins/extractor/PMVHaven.py:243 | Python's `a or b` on optional strings: `a` when it is a non-empty string, else `b`, so "" falls through; a "" result comes only from `b` |
| `ProfileApi.Render` | yt_dlp_plugins/extractor/PMVHaven.py:245 | `f'{vid}'`: the id itself, or "None" for a missing id |
| `ProfileApi.VideosOf` | yt_dlp_plugins/extractor/PMVHaven.py:240 | `traverse_obj(data, ('videos', {list})) or []`: the `videos` list when the response holds one, else [] |
| `ProfileApi.SlugPermalinkRoundTrip` | yt_dlp_plugins/extractor/PMVHaven.py:244-245 | for any title, the permalink built from its slug and an alphanumeric id matches the video URL pattern with that id |
| `ProfileApi.EntryUrlRoundTrip` | yt_dlp_plugins/extractor/PMVHaven.py:242-245 | for an alphanumeric `_id`, matching the entry's URL with the video pattern gives back the entry's id |
| `ProfileApi.EntryWithoutIdUrl` | yt_dlp_plugins/extractor/PMVHaven.py:242-245 | a video without a string `_id` still yields an entry; its URL carries the id "None" |
| `ProfileApi.EntriesPage` | yt_dlp_plugins/extractor/PMVHaven.py:232-266 | nothing once `page * 20 >= count`, even if videos came back; otherwise the entries of the `videos` list |
| `ProfileApi.EntriesOf` | yt_dlp_plugins/extractor/PMVHaven.py:240-241 | one entry per video object |
| `ProfileApi.EntriesOfPointwise` | yt_dlp_plugins/extractor/PMVHaven.py:241-266 | entry `k` is the one built from video object `k`, so order is kept and nothing is skipped |
| `Json.IntOrNone` | yt_dlp_plugins/extractor/PMVHaven.py:236 | `int_or_none`: an integer as is, a bool as 1 or 0, a string as what `int()` reads from it, and None for the empty string, a string `int()` rejects, a missing value or any other JSON value |
| `Json.StrAt` | yt_dlp_plugins/extractor/PMVHaven.py:242 | `traverse_obj(v, (key, {str}))`: present exactly when `v` is an object whose `key` holds a string, and then that string |
| `Json.ListAt` | yt_dlp_plugins/extractor/PMVHaven.py:255 | `traverse_obj(v, (key, {list})) or []`: the list `key` holds when it holds one, and a non-empty result is always that list; anything else gives [] |
| `Json.IntOrStrAt` | yt_dlp_plugins/extractor/PMVHaven.py:257 | `traverse_obj(v, (key, {int, str}))`: the value when it is an int, a string or a bool (a bool is an int to Python), and None exactly when it is missing or of another type |
| `Json.IntOrNoneOfNumeral` | yt_dlp_plugins/extractor/PMVHaven.py:257 | a number sent as its decimal string reads as that number |
| `PyText.ParseInt` | yt_dlp_plugins/extractor/PMVHaven.py:114 | `int()` on text: once the whitespace `int()` skips is stripped, a success exactly for a decimal numeral, or a `+`/`-` followed by one; the value is the numeral's, negated after `-`; every failure is ValueError carrying the text |
| `PyText.ParseIntOfPadded` | yt_dlp_plugins/extractor/PMVHaven.py:114 | a numeral with tabs, line breaks, spaces or other `int()` whitespace around it reads as its value |
| `PyText.ParseIntRejectsSeparator` | yt_dlp_plugins/extractor/PMVHaven.py:114 | a numeral after one of U+001C..U+001F makes `int()` raise ValueError |
| `PyText.LStripDropsSeparator` | yt_dlp_plugins/extractor/PMVHaven.py:93 | `str.split()`/`strip()` do treat U+001C..U+001F as whitespace, so the two notions differ |
| `PyText.ParseIntOfIntToString` | yt_dlp_plugins/extractor/PMVHaven.py:163-167 | `int(str(n)) == n` for every integer |
| `PyText.IntToString` | yt_dlp_plugins/extractor/PMVHaven.py:141 | `str(n)`: a non-empty numeral of digits with at most a leading `-`, and canonical: no leading zero after the sign unless it is "0" itself |
| `PyText.SplitOn` | yt_dlp_plugins/extractor/PMVHaven.py:79 | `s.split(sep)` gives at least one piece, and the first piece is a prefix of `s` |
| `PyText.SplitOnAtFirst` | yt_dlp_plugins/extractor/PMVHaven.py:79 | the first cut is at the leftmost occurrence of the separator: a first piece in which no occurrence starts is that piece, followed by the split of what comes after the separator |
| `PyText.SplitOnNoSeparator` | yt_dlp_plugins/extractor/PMVHaven.py:79 | a text without the separator splits into itself alone; with `SplitOnAtFirst` this fixes every piece, also for a separator that overlaps itself |
| `PyText.JoinSplitOn` | yt_dlp_plugins/extractor/PMVHaven.py:79 | `sep.join(s.split(sep)) == s` |
| `PyText.SplitOnPiecesLackSeparator` | yt_dlp_plugins/extractor/PMVHaven.py:82 | no piece of `s.split(sep)` contains `sep` |
| `PyText.Tokens` | yt_dlp_plugins/extractor/PMVHaven.py:93 | `s.split()` has no more words than `s` has characters |
| `PyText.TokensAtFirst` | yt_dlp_plugins/extractor/PMVHaven.py:93 | leading whitespace, then a word that runs up to whitespace or the end, gives that word followed by the words of the rest; with `TokensEmpty` this fixes every word and every word boundary |
| `PyText.TokensEmpty` | yt_dlp_plugins/extractor/PMVHaven.py:93 | `s.split()` is empty exactly when `s` is blank |
| `PyText.TokensAreWords` | yt_dlp_plugins/extractor/PMVHaven.py:93 | every word of `s.split()` is non-empty and holds no whitespace |
| `PyText.TokensKeepText` | yt_dlp_plugins/extractor/PMVHaven.py:93 | the words of `s.split()` hold every non-whitespace character of `s`, in order |
| `PyText.TokensLastWordAt` | yt_dlp_plugins/extractor/PMVHaven.py:93 | for a text with a word, gives the text `p` before the last word of `s.split()` and the text `q` after it: `q` is all whitespace, and `p` is empty or ends in whitespace, so the last word is a whole word |
| `PyText.TokensLastWord` | yt_dlp_plugins/extractor/PMVHaven.py:93 | `split()[-1]` of a non-blank text is its last whole word: only whitespace follows it, and whitespace or the start of the text precedes it |

## Left out

- Network I/O. This covers `_download_webpage`, `_download_json`, the request
  headers and the JSON encoding of the payload. `ProfileApi.EntriesPage` takes
  the API's decoded answer as a parameter.
- HTML parsing by BeautifulSoup, a foreign library. A page is its sequence of
  `<meta>` elements, each with the `property`, `name` and `content`
  attributes.
- `_real_extract` of both extractors, `OnDemandPagedList`, `url_result`'s
  `_type` key and `playlist_result`. These are the host framework's record
  assembly and lazy paging.
- `PMVHavenUserIE._VALID_URL` (the profile-URL pattern) is not modelled. Only
  the video-URL pattern is.
- `parse_iso8601` is a library call. `ProfileApi.EntryOf` receives it as a
  function parameter.
- The stub extractors that return a constant (uploader, categories, music,
  stars, view count, upload date) are not modelled, and neither are the
  unused imports.
- JSON numbers with a fraction part are not modelled. A float `count`, which
  `int_or_none` would truncate, is not modelled either.
- An API answer that is not a JSON object is not modelled. On such an answer
  `data.get` raises.
- PyText.ParseInt: it accepts surrounding whitespace, a sign and ASCII digits.
  Python's `int()` also accepts `_` between digits and non-ASCII decimal
  digits. On those inputs the model raises ValueError where Python returns a
  number. CPython's limit of 4300 digits for `int()` on text is not
  modelled either: Python raises ValueError on a longer numeral, while the
  model returns its value.
- PyText.IntToString: CPython's 4300-digit limit also applies to `str()` of
  an integer. The model writes out every integer, while Python raises
  ValueError on one with more digits.
- Regular expressions are modelled only for the three patterns the code uses.
  `re.sub`/`re.match` are modelled by their effect on these patterns, not as a
  general engine.
