/** `PMVHavenUserIE`: the request payload of `_call_api`, the stop rule of
    `_entries_page` and the entries it yields for one page of the
    profile API's answer. */
module ProfileApi {
  import opened Wrappers
  import opened PyText
  import opened Json
  import Slug
  import VideoUrl

  /** `_PAGE_SIZE`: the API answers 20 videos per page. */
  const PageSize := 20

  const ProfileMode := "getProfileVideos"

  /** `PMVHavenVideoIE.ie_key()`, the extractor each entry is handed to. */
  const VideoIeKey := "PMVHavenVideo"

  // ------------------------------------------------------------ _call_api

  /** The `index` the request for 0-based `page` carries: none for the first
      page, `page + 1` after it. */
  function RequestIndex(page: nat): (r: Option<nat>)
    ensures r.None? <==> page == 0
    ensures r.Some? ==> r.value >= 2
  {
    if page > 0 then Some(page + 1) else None
  }

  /** The JSON body `_call_api` posts, built as the source builds it: the
      two fixed keys, then `index` only after the first page. */
  method BuildPayload(user: string, page: nat) returns (payload: map<string, Json>)
    ensures payload.Keys == {"mode", "user"} + (if page > 0 then {"index"} else {})
    ensures payload["mode"] == JStr(ProfileMode) && payload["user"] == JStr(user)
    ensures "index" in payload <==> RequestIndex(page).Some?
    ensures "index" in payload ==> payload["index"] == JInt(RequestIndex(page).value)
  {
    payload := map["mode" := JStr(ProfileMode), "user" := JStr(user)];
    if page > 0 {
      payload := payload["index" := JInt(page + 1)];
    }
  }

  /** Different pages send different requests: the index is injective and
      is never 1, so the API's first page is asked for only by page 0,
      which sends no index. */
  lemma RequestIndexInjective(p: nat, q: nat)
    requires p != q
    ensures RequestIndex(p) != RequestIndex(q)
    ensures RequestIndex(p) != Some(1)
  {
  }

  // ------------------------------------------------------------- stop rule

  /** `int_or_none(data.get('count'))` */
  function TotalOf(data: map<string, Json>): (r: Option<int>)
    ensures r.Some? ==> "count" in data
    ensures "count" in data && data["count"].JInt? ==> r == Some(data["count"].i)
  {
    IntOrNone(if "count" in data then Some(data["count"]) else None)
  }

  /** `total is not None and page * _PAGE_SIZE >= total` */
  predicate StopsPaging(page: nat, total: Option<int>)
    ensures StopsPaging(page, total) ==> total.Some?
    ensures total.Some? && total.value <= 0 ==> StopsPaging(page, total)
  {
    total.Some? && page * PageSize >= total.value
  }

  /** Without a usable count the rule never stops; with one, once it stops
      it stays stopped for every later page. */
  lemma StopRuleMonotone(p: nat, q: nat, total: Option<int>)
    requires p <= q
    ensures total.None? ==> !StopsPaging(q, total)
    ensures StopsPaging(p, total) ==> StopsPaging(q, total)
  {
  }

  /** With a count of `n` videos, exactly the first ceil(n / 20) pages are
      let through. */
  lemma PagesServed(page: nat, n: nat)
    ensures !StopsPaging(page, Some(n)) <==> page < (n + PageSize - 1) / PageSize
  {
    var c := (n + PageSize - 1) / PageSize;
    assert c * PageSize <= n + PageSize - 1 < c * PageSize + PageSize;
    if page < c {
      assert page * PageSize <= (c - 1) * PageSize;
    } else {
      assert page * PageSize >= c * PageSize;
    }
  }

  // --------------------------------------------------------------- entries

  /** The record `_entries_page` yields for one video: what `url_result`
      sets, then the four fields `.update()` adds. A thumbnail `{'url': t}`
      is kept as `t`. */
  datatype Entry = Entry(
    url: string,
    ieKey: string,
    id: Option<string>,
    title: Option<string>,
    thumbnails: Option<seq<string>>,
    timestamp: Option<int>,
    uploader: Option<string>,
    viewCount: Option<int>)

  /** Python's `a or b` on two optional strings: `a` when it is truthy,
      that is present and not "", else `b`. */
  function OrElse(a: Option<string>, b: Option<string>): (r: Option<string>)
    ensures a.Some? && a.value != [] ==> r == a
    ensures a.None? || a.value == [] ==> r == b
    ensures r == Some("") ==> b == Some("")
  {
    if a.Some? && a.value != [] then a else b
  }

  /** `[t for t in items if isinstance(t, str)]`, kept as the strings. */
  function StringsOf(items: seq<Json>): (r: seq<string>)
    ensures |r| <= |items|
  {
    if items == [] then []
    else (if items[0].JStr? then [items[0].s] else []) + StringsOf(items[1..])
  }

  /** The filter keeps exactly the string elements: a string is kept iff it
      is in the list, and nothing is kept iff the list holds no string. */
  lemma {:induction false} StringsOfMembers(items: seq<Json>)
    ensures forall s :: s in StringsOf(items) <==> JStr(s) in items
    ensures StringsOf(items) == [] <==> forall x :: x in items ==> !x.JStr?
    decreases |items|
  {
    if items != [] {
      StringsOfMembers(items[1..]);
      assert items == [items[0]] + items[1..];
    }
  }

  /** Filtering keeps order: it distributes over concatenation. */
  lemma {:induction false} StringsOfAppend(a: seq<Json>, b: seq<Json>)
    ensures StringsOf(a + b) == StringsOf(a) + StringsOf(b)
    decreases |a|
  {
    if a == [] {
      assert a + b == b;
    } else {
      assert (a + b)[0] == a[0];
      assert (a + b)[1..] == a[1..] + b;
      StringsOfAppend(a[1..], b);
    }
  }

  /** `f'{vid}'`: a missing id prints as "None". */
  function Render(vid: Option<string>): (r: string)
    ensures vid.Some? ==> r == vid.value
    ensures vid.None? ==> r == "None"
  {
    if vid.Some? then vid.value else "None"
  }

  /** One pass of the loop in `_entries_page` over the video object `v`;
      `parseIso8601` stands for the library's `parse_iso8601`. */
  function EntryOf(v: Json, parseIso8601: string -> Option<int>): (e: Entry)
    ensures e.ieKey == VideoIeKey && e.id == StrAt(v, "_id")
    ensures e.title == OrElse(StrAt(v, "title"), e.id)
  {
    var vid := StrAt(v, "_id");
    var title := OrElse(StrAt(v, "title"), vid);
    var slug := Slug.Slugify(title);
    var webpageUrl := VideoUrl.Permalink(slug, Render(vid));
    var result := Entry(webpageUrl, VideoIeKey, vid, title, None, None, None, None);
    var iso := StrAt(v, "isoDate");
    var thumbs := StringsOf(ListAt(v, "thumbnails"));
    var views := IntOrNone(IntOrStrAt(v, "views"));
    var uploader := OrElse(StrAt(v, "uploader"), StrAt(v, "creator"));
    result.(
      thumbnails := if thumbs == [] then None else Some(thumbs),
      timestamp := if iso.Some? then parseIso8601(iso.value) else None,
      uploader := uploader,
      viewCount := views)
  }

  /** What each field of an entry is: the id is the `_id` string, the title
      falls back to the id, the uploader to `creator`, the thumbnails are
      the string elements (None when there are none), the view count is
      `int_or_none` of `views`, and the timestamp is `isoDate` parsed. */
  lemma EntryOfFields(v: Json, parseIso8601: string -> Option<int>)
    ensures var e := EntryOf(v, parseIso8601);
      e.ieKey == VideoIeKey && e.id == StrAt(v, "_id")
      && e.title == OrElse(StrAt(v, "title"), e.id)
      && e.url == VideoUrl.Permalink(Slug.Slugify(e.title), Render(e.id))
      && e.uploader == OrElse(StrAt(v, "uploader"), StrAt(v, "creator"))
      && (e.thumbnails.None? <==> forall x :: x in ListAt(v, "thumbnails") ==> !x.JStr?)
      && (e.thumbnails.Some? ==> e.thumbnails.value == StringsOf(ListAt(v, "thumbnails")))
      && e.viewCount == IntOrNone(IntOrStrAt(v, "views"))
      && e.timestamp == (if StrAt(v, "isoDate").Some? then parseIso8601(StrAt(v, "isoDate").value) else None)
  {
    StringsOfMembers(ListAt(v, "thumbnails"));
  }

  /** Whatever the title, the slug `_slugify` makes of it fits the video
      URL pattern, so the permalink gives the id back. */
  lemma SlugPermalinkRoundTrip(title: Option<string>, vid: string)
    requires vid != [] && AllAlnum(vid)
    ensures VideoUrl.MatchVideoId(VideoUrl.Permalink(Slug.Slugify(title), vid)) == Some(vid)
  {
    var slug := Slug.Slugify(title);
    Slug.SlugifyMakesSlug(title);
    assert forall i :: 0 <= i < |slug| ==> slug[i] != '_' by {
      assert Slug.SlugChars(slug);
    }
    VideoUrl.PermalinkRoundTrip(slug, vid);
  }

  /** An entry for a video whose `_id` is letters and digits points at a
      video URL from which the video extractor recovers that same id. */
  lemma EntryUrlRoundTrip(v: Json, parseIso8601: string -> Option<int>)
    requires StrAt(v, "_id").Some?
    requires StrAt(v, "_id").value != [] && AllAlnum(StrAt(v, "_id").value)
    ensures VideoUrl.MatchVideoId(EntryOf(v, parseIso8601).url) == EntryOf(v, parseIso8601).id
  {
    var vid := StrAt(v, "_id");
    var title := OrElse(StrAt(v, "title"), vid);
    assert EntryOf(v, parseIso8601).url == VideoUrl.Permalink(Slug.Slugify(title), vid.value);
    SlugPermalinkRoundTrip(title, vid.value);
  }

  /** A video object without a string `_id` is not skipped: its entry has
      no id, while its URL ends in `_None`, which the video extractor reads
      as the id "None". */
  lemma EntryWithoutIdUrl(v: Json, parseIso8601: string -> Option<int>)
    requires StrAt(v, "_id").None?
    ensures EntryOf(v, parseIso8601).id.None?
    ensures VideoUrl.MatchVideoId(EntryOf(v, parseIso8601).url) == Some("None")
  {
    var title := StrAt(v, "title");
    assert EntryOf(v, parseIso8601).url == VideoUrl.Permalink(Slug.Slugify(title), "None");
    SlugPermalinkRoundTrip(title, "None");
  }

  /** `traverse_obj(data, ('videos', {list})) or []` */
  function VideosOf(data: map<string, Json>): (r: seq<Json>)
    ensures "videos" in data && data["videos"].JList? ==> r == data["videos"].items
    ensures !("videos" in data && data["videos"].JList?) ==> r == []
  {
    ListAt(JObject(data), "videos")
  }

  /** The entries for a list of video objects, one per object, in order. */
  function EntriesOf(videos: seq<Json>, parseIso8601: string -> Option<int>): (r: seq<Entry>)
    ensures |r| == |videos|
  {
    if videos == [] then []
    else EntriesOf(videos[..|videos| - 1], parseIso8601) + [EntryOf(videos[|videos| - 1], parseIso8601)]
  }

  /** Entry `k` is built from video object `k` and from nothing else. */
  lemma {:induction false} EntriesOfPointwise(videos: seq<Json>, parseIso8601: string -> Option<int>)
    ensures forall k :: 0 <= k < |videos| ==>
      EntriesOf(videos, parseIso8601)[k] == EntryOf(videos[k], parseIso8601)
    decreases |videos|
  {
    if videos != [] {
      var init := videos[..|videos| - 1];
      EntriesOfPointwise(init, parseIso8601);
      forall k | 0 <= k < |videos| - 1
        ensures EntriesOf(videos, parseIso8601)[k] == EntryOf(videos[k], parseIso8601)
      {
        assert videos[k] == init[k];
      }
    }
  }

  /** One more video object adds its entry at the end. */
  lemma EntriesOfPrefix(videos: seq<Json>, i: nat, parseIso8601: string -> Option<int>)
    requires i < |videos|
    ensures EntriesOf(videos[..i + 1], parseIso8601)
      == EntriesOf(videos[..i], parseIso8601) + [EntryOf(videos[i], parseIso8601)]
  {
    assert videos[..i + 1][..i] == videos[..i];
  }

  /** `_entries_page` for one page, given the API's answer `data` to the
      request `BuildPayload` describes: nothing once the count is covered,
      otherwise one entry per video object, in order. */
  method EntriesPage(page: nat, data: map<string, Json>, parseIso8601: string -> Option<int>)
    returns (entries: seq<Entry>)
    ensures StopsPaging(page, TotalOf(data)) ==> entries == []
    ensures !StopsPaging(page, TotalOf(data)) ==> entries == EntriesOf(VideosOf(data), parseIso8601)
  {
    var total := TotalOf(data);
    if total.Some? && page * PageSize >= total.value {
      return [];
    }
    var videos := VideosOf(data);
    entries := [];
    var i := 0;
    while i < |videos|
      invariant 0 <= i <= |videos|
      invariant entries == EntriesOf(videos[..i], parseIso8601)
    {
      EntriesOfPrefix(videos, i, parseIso8601);
      entries := entries + [EntryOf(videos[i], parseIso8601)];
      i := i + 1;
    }
    assert videos[..i] == videos;
  }
}
