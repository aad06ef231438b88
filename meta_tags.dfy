/** The parsed video page as the extractor sees it: its `<meta>` elements
    in document order, and `soup.find('meta', attrs={...})` over them. */
module MetaTags {
  import opened Wrappers

  /** The attribute a lookup keys on: `attrs={'property': v}` or `attrs={'name': v}`. */
  datatype Attr = Property | Name

  datatype Key = Key(attr: Attr, value: string)

  /** A `<meta>` element, with the three attributes the extractor reads. */
  datatype MetaTag = MetaTag(property: Option<string>, name: Option<string>, content: Option<string>)

  /** The page, reduced to its `<meta>` elements in document order. */
  type Page = seq<MetaTag>

  predicate Matches(t: MetaTag, k: Key) {
    match k.attr
    case Property => t.property == Some(k.value)
    case Name => t.name == Some(k.value)
  }

  /** Element `i` is the first one in the page that `k` selects. */
  predicate FirstWith(page: Page, k: Key, i: int) {
    0 <= i < |page| && Matches(page[i], k) && forall j :: 0 <= j < i ==> !Matches(page[j], k)
  }

  predicate Absent(page: Page, k: Key) {
    forall j :: 0 <= j < |page| ==> !Matches(page[j], k)
  }

  /** `soup.find('meta', attrs=...)`: the position of the first matching
      element, None when there is none. */
  function Find(page: Page, k: Key): (r: Option<nat>)
    ensures r.Some? ==> FirstWith(page, k, r.value)
    ensures r.None? <==> Absent(page, k)
  {
    if page == [] then None
    else if Matches(page[0], k) then Some(0)
    else match Find(page[1..], k)
      case None => None
      case Some(i) => Some(i + 1)
  }

  /** Element `i` is what `t = soup.find(first)` followed by
      `if not t: t = soup.find(second)` ends up with. A found element is
      always truthy in BeautifulSoup, so the second lookup happens exactly
      when nothing matches `first`. */
  predicate Picked(page: Page, first: Key, second: Key, i: int) {
    FirstWith(page, first, i) || (Absent(page, first) && FirstWith(page, second, i))
  }

  function FindEither(page: Page, first: Key, second: Key): (r: Option<nat>)
    ensures r.Some? ==> Picked(page, first, second, r.value)
    ensures r.None? <==> Absent(page, first) && Absent(page, second)
  {
    match Find(page, first)
    case Some(i) => Some(i)
    case None => Find(page, second)
  }

  /** A lookup chain settles on one element at most. */
  lemma PickedUnique(page: Page, first: Key, second: Key, i: int, j: int)
    requires Picked(page, first, second, i) && Picked(page, first, second, j)
    ensures i == j
  {
    if FirstWith(page, first, i) {
      assert !Absent(page, first);
    } else {
      assert !FirstWith(page, first, j);
    }
  }
}
