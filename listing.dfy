/**
 * `parse_listing` of src/fetch.py: turns what the selectors found on one
 * listing page into the record that is written as a CSV row.
 *
 * The id and date searches and the paragraph collection are loops in the
 * script and are methods here, each proved against a function that the
 * record's specification uses.
 */
module Listing {
  import opened Options
  import opened Text
  import opened Markup
  import opened Prices
  import opened Rows

  /** The description container: its `<p>` tags and its own inner markup. */
  datatype DescContainer = DescContainer(paragraphs: seq<Element>, contents: string)

  /** The badge span `span[class="flex gap-8 border rounded-full py-8 px-16"]`
      and the first `<b>` inside it. */
  datatype Badge = Badge(bold: Option<Element>)

  /** What the selectors of `parse_listing` find on a page. */
  datatype Page = Page(
    html: string,                   // the raw markup, for the price regex
    title: Option<Element>,         // h1[data-testid="object-title"] or h1[class="break-words mb-24"]
    priceText: Option<string>,      // text of p.h2, or of the first text node the price pattern finds
    badge: Option<Badge>,
    desc: Option<DescContainer>,    // div.whitespace-pre-wrap or section[data-testid="description"]
    location: Option<Element>,      // span[data-testid="object-address"]
    info: Option<seq<string>>       // `get_text(strip=True)` of each <p> of section[data-testid="object-info"]
  )

  /** A listing record; `None` fields are Python's `None`. */
  datatype Record = Record(
    postId: string,
    url: string,
    title: Option<string>,
    price: Option<int>,
    desc: string,
    location: Option<string>,
    date: string,
    condition: Option<string>
  )

  const NotSpecified := "Not specified"
  const DefaultDesc := "Ingen desc (auto)"
  const Unknown := "unknown"
  const EditedMarker := "redigeret"
  const EditedLabel := "Sidst redigeret"
  const ItemPath := "/item/"

  /** The CSV header, in `DictWriter`'s field order. */
  const Header := ["post_id", "url", "title", "price_dkk", "desc", "location", "date", "condition_text"]

  // ---------------------------------------------------------------------------
  // Condition

  /** `condition_text`: the `.string` of the badge's `<b>`, or "Not specified". */
  function ConditionOf(badge: Option<Badge>): Option<string> {
    if badge.Some? then
      if badge.value.bold.Some? then badge.value.bold.value.str else Some(NotSpecified)
    else Some(NotSpecified)
  }

  // ---------------------------------------------------------------------------
  // Description

  /** `p.string or p.decode_contents()` */
  function TextOf(p: Element): string {
    if p.str.Some? && p.str.value != "" then p.str.value else p.contents
  }

  /** What one `<p>` adds to `paragraphs`: its stripped text, unless that is empty. */
  function Kept(p: Element): (r: seq<string>)
    ensures |r| <= 1
    ensures forall k :: 0 <= k < |r| ==> r[k] != "" && IsStripped(r[k])
  {
    var text := TextOf(p);
    if text != "" then
      var stripped := Strip(text);
      if stripped != "" then [stripped] else []
    else []
  }

  /** A paragraph is dropped exactly when its text is all whitespace (or
      empty); otherwise it contributes its stripped text. */
  lemma KeptRule(p: Element)
    ensures Kept(p) == [] <==> AllSpace(TextOf(p))
    ensures Kept(p) != [] ==> Kept(p) == [Strip(TextOf(p))]
  {
    StripEmpty(TextOf(p));
  }

  /** The list `paragraphs` built from the `<p>` tags, in order. */
  function CleanParagraphs(ps: seq<Element>): (r: seq<string>)
    ensures |r| <= |ps|
    ensures forall k :: 0 <= k < |r| ==> r[k] != "" && IsStripped(r[k])
  {
    if ps == [] then [] else CleanParagraphs(ps[..|ps| - 1]) + Kept(ps[|ps| - 1])
  }

  /** The paragraph loop of `parse_listing`. */
  method CollectParagraphs(ps: seq<Element>) returns (paragraphs: seq<string>)
    ensures paragraphs == CleanParagraphs(ps)
  {
    paragraphs := [];
    var i := 0;
    while i < |ps|
      invariant 0 <= i <= |ps|
      invariant paragraphs == CleanParagraphs(ps[..i])
    {
      var p := ps[i];
      var text := TextOf(p);
      if text != "" {
        text := Strip(text);
        if text != "" {
          paragraphs := paragraphs + [text];
        }
      }
      CleanParagraphsStep(ps, i);
      i := i + 1;
    }
    assert ps[..i] == ps;
  }

  lemma {:induction false} CleanParagraphsStep(ps: seq<Element>, i: nat)
    requires i < |ps|
    ensures CleanParagraphs(ps[..i + 1]) == CleanParagraphs(ps[..i]) + Kept(ps[i])
  {
    assert ps[..i + 1][..i] == ps[..i];
  }

  /** The collected paragraphs of consecutive runs of `<p>` tags are the
      concatenation of each run's paragraphs: tags are kept or dropped one by
      one and their order is kept. */
  lemma {:induction false} CleanParagraphsAppend(a: seq<Element>, b: seq<Element>)
    ensures CleanParagraphs(a + b) == CleanParagraphs(a) + CleanParagraphs(b)
    decreases |b|
  {
    if b != [] {
      var b' := b[..|b| - 1];
      assert (a + b)[..|a + b| - 1] == a + b';
      CleanParagraphsAppend(a, b');
    } else {
      assert a + b == a;
    }
  }

  /** `desc` */
  function DescriptionOf(desc: Option<DescContainer>): string {
    match desc
    case None => DefaultDesc
    case Some(c) =>
      if c.paragraphs != [] then Join(CleanParagraphs(c.paragraphs), "\n") else Strip(c.contents)
  }

  /** The description rule: the placeholder without a container; with `<p>`
      tags, their kept texts joined by newlines (empty when none is kept);
      without them, the container's stripped markup. In every case the
      description has no whitespace at either end. */
  lemma DescriptionRule(desc: Option<DescContainer>)
    ensures desc.None? ==> DescriptionOf(desc) == DefaultDesc
    ensures desc.Some? && desc.value.paragraphs != [] ==>
      DescriptionOf(desc) == Join(CleanParagraphs(desc.value.paragraphs), "\n")
    ensures desc.Some? && desc.value.paragraphs != [] && CleanParagraphs(desc.value.paragraphs) == [] ==>
      DescriptionOf(desc) == ""
    ensures desc.Some? && desc.value.paragraphs == [] ==> DescriptionOf(desc) == Strip(desc.value.contents)
    ensures IsStripped(DescriptionOf(desc))
  {
    if desc.Some? && desc.value.paragraphs != [] {
      var parts := CleanParagraphs(desc.value.paragraphs);
      if parts != [] {
        JoinEnds(parts, "\n");
      }
    }
  }

  // ---------------------------------------------------------------------------
  // Id and date from the object-info paragraphs

  /** The first paragraph text made only of digits (`text.isdigit()`). */
  function FirstDigitText(texts: seq<string>): (r: Option<string>)
    ensures r.None? <==> forall k :: 0 <= k < |texts| ==> !IsDigitString(texts[k])
    ensures r.Some? ==> exists k :: (0 <= k < |texts| && texts[k] == r.value && IsDigitString(texts[k])
      && forall m :: 0 <= m < k ==> !IsDigitString(texts[m]))
  {
    if texts == [] then None
    else if IsDigitString(texts[0]) then Some(texts[0])
    else
      var r := FirstDigitText(texts[1..]);
      assert r.Some? ==> exists k :: (0 <= k < |texts| && texts[k] == r.value && IsDigitString(texts[k])
        && forall m :: 0 <= m < k ==> !IsDigitString(texts[m])) by {
        if r.Some? {
          var k :| (0 <= k < |texts[1..]| && texts[1..][k] == r.value && IsDigitString(texts[1..][k])
            && forall m :: 0 <= m < k ==> !IsDigitString(texts[1..][m]));
          assert forall m :: 0 <= m < k + 1 ==> !IsDigitString(texts[m]) by {
            forall m | 0 < m < k + 1 ensures !IsDigitString(texts[m]) {
              assert texts[m] == texts[1..][m - 1];
            }
          }
        }
      }
      r
  }

  /** The id loop: the first all-digit paragraph, or `None`. */
  method FindAnnonceId(texts: seq<string>) returns (annonceId: Option<string>)
    ensures annonceId == FirstDigitText(texts)
  {
    annonceId := None;
    var i := 0;
    while i < |texts|
      invariant 0 <= i <= |texts|
      invariant FirstDigitText(texts) == FirstDigitText(texts[i..])
    {
      var text := texts[i];
      if IsDigitString(text) {
        annonceId := Some(text);
        break;
      }
      assert texts[i..][1..] == texts[i + 1..];
      i := i + 1;
    }
  }

  /** The first paragraph text containing "redigeret". */
  function FirstEdited(texts: seq<string>): (r: Option<string>)
    ensures r.None? <==> forall k :: 0 <= k < |texts| ==> !Contains(texts[k], EditedMarker)
    ensures r.Some? ==> exists k :: (0 <= k < |texts| && texts[k] == r.value && Contains(texts[k], EditedMarker)
      && forall m :: 0 <= m < k ==> !Contains(texts[m], EditedMarker))
  {
    if texts == [] then None
    else if Contains(texts[0], EditedMarker) then Some(texts[0])
    else
      var r := FirstEdited(texts[1..]);
      assert r.Some? ==> exists k :: (0 <= k < |texts| && texts[k] == r.value && Contains(texts[k], EditedMarker)
        && forall m :: 0 <= m < k ==> !Contains(texts[m], EditedMarker)) by {
        if r.Some? {
          var k :| (0 <= k < |texts[1..]| && texts[1..][k] == r.value && Contains(texts[1..][k], EditedMarker)
            && forall m :: 0 <= m < k ==> !Contains(texts[1..][m], EditedMarker));
          assert forall m :: 0 <= m < k + 1 ==> !Contains(texts[m], EditedMarker) by {
            forall m | 0 < m < k + 1 ensures !Contains(texts[m], EditedMarker) {
              assert texts[m] == texts[1..][m - 1];
            }
          }
        }
      }
      r
  }

  /** `text.replace("Sidst redigeret", "").strip()` */
  function DateText(text: string): string {
    Strip(RemoveAll(text, EditedLabel))
  }

  /** The date found among the object-info paragraphs. */
  function DateFrom(texts: seq<string>): string {
    match FirstEdited(texts)
    case None => ""
    case Some(text) => DateText(text)
  }

  /** The date loop. */
  method FindDate(texts: seq<string>) returns (date: string)
    ensures date == DateFrom(texts)
  {
    date := "";
    var i := 0;
    while i < |texts|
      invariant 0 <= i <= |texts|
      invariant FirstEdited(texts) == FirstEdited(texts[i..])
    {
      var text := texts[i];
      if Contains(text, EditedMarker) {
        date := DateText(text);
        break;
      }
      assert texts[i..][1..] == texts[i + 1..];
      i := i + 1;
    }
  }

  /** `/item/` followed by a digit starts at `i`. */
  predicate ItemAt(url: string, i: int) {
    OccursAt(url, ItemPath, i) && i + |ItemPath| < |url| && IsDigit(url[i + |ItemPath|])
  }

  /** The start of the leftmost match of `/item/(\d+)` from `i` on. */
  function ItemSearch(url: string, i: nat): (r: Option<nat>)
    requires i <= |url|
    ensures r.None? ==> forall k :: i <= k ==> !ItemAt(url, k)
    ensures r.Some? ==> i <= r.value && ItemAt(url, r.value) && forall k :: i <= k < r.value ==> !ItemAt(url, k)
    decreases |url| - i
  {
    if i == |url| then None
    else if ItemAt(url, i) then Some(i)
    else ItemSearch(url, i + 1)
  }

  /** `re.search(r'/item/(\d+)', url).group(1)`: the whole run of digits after
      the leftmost `/item/` that a digit follows. */
  function ItemIdInUrl(url: string): (r: Option<string>)
    ensures r.None? <==> forall k :: !ItemAt(url, k)
    ensures r.Some? ==> var i := ItemSearch(url, 0).value + |ItemPath|;
      && IsDigitString(r.value)
      && i + |r.value| <= |url| && url[i..i + |r.value|] == r.value
      && (i + |r.value| == |url| || !IsDigit(url[i + |r.value|]))
  {
    match ItemSearch(url, 0)
    case None => None
    case Some(p) =>
      var i := p + |ItemPath|;
      var n := DigitRun(url, i);
      assert AllDigits(url[i..i + n]);
      Some(url[i..i + n])
  }

  /** `annonce_id` after the URL fallback. */
  function PostIdOf(info: Option<seq<string>>, url: string): string {
    var fromInfo := if info.Some? then FirstDigitText(info.value) else None;
    if fromInfo.Some? && fromInfo.value != "" then fromInfo.value
    else match ItemIdInUrl(url)
      case Some(id) => id
      case None => Unknown
  }

  /** `date` */
  function DateOf(info: Option<seq<string>>): string {
    if info.Some? then DateFrom(info.value) else ""
  }

  /** The post-id rule: an all-digit object-info paragraph wins, and then the
      URL is not consulted; otherwise the URL's `/item/<digits>`; otherwise
      "unknown". The id is a digit string or "unknown", and it is "unknown"
      exactly when neither source has one. */
  lemma PostIdRule(info: Option<seq<string>>, url: string)
    ensures IsDigitString(PostIdOf(info, url)) || PostIdOf(info, url) == Unknown
    ensures info.Some? && FirstDigitText(info.value).Some? ==>
      && PostIdOf(info, url) == FirstDigitText(info.value).value
      && forall url' :: PostIdOf(info, url') == PostIdOf(info, url)
    ensures (info.None? || FirstDigitText(info.value).None?) && ItemIdInUrl(url).Some? ==>
      PostIdOf(info, url) == ItemIdInUrl(url).value
    ensures PostIdOf(info, url) == Unknown <==>
      (info.None? || forall k :: 0 <= k < |info.value| ==> !IsDigitString(info.value[k]))
      && forall k :: !ItemAt(url, k)
  {
    assert Unknown[0] == 'u';
    if info.Some? && FirstDigitText(info.value).Some? {
      var k :| 0 <= k < |info.value| && info.value[k] == FirstDigitText(info.value).value
        && IsDigitString(info.value[k]);
    }
  }

  /** The date rule: empty without an object-info section or without a
      paragraph containing "redigeret"; else the first such paragraph with each
      "Sidst redigeret" removed, stripped. */
  lemma DateRule(info: Option<seq<string>>)
    ensures info.None? ==> DateOf(info) == ""
    ensures info.Some? && (forall k :: 0 <= k < |info.value| ==> !Contains(info.value[k], EditedMarker)) ==>
      DateOf(info) == ""
    ensures info.Some? && FirstEdited(info.value).Some? ==>
      DateOf(info) == Strip(RemoveAll(FirstEdited(info.value).value, EditedLabel))
    ensures IsStripped(DateOf(info))
  {
  }

  // ---------------------------------------------------------------------------
  // The record

  /** The record `parse_listing(html, url)` returns; `None` stands for the
      AttributeError it raises when the title or the location tag is missing,
      since it reads their `.string` unguarded. */
  function ListingOf(page: Page, url: string): Option<Record> {
    if page.title.None? || page.location.None? then None
    else Some(Record(
      postId := PostIdOf(page.info, url),
      url := url,
      title := page.title.value.str,
      price := ExtractInt(PriceText(page.priceText, page.html)),
      desc := DescriptionOf(page.desc),
      location := page.location.value.str,
      date := DateOf(page.info),
      condition := ConditionOf(page.badge)))
  }

  /** `parse_listing` */
  method ParseListing(page: Page, url: string) returns (r: Option<Record>)
    ensures r == ListingOf(page, url)
  {
    if page.title.None? {
      return None;
    }
    var title := page.title.value.str;
    var priceNum := ExtractInt(PriceText(page.priceText, page.html));
    var condition := ConditionOf(page.badge);
    var desc := DefaultDesc;
    if page.desc.Some? {
      if page.desc.value.paragraphs != [] {
        var paragraphs := CollectParagraphs(page.desc.value.paragraphs);
        desc := Join(paragraphs, "\n");
      } else {
        desc := Strip(page.desc.value.contents);
      }
    }
    if page.location.None? {
      return None;
    }
    var location := page.location.value.str;
    var annonceId: Option<string> := None;
    var date := "";
    if page.info.Some? {
      annonceId := FindAnnonceId(page.info.value);
      date := FindDate(page.info.value);
    }
    var postId;
    if annonceId.Some? && annonceId.value != "" {
      postId := annonceId.value;
    } else {
      var urlMatch := ItemIdInUrl(url);
      postId := if urlMatch.Some? then urlMatch.value else Unknown;
    }
    r := Some(Record(postId, url, title, priceNum, desc, location, date, condition));
  }

  /** A record exists exactly when both the title and the location tag do;
      its title and location are their `.string` (possibly `None`), the URL is
      kept, and the per-field defaults hold: without a badge or its `<b>` the
      condition is "Not specified", without a description container the
      description is the placeholder, without a price text there is no price. */
  lemma FieldDefaults(page: Page, url: string)
    ensures ListingOf(page, url).Some? <==> page.title.Some? && page.location.Some?
    ensures ListingOf(page, url).Some? ==>
      && ListingOf(page, url).value.title == page.title.value.str
      && ListingOf(page, url).value.location == page.location.value.str
      && ListingOf(page, url).value.url == url
    ensures ListingOf(page, url).Some? && (page.badge.None? || page.badge.value.bold.None?) ==>
      ListingOf(page, url).value.condition == Some(NotSpecified)
    ensures ListingOf(page, url).Some? && page.badge.Some? && page.badge.value.bold.Some? ==>
      ListingOf(page, url).value.condition == page.badge.value.bold.value.str
    ensures ListingOf(page, url).Some? && page.desc.None? ==> ListingOf(page, url).value.desc == DefaultDesc
    ensures ListingOf(page, url).Some? && PriceText(page.priceText, page.html).None? ==>
      ListingOf(page, url).value.price.None?
  {
  }

  /** The dict `parse_listing` returns. */
  function ToDict(r: Record): Dict {
    [ ("post_id", Str(r.postId)),
      ("url", Str(r.url)),
      ("title", if r.title.Some? then Str(r.title.value) else Null),
      ("price_dkk", if r.price.Some? then Int(r.price.value) else Null),
      ("desc", Str(r.desc)),
      ("location", if r.location.Some? then Str(r.location.value) else Null),
      ("date", Str(r.date)),
      ("condition_text", if r.condition.Some? then Str(r.condition.value) else Null) ]
  }

  /** The row written for a record: its keys are the CSV header; a record
      without a price gets `""` as price and keeps every other field, and one
      with a price is written unchanged. */
  lemma RowForRecord(r: Record)
    ensures Keys(ToDict(r)) == Header && DistinctKeys(ToDict(r))
    ensures Keys(CsvRow(ToDict(r))) == Header
    ensures r.price.Some? ==> CsvRow(ToDict(r)) == ToDict(r)
    ensures r.price.None? ==> Get(CsvRow(ToDict(r)), "price_dkk") == Str("")
    ensures r.price.None? ==> forall k :: k != "price_dkk" ==> Get(CsvRow(ToDict(r)), k) == Get(ToDict(r), k)
  {
    var d := ToDict(r);
    DictKeys(r);
    HeaderDistinct();
    assert d[3].0 == "price_dkk";
    CsvRowSubstitution(d);
  }

  lemma DictKeys(r: Record)
    ensures Keys(ToDict(r)) == Header
  {
    var ks := Keys(ToDict(r));
    assert |ks| == |Header|;
    assert forall n :: 0 <= n < |Header| ==> ks[n] == Header[n];
  }

  /** The header names are pairwise different. */
  lemma HeaderDistinct()
    ensures forall m, n :: 0 <= m < n < |Header| ==> Header[m] != Header[n]
  {
    assert |Header[0]| == 7 && |Header[1]| == 3 && |Header[2]| == 5 && |Header[3]| == 9;
    assert |Header[4]| == 4 && |Header[5]| == 8 && |Header[6]| == 4 && |Header[7]| == 14;
    assert Header[4][1] != Header[6][1];
  }
}
