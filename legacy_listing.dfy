/**
 * `parse_listing` of the top-level fetch.py, the older scraper: the same
 * price logic as src/fetch.py, with other selectors and defaults for the
 * condition, description and location, and a record without a post id.
 */
module LegacyListing {
  import opened Options
  import opened Text
  import opened Markup
  import opened Prices
  import opened Rows

  /** The "Mere information" section (aria-label exactly "Mere information",
      or else any aria-label containing "mere" in any case): the
      `get_text(strip=True)` of its first `<b>` and the
      `get_text(" ", strip=True)` of its first `<p>`. */
  datatype MoreInfo = MoreInfo(bold: Option<string>, paragraph: Option<string>)

  /** What the selectors of the older `parse_listing` find on a page. */
  datatype LegacyPage = LegacyPage(
    html: string,                   // the raw markup, for the price regex
    title: Option<Element>,         // h1[data-testid="object-title"] or h1[class="break-words mb-24"]
    priceText: Option<string>,      // text of p.h2, or of the first text node the price pattern finds
    moreInfo: Option<MoreInfo>,
    descText: Option<string>,       // get_text(" ", strip=True) of the first description selector that matches
    locationText: Option<string>    // get_text(" ", strip=True) of the first location selector that matches
  )

  datatype LegacyRecord = LegacyRecord(
    url: string,
    title: Option<string>,
    price: Option<int>,
    desc: string,
    location: string,
    condition: string
  )

  const NotSpecified := "Not specified"

  /** The CSV header, in `DictWriter`'s field order. */
  const LegacyHeader := ["url", "title", "price_dkk", "desc", "location", "date", "condition_text"]

  /** `condition_text`: the section's `<b>` text, else its `<p>` text, else
      "Not specified". */
  function LegacyCondition(info: Option<MoreInfo>): string {
    match info
    case None => NotSpecified
    case Some(MoreInfo(bold, paragraph)) =>
      if bold.Some? then bold.value
      else if paragraph.Some? then paragraph.value
      else NotSpecified
  }

  /** The condition chain: "Not specified" without the section; a `<b>` wins
      whatever the section's `<p>` says; the `<p>` is used only without a
      `<b>`; and the condition is always one of the section's texts or
      "Not specified". */
  lemma LegacyConditionChain(info: Option<MoreInfo>)
    ensures info.None? ==> LegacyCondition(info) == NotSpecified
    ensures info.Some? && info.value.bold.Some? ==>
      forall p :: LegacyCondition(Some(MoreInfo(info.value.bold, p))) == info.value.bold.value
    ensures info.Some? && info.value.bold.None? && info.value.paragraph.Some? ==>
      LegacyCondition(info) == info.value.paragraph.value
    ensures info.Some? && info.value.bold.None? && info.value.paragraph.None? ==>
      LegacyCondition(info) == NotSpecified
    ensures LegacyCondition(info) == NotSpecified
      || (info.Some? && (Some(LegacyCondition(info)) == info.value.bold || Some(LegacyCondition(info)) == info.value.paragraph))
  {
  }

  /** The found element's text, or `""` when no selector matches. */
  function TextOrEmpty(text: Option<string>): string {
    if text.Some? then text.value else ""
  }

  /** The record the older `parse_listing(html, url)` returns; `None` stands
      for the AttributeError it raises when the title tag is missing. */
  function LegacyListingOf(page: LegacyPage, url: string): Option<LegacyRecord> {
    if page.title.None? then None
    else Some(LegacyRecord(
      url := url,
      title := page.title.value.str,
      price := ExtractInt(PriceText(page.priceText, page.html)),
      desc := TextOrEmpty(page.descText),
      location := TextOrEmpty(page.locationText),
      condition := LegacyCondition(page.moreInfo)))
  }

  /** The dict the older `parse_listing` returns. */
  function LegacyDict(r: LegacyRecord): Dict {
    [ ("url", Str(r.url)),
      ("title", if r.title.Some? then Str(r.title.value) else Null),
      ("price_dkk", if r.price.Some? then Int(r.price.value) else Null),
      ("desc", Str(r.desc)),
      ("location", Str(r.location)),
      ("date", Str("")),
      ("condition_text", Str(r.condition)) ]
  }

  /** A record exists exactly when the title tag does; description and
      location fall back to `""`; the price follows the shared price chain and
      is missing without a price text. */
  lemma LegacyDefaults(page: LegacyPage, url: string)
    ensures LegacyListingOf(page, url).Some? <==> page.title.Some?
    ensures LegacyListingOf(page, url).Some? && page.descText.None? ==> LegacyListingOf(page, url).value.desc == ""
    ensures LegacyListingOf(page, url).Some? && page.locationText.None? ==>
      LegacyListingOf(page, url).value.location == ""
    ensures LegacyListingOf(page, url).Some? && PriceText(page.priceText, page.html).None? ==>
      LegacyListingOf(page, url).value.price.None?
    ensures LegacyListingOf(page, url).Some? && page.priceText.Some? && page.priceText.value != "" ==>
      LegacyListingOf(page, url).value.price == ExtractInt(page.priceText)
  {
  }

  /** The fixed record shape: the keys are the header, with no "post_id", and
      the date is always empty. */
  lemma LegacyShape(r: LegacyRecord)
    ensures Keys(LegacyDict(r)) == LegacyHeader
    ensures DistinctKeys(LegacyDict(r))
    ensures forall n :: 0 <= n < |LegacyDict(r)| ==> LegacyDict(r)[n].0 != "post_id"
    ensures Get(LegacyDict(r), "date") == Str("")
  {
    var d := LegacyDict(r);
    var ks := Keys(d);
    assert |ks| == |LegacyHeader|;
    assert forall n :: 0 <= n < |LegacyHeader| ==> ks[n] == LegacyHeader[n];
    LegacyHeaderDistinct();
    assert forall n :: 0 <= n < |d| ==> d[n].0 == LegacyHeader[n];
    assert |LegacyHeader[0]| == 3 && |LegacyHeader[1]| == 5 && |LegacyHeader[2]| == 9 && |LegacyHeader[3]| == 4;
    assert |LegacyHeader[4]| == 8 && |LegacyHeader[5]| == 4 && |LegacyHeader[6]| == 14;
    assert LegacyHeader[2][0] == 'p' && LegacyHeader[2][1] == 'r';
  }

  /** The header names are pairwise different. */
  lemma LegacyHeaderDistinct()
    ensures forall m, n :: 0 <= m < n < |LegacyHeader| ==> LegacyHeader[m] != LegacyHeader[n]
  {
    assert |LegacyHeader[0]| == 3 && |LegacyHeader[1]| == 5 && |LegacyHeader[2]| == 9 && |LegacyHeader[3]| == 4;
    assert |LegacyHeader[4]| == 8 && |LegacyHeader[5]| == 4 && |LegacyHeader[6]| == 14;
    assert LegacyHeader[3][1] != LegacyHeader[5][1];
  }

  /** The row written for a record: its keys are the header; a record without
      a price gets `""` as price and keeps every other field, and one with a
      price is written unchanged. */
  lemma LegacyRow(r: LegacyRecord)
    ensures Keys(CsvRow(LegacyDict(r))) == LegacyHeader
    ensures r.price.Some? ==> CsvRow(LegacyDict(r)) == LegacyDict(r)
    ensures r.price.None? ==> Get(CsvRow(LegacyDict(r)), "price_dkk") == Str("")
    ensures r.price.None? ==> forall k :: k != "price_dkk" ==> Get(CsvRow(LegacyDict(r)), k) == Get(LegacyDict(r), k)
  {
    var d := LegacyDict(r);
    LegacyShape(r);
    assert d[2].0 == "price_dkk";
    CsvRowSubstitution(d);
  }
}
