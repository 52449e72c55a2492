# dba_scraper listing parser, modelled in Dafny

The dba_scraper scripts fetch dba.dk listing pages and write one CSV row per
listing. This project models `parse_listing`, which turns what a page's
selectors find into a record. It has two versions: `src/fetch.py` and an
older top-level `fetch.py`. It also models the row each record becomes when
the script writes it. It proves what each field is and where it comes from.

- `options.dfy`: the `Option` type. `None` is Python's `None`, and it also
  stands for an exception the script raises.
- `text.dfy`: the Python string operations the parser uses, on `seq<char>`.
  These are `str.isdigit`, `strip`, `in`, `replace`, `join` and `int()`.
  `int()` refuses more than 4300 digits, CPython's default limit for
  decimal conversion, and `extract_int` then answers `None`.
  Whitespace is the exact set of code points that `str.isspace` accepts.
- `markup.dfy`: a page element as two values. `.string` is text or `None`.
  `decode_contents()` is the element's inner markup.
- `prices.dfy`: the price logic. Both scripts share it character for character.
  - The raw-markup fallback uses the regex
    `(\d{1,3}(?:[.\s]\d{3})*|\d{3,6})\s*(?:kr|kr\.|,-)` with IGNORECASE.
  - `extract_int` searches its text for `(\d{1,3}(?:[.\s]\d{3})*|\d{3,6})`.
  - Each regex is stated twice: once as the language its pattern denotes, and
    once as a deterministic matcher that makes a backtracking engine's choices.
  - The lemmas prove the matcher returns exactly the span `re.search`
    returns. That span is the leftmost, and among matches at the same start,
    the shortest. The search is shortest-first because the pattern's only
    open choice at the end is `kr` before `kr.`.
  - Two consequences follow. In `extract_int` the alternative `\d{3,6}`
    never decides anything, so `"1250"` gives 125. In the raw markup a match
    never ends in `kr.`: `"99kr."` is matched as `"99kr"`.
- `rows.dfy`: a Python dict as an ordered list of distinct keys, with
  `dict.get` and `{**d, k: v}`. It also models the substitution of `""` for a
  missing price before a row is written.
- `listing.dfy`: `parse_listing` of `src/fetch.py`. The description loop and
  the two object-info loops are methods with loop invariants. Each is proved
  against the function that the record's definition uses.
- `legacy_listing.dfy`: `parse_listing` of `fetch.py`, with its condition
  chain, its `""` defaults and its fixed seven-column record.
- `examples.dfy`: worked prices on representative texts (`"1.250 kr"`,
  `"12 345"`, `"1250"`, `"99kr."`) and on one piece of raw markup.

Inputs from the HTML parser are abstract values. Each is the element a
selector finds (or `None`), its `.string`, its `decode_contents()`, or its
`get_text(...)` result. A missing title, or a missing location in
`src/fetch.py`, makes the script raise `AttributeError`, because it reads
`.string` of `None`. The record function returns `None` in that case. One
lemma per script (`FieldDefaults`, `LegacyDefaults`) states exactly when a
record is returned and when the script raises.

## Model

| member | source | states |
|---|---|---|
| Text.Strip | src/fetch.py:83 | `strip()` returns a slice of its input with no whitespace at either end; everything cut off at both ends is whitespace |
| Text.Contains | src/fetch.py:116 | `sub in s` holds exactly when `sub` occurs at some index of `s` |
| Text.RemoveAll | src/fetch.py:117 | `replace(pat, "")` never lengthens the text; `Text.RemoveAllSpec` and `Text.RemoveAllLeftmost` state what it removes |
| Text.RemoveAllSpec | src/fetch.py:117 | a text without `pat` is left unchanged; a text that contains `pat` loses at least as many characters as `pat` has |
| Text.RemoveAllLeftmost | src/fetch.py:117 | `replace(pat, "")` removes the leftmost occurrence and resumes right after it: with no occurrence starting inside `x`, `x + pat + y` becomes `x` followed by the removal applied to `y` |
| Text.ReplaceChar | src/fetch.py:46 | `replace(from, to)` for single characters keeps the length, turns every `from` into `to` and leaves every other character in place |
| Text.IsDigitString | src/fetch.py:110 | `text.isdigit()`: the text is non-empty and every character is a digit; `Listing.FirstDigitText` and `Listing.PostIdRule` use it |
| Text.ParseDecimal | src/fetch.py:51-54 | `int()` succeeds exactly on non-empty digit strings of at most 4300 digits, CPython's default limit for decimal conversion, and then gives the number those digits spell |
| Text.JoinEnds | src/fetch.py:87 | joining non-empty parts gives a non-empty text that begins with the first part's first character and ends with the last part's last character |
| Text.Join | src/fetch.py:87 | `sep.join(parts)`: the parts in order with `sep` between neighbours; `Text.JoinEnds` states its ends |
| Rows.Get | src/fetch.py:175 | `dict.get` gives the value stored under the key, and `None` when the key is absent |
| Rows.PutSpec | src/fetch.py:184 | `{**d, k: v}` keeps the key order when `k` is present and appends `(k, v)` otherwise; afterwards `k` maps to `v`, every other key keeps its value, and distinct keys stay distinct |
| Rows.Put | src/fetch.py:184 | `{**d, k: v}`: the result keeps `d`'s length or appends one entry; `Rows.PutSpec` states the full contract |
| Rows.CsvRow | src/fetch.py:174-185 | the dict handed to `writerow`: the record itself when its price is not `None`, else the record with `""` as price; `Rows.CsvRowSubstitution` states its properties |
| Rows.CsvRowSubstitution | src/fetch.py:175-191 | a record with a non-None price is written as it is; a record without one keeps its keys and every other field, with price `""` |
| Prices.GroupsEndIsGroups | src/fetch.py:40 | the greedy `(?:[.\s]\d{3})*` consumes whole separator-plus-three-digit groups |
| Prices.GroupsBound | src/fetch.py:40 | no run of groups from the same point is longer than the greedy one |
| Prices.GroupedEnd | src/fetch.py:47 | where the greedy `\d{1,3}(?:[.\s]\d{3})*` stops after a digit, strictly past it; `Prices.GroupedEndIsLongest` proves it is the longest match there |
| Prices.GroupedEndIsLongest | src/fetch.py:47 | at a digit, at most three digits followed by the greedy groups form a match of `\d{1,3}(?:[.\s]\d{3})*`, and no longer match starts there |
| Prices.TokenIsFound | src/fetch.py:40 | every match of the raw-markup price pattern at a position is seen by the matcher, which ends no later |
| Prices.FoundIsToken | src/fetch.py:40 | whatever the matcher returns at a position is a match of the pattern: a number, optional whitespace, then `kr`, `kr.` or `,-` in any case |
| Prices.MatchEndAt | src/fetch.py:40 | the end of the match the backtracking engine finds at one start position, or none; `Prices.MatchEndAtIsShortest` proves it is the shortest match there |
| Prices.MatchEndAtIsShortest | src/fetch.py:40 | the matcher at a position succeeds exactly when some match starts there, and it returns the shortest one |
| Prices.PriceSearch | src/fetch.py:40-41 | `re.search` over the markup: no span when nothing matches anywhere; otherwise the leftmost match, ended as soon as possible |
| Prices.TokenShape | src/fetch.py:40-41 | every raw-markup match has at least three characters, begins with a digit, and ends in `kr`, `kr.` or `,-` in any case |
| Prices.SearchEndsAtMarker | src/fetch.py:40-41 | the span the search returns starts at a digit, has at least three characters, and ends in `kr` (any case) or `,-`, never in `kr.` |
| Prices.RawPriceMatch | src/fetch.py:40-41 | `m.group(0) if m else None`: none exactly when nothing on the page matches; otherwise a text that begins with a digit and ends in `kr` or `,-` |
| Prices.RemoveSeps | src/fetch.py:50 | `re.sub(r'[.\s]', '', …)` leaves no separator behind, turns digits and separators into digits only, is the identity on separator-free text, and turns a lone separator into the empty text |
| Prices.FirstDigit | src/fetch.py:47 | the index of the first ASCII digit, or none when the text has no digit |
| Prices.Normalised | src/fetch.py:46 | the text `extract_int` searches has the same length, no no-break space, and every other character unchanged |
| Prices.GreedyIsNumberMatch | src/fetch.py:47-50 | the greedy match from the first digit is the match `re.search` returns, and it reduces to a non-empty digit string once separators are dropped |
| Prices.ExtractInt | src/fetch.py:43-54 | `None` for `None`, the empty text and a text without a digit; any number it gives is non-negative and is the value of the `re.search` match with separators removed; `Prices.ExtractIntNone` states exactly when it is `None` |
| Prices.ExtractIntNone | src/fetch.py:43-54 | `None` exactly for `None`, a text without a digit, and a text whose match spells more than 4300 digits, where `int()` raises and the `except` branch answers `None` |
| Prices.ShortTextYieldsNumber | src/fetch.py:43-54 | a text of at most 4300 characters that holds a digit always yields a number |
| Prices.PriceText | src/fetch.py:34-41 | `price_text`: the element text when non-empty, else the raw-markup match, else `None`; `Prices.PriceTextChain` states the chain |
| Prices.PriceTextChain | src/fetch.py:34-41 | the price text is the element's text when that is non-empty; else the leftmost raw-markup match, which begins with a digit, ends in `kr` or `,-` and yields a price unless its match spells more than 4300 digits; else `None` with no price |
| Prices.UngroupedDigitsTruncate | src/fetch.py:47-52 | four or more adjacent leading digits without a separator yield only the first three, because `\d{3,6}` is never tried |
| Prices.WrittenNumberValue | src/fetch.py:43-54 | on a text that starts with one to three digits, whole separator-plus-three-digit groups, and a tail that starts no further group, `extract_int` gives the number spelled by those digits with the separators dropped when they are at most 4300, and `None` beyond that |
| Listing.CleanParagraphs | src/fetch.py:77-87 | the collected paragraphs are non-empty, have no whitespace at either end, and are at most as many as the `<p>` tags |
| Listing.CollectParagraphs | src/fetch.py:77-86 | the paragraph loop builds exactly the collected paragraphs, in tag order |
| Listing.TextOf | src/fetch.py:80 | `p.string or p.decode_contents()`: the `.string` when it is a non-empty text, else the inner markup; `Listing.Kept` and `Listing.DescriptionRule` use it |
| Listing.Kept | src/fetch.py:80-85 | what one `<p>` adds: nothing or one non-empty text with no whitespace at either end; `Listing.KeptRule` states which |
| Listing.KeptRule | src/fetch.py:80-85 | a `<p>` adds nothing exactly when its text is empty or all whitespace; otherwise it adds its stripped text |
| Listing.CleanParagraphsAppend | src/fetch.py:78-85 | each tag is kept or dropped on its own and order is kept: collecting two runs of tags gives the first run's paragraphs followed by the second's |
| Listing.DescriptionRule | src/fetch.py:71-91 | `"Ingen desc (auto)"` without a container; with `<p>` tags their kept texts joined by `"\n"` (empty if none is kept); without them the stripped inner markup; never whitespace at either end |
| Listing.DescriptionOf | src/fetch.py:70-91 | `desc` as the script computes it; `Listing.DescriptionRule` states its three cases |
| Listing.FirstDigitText | src/fetch.py:109-112 | the first object-info text made only of digits, or none exactly when no text is all digits |
| Listing.FindAnnonceId | src/fetch.py:109-112 | the id loop, which stops at the first all-digit text, yields exactly that text |
| Listing.FirstEdited | src/fetch.py:115-118 | the first object-info text containing "redigeret", or none exactly when no text contains it |
| Listing.FindDate | src/fetch.py:115-118 | the date loop gives the date computed from the first text containing "redigeret", and `""` without one |
| Listing.DateFrom | src/fetch.py:114-118 | the date from the object-info texts: `""` without a text containing "redigeret", else the first such text cleaned; `Listing.FindDate` and `Listing.DateRule` state it |
| Listing.DateText | src/fetch.py:117 | `text.replace("Sidst redigeret", "").strip()`; `Listing.DateRule` states it for the first matching text |
| Listing.ItemSearch | src/fetch.py:122 | the leftmost position in the URL of `/item/` that a digit follows, or none when there is no such position |
| Listing.ItemIdInUrl | src/fetch.py:122-123 | `group(1)` of `/item/(\d+)`: none exactly when no `/item/` is followed by a digit; else the whole digit run after the leftmost such `/item/` |
| Listing.PostIdOf | src/fetch.py:100-123 | `annonce_id` after the URL fallback; `Listing.PostIdRule` states the rule |
| Listing.DateOf | src/fetch.py:100-118 | `date`: `""` without the object-info section, else the date from its texts; `Listing.DateRule` states the rule |
| Listing.PostIdRule | src/fetch.py:106-123 | post_id is a digit string or `"unknown"`; an all-digit object-info text wins and the URL is then ignored; else the URL's id; `"unknown"` exactly when neither exists |
| Listing.DateRule | src/fetch.py:102-118 | the date is `""` without an object-info section or a text containing "redigeret"; else that text with every "Sidst redigeret" removed, stripped; never whitespace at either end |
| Listing.ParseListing | src/fetch.py:15-142 | `parse_listing` returns the record its field rules define, or raises when the title or location tag is missing |
| Listing.ListingOf | src/fetch.py:15-142 | the record `parse_listing` returns, field by field, or `None` where it raises; `Listing.FieldDefaults` and the field rules state its properties |
| Listing.ConditionOf | src/fetch.py:58-66 | `condition_text`: the `<b>`'s `.string` inside the badge, else `"Not specified"`; `Listing.FieldDefaults` states both cases |
| Listing.FieldDefaults | src/fetch.py:19-98 | a record exists exactly when the title and location tags do; title and location are their `.string`; condition is `"Not specified"` without the badge or its `<b>`, else the `<b>`'s `.string`; the description placeholder and the missing price as defaults |
| Listing.ToDict | src/fetch.py:133-142 | the dict `parse_listing` returns, with `None` fields as `Null`; `Listing.RowForRecord` states its keys and its row |
| Listing.RowForRecord | src/fetch.py:133-142 | the record's keys are the eight CSV header names, in order and distinct; its row has the same keys and differs only by `""` for a missing price |
| LegacyListing.LegacyConditionChain | fetch.py:52-61 | `"Not specified"` without the section; a `<b>` text wins whatever the `<p>` says; the `<p>` text only without a `<b>`; otherwise `"Not specified"`; the result is always one of these |
| LegacyListing.LegacyDefaults | fetch.py:19-72 | a record exists exactly when the title tag does; description and location are `""` without a matching selector; the price is missing without a price text, and comes from a non-empty element text when there is one |
| LegacyListing.LegacyListingOf | fetch.py:15-90 | the record the older `parse_listing` returns, or `None` where it raises; `LegacyListing.LegacyDefaults` states its properties |
| LegacyListing.LegacyCondition | fetch.py:51-61 | `condition_text` of the older script; `LegacyListing.LegacyConditionChain` states its cases |
| LegacyListing.TextOrEmpty | fetch.py:65-72 | `""` in place of a missing description or location text; `LegacyListing.LegacyDefaults` states both defaults |
| LegacyListing.LegacyDict | fetch.py:82-90 | the seven-key dict of the older script; `LegacyListing.LegacyShape` and `LegacyListing.LegacyRow` state its keys and its row |
| LegacyListing.LegacyShape | fetch.py:82-90 | the keys are the seven header names, distinct, with no "post_id"; the date is always `""` |
| LegacyListing.LegacyRow | fetch.py:120-130 | a record with a price is written unchanged; without one only its price becomes `""`; the row's keys are the header |
| PriceExamples.DottedThousands | src/fetch.py:46-52 | `"1.250 kr"` gives 1250 |
| PriceExamples.SpacedThousands | src/fetch.py:46-52 | `"12 345"` gives 12345 |
| PriceExamples.UnseparatedThousands | src/fetch.py:47-52 | `"1250"` gives 125 |
| PriceExamples.ShortPrice | fetch.py:39-45 | `"99kr."` gives 99 |
| PriceExamples.RawMatchStopsAtKr | fetch.py:32-34 | on the markup `"<b>99kr.</b>"` the fallback match is `"99kr"`, without the dot |

Both scripts hold the same `extract_int` and the same price chain
(fetch.py:27-47). The `Prices` members model both copies, and
`LegacyListing.LegacyListingOf` uses them for the older script's price.

## Left out

- `delayed_fetch`: the HTTP request, the User-Agent header and the random 2-4 second sleep are left out. They are network I/O and randomness; the page markup is an input.
- BeautifulSoup parsing is left out. `select_one`, `find`, `find(text=…)`, `find_all`, `.string`, `decode_contents()` and `get_text(...)` are a foreign library. Their results are the abstract fields of `Page` and `LegacyPage`.
- How the price element is chosen is left out. That choice is `p.h2`, or else the first text node that holds two or more digits before a currency marker (src/fetch.py:34-37). The result is the input `priceText`.
- The meta-description branch `desc_el.get('content', '')` of fetch.py:66 has no model. Every element BeautifulSoup returns has `get_text`, so the branch never runs; the description is that element's `get_text` result.
- The `if not item` branch of both main loops is not modelled. A returned dict always has keys, so it never fires.
- CSV serialisation is left out. That covers quoting (`QUOTE_ALL`, the `\` escape character), `writeheader`, `flush`, `fsync`, directory creation and the hard-coded URL list. This is library plumbing and file I/O; the model stops at the dict handed to `writerow`, with the header as a constant.
- The debug prints of both scripts are left out. So is the unused `raw` variable.
- Text.IsDigitString: counts ASCII digits only. Python's `str.isdigit` also accepts other Unicode digits, such as superscripts. `\d` in a `str` pattern accepts all Unicode decimal digits. The model treats page text as made of ASCII digits.
- Prices.IsK: IGNORECASE is modelled only for the letters it can affect: `k`, `K` and the Kelvin sign for `k`, and `r`, `R` for `r`. No other case folding is modelled.
- Text.Strip and the `\s` classes use Python's `str.isspace` set. Python's `\s` agrees with that set on `str` patterns. Unicode database versions other than the one that set comes from are not modelled.
- Pagination, listing collection and seen-id deduplication are not in either script, so there is nothing to model. Both scripts open the output file with `"w"`.
- What happens after `parse_listing` raises is not modelled. The main loops do not catch the exception, so the script stops. The model only records the exception, as a `None` result.
- Text.ParseDecimal: uses CPython's default limit of 4300 digits. A different limit, set with `sys.set_int_max_str_digits` or `PYTHONINTMAXSTRDIGITS`, is not modelled. Neither is a Python older than 3.10.7, which has no limit.
