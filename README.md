# Mercado Livre scraper, modelled in Dafny

This project models the core of a small Mercado Livre scraper written in Python. The scraper has three programs:

- `main.py` and `new_main.py` build the 201 search-result URLs for a query. They walk the result pages in order, stop at the first page without listings, and turn each listing fragment into a record.
  - In `main.py`, the first fragment that lacks a required element ends the run by an exception.
  - In `new_main.py`, that fragment is skipped.
- `link_scraper.py` visits a list of product-detail URLs and turns each page into one record. An unreachable URL gives a placeholder record.

All three normalise prices through the same pair `convert_to_float` / `format_to_currency`. That pair turns "R$ 1.234,56" into a number and renders it in the Brazilian format again.

Modules:

- `Text`: the Python string operations the scraper uses:
  - `strip` over the `str.isspace` set;
  - `replace`, `find` and `in`;
  - `lower` and `capitalize` over ASCII and Latin-1, including the title case "Ss" of the sharp s and the upper cases of the micro sign and y with diaeresis, which leave Latin-1;
  - the decimal rendering of a whole number.
- `Markup`: an HTML element reduced to its text and attributes, and a listing fragment as the lookups the scrapers make on it.
- `Prices`: the price normaliser. A Python float is an exact decimal here.
- `Search`: the query slug, the 201 URLs, and the walk over result pages up to the first empty one.
- `LinkScraper`: the prefix cleaners, the per-field rules of `scrape_link`, and the `LinkScraper` class with its `data` list.
- `NewMain`: the MLB code extractor, `scrape_product`, and the `Scraper` class whose `scraping` skips failed fragments.
- `MainScraper`: the inline record builder of `main.py`, and the `Scraper` class whose `scraping` stops at the first failure.

The network request and the HTML parse are function parameters:

- `fetch: string -> seq<Post>` for the search pages;
- `fetch: string -> FetchResult` for the detail pages.

The time stamp `datetime.now().strftime(...)` is a string parameter. The scraper classes keep their `data` lists as `seq` fields. The page loops are `while` loops proved against the functions `Collect`, `Walk` and `ScrapeAll`.

## Model

| member | source | states |
|---|---|---|
| Text.Strip | link_scraper.py:75 | `str.strip`: the result is a contiguous slice of the input with only whitespace before and after it, and it has no whitespace at either end. It is empty exactly when the input is all whitespace. |
| Text.Lower | link_scraper.py:119 | `str.lower` keeps the length and leaves no upper-case ASCII or Latin-1 letter. Each upper-case letter becomes its lower-case partner, 32 code points on, and every other character is unchanged. LowerIdempotent, LowerConcat and SlugShape state it further. |
| Text.TitleCase | link_scraper.py:75 | The title case of the first character: one character, except "Ss" for the sharp s. |
| Text.Capitalize | link_scraper.py:75 | `str.capitalize` puts the first character in title case and lower-cases the rest. The length grows by one only for a leading sharp s. |
| Text.CapitalizeIdempotent | link_scraper.py:75 | Capitalising an already capitalised text changes nothing. |
| Text.IndexOf | new_main.py:46 | `str.find` returns the leftmost occurrence of the pattern. `None` means there is no occurrence at all. |
| Text.Replace | link_scraper.py:36 | `str.replace`: every non-overlapping occurrence of the pattern, scanning from the left, is replaced. Its properties are the lemmas below. |
| Text.ReplaceChar | link_scraper.py:36 | `str.replace` with a one-character pattern, character by character. |
| Text.ReplaceCharIsReplace | link_scraper.py:36 | Replacing a one-character pattern character by character agrees with the general `str.replace`. |
| Text.NatToString | new_main.py:124 | The decimal rendering of an offset is non-empty digits without a leading zero, and it reads back as the number. |
| Text.NatToStringInjective | new_main.py:124 | Different offsets render differently. |
| Text.DigitsValueAppend | link_scraper.py:37 | Appending digits shifts the value read so far by a power of ten. |
| Markup.StrippedTextOr | link_scraper.py:108 | The stripped text of an element, or a fallback without it. |
| Markup.CapitalizedTextOr | link_scraper.py:75 | The stripped and capitalised text of an element, or a fallback without it. |
| Markup.Attr | new_main.py:92 | `element[key]`, `None` where it raises `KeyError`. |
| Markup.AttrOr | new_main.py:96 | `element.get(key, fallback)`. |
| Prices.CleanPrice | link_scraper.py:36 | The text handed to `float`: "R$" deleted, then "$", then ".", then "," turned into ".", then stripped. CleanDigitsAndDots, CleanShaped and NoDigitsSurviveCleaning state what it leaves. |
| Prices.ParseFloat | link_scraper.py:37-39 | `float` on digits with at most one ".", `None` where it raises `ValueError`. ParseDigits, ParseFixedPoint and ParseWithoutDigits state it. |
| Prices.ConvertToFloat | link_scraper.py:31-39 | `convert_to_float`: 0 for the empty text and for what `float` refuses, else the parsed value. Its lemmas are the Convert* rows. |
| Prices.Group | link_scraper.py:43 | The digits in groups of three from the right, joined by a separator. GroupShape states where the separators fall. |
| Prices.FixedPointWithCommas | link_scraper.py:43 | `f"{value:,.2f}"` for a whole number of cents. |
| Prices.FormatToCurrency | link_scraper.py:41-43 | `format_to_currency`: "R$ " and the amount with `,.2f`, then the three replaces. FormatShape states the result. |
| Prices.ToCents | link_scraper.py:43 | The whole cents `.2f` renders for an exact decimal, rounding half to even. |
| Prices.Normalize | link_scraper.py:96 | `format_to_currency(convert_to_float(s))`, the treatment every scraped price gets. NormalizeIdempotent and NormalizeFormatted state it. |
| Prices.RoundHalfEven | link_scraper.py:43 | The `.2f` rounding picks the nearer whole cent. A tie goes to the even neighbour. |
| Prices.ConvertWithoutDigitsIsZero | link_scraper.py:31-39 | A price text without any digit converts to 0. This covers "", "N/A" and a bare "R$", through the empty-string guard or the `ValueError` fallback. |
| Prices.ParseWithoutDigits | link_scraper.py:37-39 | `float` refuses a cleaned text without a digit. |
| Prices.NoDigitsSurviveCleaning | link_scraper.py:36 | The clean-up replaces never introduce a digit. |
| Prices.ConvertDotsAreThousands | link_scraper.py:36-37 | In a text of digits and dots, every dot is taken as a thousands separator. The value is the remaining digits read as a whole number. |
| Prices.ParseDigits | link_scraper.py:37 | `float` of a digit string is that whole number. |
| Prices.CleanDigitsAndDots | link_scraper.py:36 | Cleaning digits and dots only deletes the dots. |
| Prices.DeleteDots | link_scraper.py:36 | Deleting the dots from digits and dots leaves only digits, and at least one when there was one. |
| Prices.ConvertNotAvailable | link_scraper.py:94-96 | "N/A" converts to 0. |
| Prices.ConvertPointExample | link_scraper.py:36-37 | "1.5" reads as 15, because the dot is deleted as a thousands separator. |
| Prices.ConvertBrazilianExample | link_scraper.py:31-39 | "R$ 1.234,56" reads as 1234.56. |
| Prices.ParseFixedPoint | link_scraper.py:37 | `float` of "whole.frac" is the exact decimal with `|frac|` places. |
| Prices.ConvertFixedPoint | link_scraper.py:31-39 | When cleaning gives "whole.frac", the converted value is that decimal. |
| Prices.GroupChars | link_scraper.py:43 | Grouped digits hold only digits and the separator. |
| Prices.GroupReplace | link_scraper.py:43 | Replacing the group separator in grouped digits regroups them with the replacement. |
| Prices.GroupWithoutSeparator | link_scraper.py:43 | Grouping with an empty separator gives back the digits. |
| Prices.GroupShape | link_scraper.py:43 | The `,` grouping puts a separator exactly at every fourth position from the right, and never at either end. |
| Prices.SwapSeparators | link_scraper.py:43 | The three replaces through the placeholder "X" swap "," and "." in "R$ 1,234.56". |
| Prices.FormatShape | link_scraper.py:41-43 | The output is "R$ ", then the reais grouped in threes with ".", then ",", then exactly two digits of cents. |
| Prices.FormatZero | link_scraper.py:41-43 | 0 renders as "R$ 0,00". |
| Prices.FormatThousands | link_scraper.py:41-43 | 1234.56 renders as "R$ 1.234,56". |
| Prices.TwoDigitsValue | link_scraper.py:43 | The two cent digits read back as the cents. |
| Prices.ReadCents | link_scraper.py:43 | The reais digits followed by the two cent digits read back as the whole amount in cents. |
| Prices.CleanShaped | link_scraper.py:36 | Cleaning "R$ 1.234,56"-shaped text gives "1234.56". |
| Prices.CleanFormatted | link_scraper.py:36-43 | Cleaning a formatted amount gives its plain fixed-point text. |
| Prices.ConvertCentsText | link_scraper.py:31-39 | A price whose clean-up is "n.t", with two digits t, converts to the amount nt in cents. |
| Prices.ConvertFormatted | link_scraper.py:31-43 | `convert_to_float` reads back exactly the amount `format_to_currency` rendered. |
| Prices.FormattedRoundTrip | link_scraper.py:31-43 | Formatting an amount, converting it back, and rounding to cents gives the amount again. |
| Prices.NormalizeFormatted | link_scraper.py:102 | A formatted price is already normalised. |
| Prices.NormalizeIdempotent | link_scraper.py:96 | Normalising a price a second time changes nothing. |
| Search.Slugify | new_main.py:119 | The query with each space turned into "-", lower-cased. SlugShape states it. |
| Search.PageUrl | new_main.py:124 | The page URL for a result offset. |
| Search.SearchUrls | new_main.py:120-125 | The bare search URL followed by the 200 page URLs. SearchUrlsShape and SearchUrlsDistinct state it. |
| Search.BuildSearchUrls | new_main.py:119-125 | The loop builds exactly the bare search URL, followed by the pages at offsets 51, 101, ..., 10001. |
| Search.SearchUrlsShape | new_main.py:120-125 | There are 201 URLs. The first is the bare search and URL k starts at result 50k + 1. |
| Search.SearchUrlsUnique | new_main.py:120-125 | Any 201 URLs laid out in that shape are the list itself. |
| Search.SearchUrlsExtendSearch | new_main.py:120-124 | Every URL starts with the bare search URL. |
| Search.PageUrlExtendsSearch | new_main.py:124 | A page URL strictly extends the bare search URL. |
| Search.PageUrlInjective | new_main.py:124 | Two page URLs are equal only when their offsets are. |
| Search.SearchUrlsDistinct | new_main.py:120-125 | The 201 URLs are pairwise distinct, so no page is requested twice. |
| Search.BrazilExample | new_main.py:120-125 | For the Brasil base URL and the slug "fone-bluetooth", the first URL is the bare search and the second starts at result 51. |
| Search.BrazilSecondPage | new_main.py:124 | The page URL at offset 51 for that search, written out. |
| Search.SlugShape | new_main.py:119 | The slug keeps the query's length and lower-cases every character in place. Each space becomes "-", so the slug has no space, and lower-casing it again changes nothing. |
| Search.Pages | new_main.py:129-132 | The fragment list of each URL's page, in URL order, the request and the parse being `fetch`. It is defined by recursion over the URLs. PagesAt states it, and Listed and the `Scraping` rows state what the loop does with it. |
| Search.PagesAt | new_main.py:129-132 | There is one page per URL, and page `i` is what URL `i` yields. |
| Search.Listed | new_main.py:129-136 | The fragments the page loop visits: every page's, in order, up to the first page that has none. |
| Search.ListedAppend | new_main.py:129-143 | Visiting one more non-empty page appends its fragments. |
| Search.ListedStops | new_main.py:134-136 | The walk stops at the first empty page. Nothing on or after it is visited. |
| Search.ListedFrom | new_main.py:129-143 | Every visited fragment comes from a page that was reached, and every page up to that one was non-empty. |
| Search.ListedSplit | new_main.py:129-143 | Before the first empty page, the walk splits at any page boundary. |
| LinkScraper.RemoveStorePrefix | link_scraper.py:49 | The substitution of `^(Vendido por\|Loja oficial)\s*`, ignoring case. |
| LinkScraper.StartsWithMercadolider | link_scraper.py:55 | The match of `^Mercadolíder\s\|\s`, ignoring case. |
| LinkScraper.RemoveBadge | link_scraper.py:55 | The substitution of that badge. |
| LinkScraper.CleanSeller | link_scraper.py:45-50 | "" and "N/A" come back unchanged. Any other seller comes back with no surrounding whitespace. |
| LinkScraper.CleanSellerSales | link_scraper.py:52-56 | "" and "N/A" come back unchanged. Any other sales text comes back with no surrounding whitespace. |
| LinkScraper.CleanSellerRemovesPrefix | link_scraper.py:45-50 | "Vendido por" in any case, plus the whitespace after it, is removed from in front of a clean name. |
| LinkScraper.CleanSellerSoldBy | link_scraper.py:49 | A seller starting with "Vendido por" in any case loses it and its trailing whitespace, and the rest is stripped. |
| LinkScraper.CleanSellerRemovesStorePrefix | link_scraper.py:45-50 | "Loja oficial" in any case, plus the whitespace after it, is removed from in front of a clean name. |
| LinkScraper.CleanSellerOfficialStore | link_scraper.py:49 | A seller starting with "Loja oficial" in any case loses it and its trailing whitespace, and the rest is stripped. |
| LinkScraper.CleanSellerWithoutPrefix | link_scraper.py:47-49 | Without either prefix, the seller is only stripped. |
| LinkScraper.CleanSellerSalesRemovesBadge | link_scraper.py:52-56 | "Mercadolíder", then a whitespace character, "|" and another whitespace character, is removed from in front of the sales count. |
| LinkScraper.CleanSellerSalesBadge | link_scraper.py:55 | After that 15-character badge, the rest is stripped. |
| LinkScraper.PreviousPrice | link_scraper.py:89-96 | The normalised stripped text of the struck-through element, else of "N/A". The fallback tests the absent element again. |
| LinkScraper.CurrentPrice | link_scraper.py:98-104 | The normalised stripped current price, or "NA" without its element. |
| LinkScraper.Installments | link_scraper.py:110-124 | The installments text and the ad type. AdTypeRule states them. |
| LinkScraper.QuantityText | link_scraper.py:126-148 | The first non-blank of: the explicit quantity, the quantity box, "Anúncio pausado" from the shipping message. "N/A" when there is none. |
| LinkScraper.Finish | link_scraper.py:151 | Parentheses removed and the text stripped, unless it is "N/A". |
| LinkScraper.RemoveParentheses | link_scraper.py:151 | Every "(" and ")" deleted, then stripped. |
| LinkScraper.Availability | link_scraper.py:126-151 | `qtd_available` as stored. The Availability* lemmas state it. |
| LinkScraper.PreviousPriceWithoutElement | link_scraper.py:89-96 | Without the struck-through element the previous price is always "R$ 0,00". The fallback never reads the fraction. |
| LinkScraper.PricesAreNormalized | link_scraper.py:89-104 | Both prices are normalised. The current price is "NA" exactly when its element is absent. |
| LinkScraper.FormatStartsWithSymbol | link_scraper.py:102-104 | A formatted current price is never the placeholder "NA". |
| LinkScraper.AdTypeRule | link_scraper.py:110-124 | Premium holds exactly when the subtitles mention "sem juros" in any case. Classic holds exactly when the subtitles are present without it. "N/A" holds exactly when they are absent. The installments are the stripped subtitles, or "N/A". |
| LinkScraper.AvailabilityWithoutParentheses | link_scraper.py:126-151 | The stored availability never holds a parenthesis. |
| LinkScraper.FinishWithoutParentheses | link_scraper.py:151 | The final clean-up never leaves a parenthesis. |
| LinkScraper.NoParentheses | link_scraper.py:151 | Deleting "(" and ")" and stripping leaves neither. |
| LinkScraper.AvailabilityPrefersExplicitQuantity | link_scraper.py:129-132 | A non-blank explicit quantity wins, with its parentheses removed. This includes the text "N/A". |
| LinkScraper.AvailabilityFromQuantityBox | link_scraper.py:135-138 | Without an explicit quantity, a non-blank quantity box decides, with its parentheses removed. |
| LinkScraper.NotAvailableIsClean | link_scraper.py:151 | "N/A" survives the parenthesis clean-up unchanged. |
| LinkScraper.AvailabilityPaused | link_scraper.py:140-144 | With both quantity elements blank, a shipping message saying "Anúncio pausado" gives that text. |
| LinkScraper.PausedIsClean | link_scraper.py:144-151 | "Anúncio pausado" survives the final clean-up unchanged. |
| LinkScraper.AvailabilityMissing | link_scraper.py:146-148 | With none of the three signs, the availability is "N/A". |
| LinkScraper.ScrapeLink | link_scraper.py:58-178 | `scrape_link` on the outcome of its request: the full record, or the placeholder on a `RequestException`. Its fields are stated by the lemmas above. |
| LinkScraper.ScrapeAll | link_scraper.py:192-195 | The records of the links in order. ScrapeAllOnePerLink states it. |
| LinkScraper.Row | link_scraper.py:154-178 | The dictionary of a record as the export writes it. UnreachableRow states the placeholder's keys. |
| LinkScraper.UnreachableRow | link_scraper.py:167-178 | A failed request still gives a row with exactly eight keys. It holds the URL and the time stamp, and "N/A" everywhere else. |
| LinkScraper.ScrapeAllAppend | link_scraper.py:192-195 | Scraping one more link appends exactly that link's record. |
| LinkScraper.ScrapeAllOnePerLink | link_scraper.py:192-195 | There is one record per link, in link order, and each carries its own URL. |
| LinkScraper.LinkScraper.constructor | link_scraper.py:11-14 | A new scraper holds the given links and no records. |
| LinkScraper.LinkScraper.ScrapeLinks | link_scraper.py:186-196 | `data` grows by exactly the records of all links, in order. The links are unchanged, and an empty list appends nothing. |
| NewMain.ExtractMlbCode | new_main.py:42-52 | `extract_mlb_code`: 14 characters from the first "MLB-", else the first match of `MLB[^#]*`, else "N/A". The MlbCode* lemmas state it. |
| NewMain.HashFrom | new_main.py:48-49 | The end of the `[^#]*` run is the first "#" at or after the start, or the end of the link. |
| NewMain.MlbCodeWithDash | new_main.py:45-47 | With "MLB-" present, the code is the slice at its first occurrence. It is at most 14 characters long and starts with "MLB-". |
| NewMain.MlbCodeWithoutDash | new_main.py:48-50 | Otherwise, the code runs from the first "MLB" up to the next "#" or the end. It holds no "#". |
| NewMain.HashAfterMlb | new_main.py:48-49 | The `[^#]*` run after "MLB" covers at least the three letters. |
| NewMain.MlbCodeMissing | new_main.py:50 | A link without "MLB" gives "N/A". |
| NewMain.MlbCodeDashWins | new_main.py:45-50 | "MLB-" wins over an earlier bare "MLB". |
| NewMain.DropFour | new_main.py:63 | `s[4:]`, empty for four characters or fewer. |
| NewMain.Seller | new_main.py:62-63 | The stripped seller text without its first four characters, capitalised, or "N/A". |
| NewMain.PreviousPriceText | new_main.py:66-70 | The struck-through price text, else the fraction's. `None` where `.text` raises. |
| NewMain.ImageLink | new_main.py:96 | "data-src", else "src", else "N/A". |
| NewMain.ScrapeProduct | new_main.py:54-114 | `scrape_product`: the record, or `None` where the handler returns `{}`. ScrapeProductDefined, ProductFields, ProductAdType and ProductImage state it. |
| NewMain.Row | new_main.py:99-111 | The dictionary `scrape_product` returns. |
| NewMain.ProductRowKeys | new_main.py:99-111 | The row has exactly the eleven columns of the source, holding the code, the date and the link. |
| NewMain.ScrapeProductDefined | new_main.py:54-114 | A fragment gives a record exactly when it has one of the two previous-price elements, the current price, an anchor with "href", and an image. |
| NewMain.ProductAdType | new_main.py:82-89 | The ad type is Premium exactly when the positive installments element exists. The installments come from that element, else from the primary one, else "N/A". |
| NewMain.ProductImage | new_main.py:95-96 | The image link is "data-src", else "src", else "N/A". |
| NewMain.ProductFields | new_main.py:58-108 | The record carries the link and its MLB code and normalised prices. The discount is stripped, or "0%" when absent. The title is capitalised, or "N/A" when absent. The seller is "N/A" when absent. The date is the run's time stamp. |
| NewMain.SellerDropsFour | new_main.py:62-63 | The seller is the stripped text without its first four characters, capitalised. |
| NewMain.ScrapeAt | new_main.py:141 | `scrape_product` at the run's time stamp, as a function of the fragment. |
| NewMain.Kept | new_main.py:142-143 | The record of a fragment when there is one, else nothing. |
| NewMain.Collect | new_main.py:140-143 | The kept records of fragments, in order. CollectSkipsOnlyFailures states it. |
| NewMain.ExtractAll | new_main.py:140-143 | The records `scrape_product` keeps for fragments. |
| NewMain.Scraper.constructor | new_main.py:20-22 | A new scraper holds the chosen base URL and no records. |
| NewMain.Scraper.Scraping | new_main.py:116-143 | `data` is the records of the listed fragments in order, skipping the fragments that failed. |
| NewMain.Scraper.AppendRecords | new_main.py:140-143 | The inner loop appends the records of one page's fragments, skipping failures. |
| NewMain.CollectPrefixStep | new_main.py:140-143 | Handling one more fragment appends its record when there is one. |
| NewMain.CollectStep | new_main.py:129-143 | Handling one more non-empty page appends that page's records. |
| NewMain.CollectAppend | new_main.py:140-143 | Collecting one more fragment appends only its own record, if any. |
| NewMain.CollectConcat | new_main.py:140-143 | Collecting distributes over concatenation. |
| NewMain.CollectSkipsOnlyFailures | new_main.py:140-143 | Every kept record comes from a fragment. There are never more records than fragments, and there are as many exactly when no fragment fails. |
| NewMain.ExtractAllSkipsOnlyFailures | new_main.py:140-143 | The same three facts hold for `scrape_product` on a page. |
| NewMain.CollectStopsAtEmptyPage | new_main.py:134-136 | Pages after the first empty one contribute nothing. |
| MainScraper.ImageLink | main.py:121-124 | `img["data-src"]`, else `img["src"]`. `None` where that raises too. |
| MainScraper.ExtractPost | main.py:80-140 | The inner loop body for one fragment: the record, or `None` where a lookup raises. ExtractPostDefined and PostFields state it. |
| MainScraper.Row | main.py:130-140 | The dictionary main.py builds. |
| MainScraper.MainRowKeys | main.py:130-140 | The row has nine columns. The ad type's key is "ad_type:", colon included, and there is no "ad_type" key. |
| MainScraper.Walk | main.py:80-143 | The records of fragments in order, up to the first that raises, and whether none did (the datatype `Run`). |
| MainScraper.ExtractPostDefined | main.py:80-124 | A fragment gives a record exactly when every unguarded lookup succeeds: title, previous price or fraction, current price, anchor "href", and image "data-src" or "src". |
| MainScraper.PostFields | main.py:80-140 | The record's title is the raw text and the seller is stripped or "N/A". Premium holds exactly when the positive installments exist. The installments are the stripped positive text, else the stripped primary text, else "N/A". The image is "data-src", else "src". The discount is stripped, or "0%" when absent, and the prices are normalised. |
| MainScraper.Scraper.constructor | main.py:20-25 | A new scraper holds the chosen base URL and no records. |
| MainScraper.Scraper.Scraping | main.py:43-143 | `data` holds one record per listed fragment, in order, up to the first fragment that raises. `completed` says whether none did, and the counter `c` is one more than the number of records. |
| MainScraper.Scraper.AppendPosts | main.py:80-143 | The inner loop appends records until a fragment raises and reports whether one did. It advances the counter once per record. |
| MainScraper.WalkConcat | main.py:80-143 | Walking two runs of fragments is walking the first, then the second only if the first completed. |
| MainScraper.WalkAppend | main.py:80-143 | One more fragment either appends its record or ends the run, keeping the records so far. |
| MainScraper.WalkPrefixStep | main.py:80-143 | The same step holds for a prefix of a page. |
| MainScraper.WalkAbortedPrefix | main.py:80-143 | Once a prefix raised, the rest of the page changes nothing. |
| MainScraper.WalkStep | main.py:62-143 | Handling one more non-empty page continues the run with that page's fragments. |
| MainScraper.WalkAbortsAt | main.py:62-143 | A failure on a page ends the whole walk there. |
| MainScraper.WalkCompleted | main.py:80-143 | The run completes exactly when every fragment yields a record. The records then match the fragments one for one. |
| MainScraper.WalkAborted | main.py:80-143 | An aborted run holds the records of the fragments before the first failing one, and that fragment yields none. |

## Left out

- HTTP requests are the `fetch` parameter. This covers the user agent, the timeout and `raise_for_status` (a `RequestException` is `FetchFailed`).
- BeautifulSoup parsing is the same parameter. It yields the element each lookup would find.
- The interactive menus and `input`, `read_csv`, and `export_to_csv` (pandas and the file system) are not part of this model. The links `read_csv` would set are the constructor's argument.
- `print` diagnostics are left out, because they have no effect on the data. `time.sleep` is left out for the same reason.
- `scrape_link_parallel` is left out. It uses a thread pool, and concurrency is not modelled.
- Python floats are modelled as exact decimals. `format_to_currency` rounds the binary double in Python, so two kinds of input can format differently:
  - a decimal value exactly on a half cent, which the double may hold slightly above or below the tie;
  - more than about 15 significant digits, which the double does not hold. "R$ 12.345.678.901.234.567" becomes "R$ 12.345.678.901.234.568,00" in Python and "R$ 12.345.678.901.234.567,00" here. "0,00499999999999999999" becomes "R$ 0,01" in Python and "R$ 0,00" here.
- Prices.ParseFloat: accepts only digits with at most one "." (at least one digit). A sign, an exponent, underscores, "inf" and "nan", which Python's `float` also accepts, are treated as refused and convert to 0.
- Text.Lower: case mapping covers ASCII and Latin-1 only. Other Unicode letters and the special folds of `re.IGNORECASE` are left unchanged.
- Text.Capitalize: the title case of a first letter outside Latin-1, and the lower case of later letters outside Latin-1, are left unchanged.
- LinkScraper.ScrapeAll: one time stamp is shared by the records of a call. In Python, each record reads the clock again.
- NewMain.ExtractAll: one time stamp is shared by the records of a call. In Python, each record reads the clock again.
- The inner page loops of both `scraping` methods are separate methods, parameterised by the per-fragment function. `scraping` passes `scrape_product` (at the run's time stamp) or `main.py`'s inline record builder.
- A failed request for a search page raises in both `scraping` methods and ends the run. The search-page `fetch` cannot fail, so that failure is not modelled.
- The three copies of `convert_to_float` and `format_to_currency` are identical and are modelled once, in `Prices`.
- The counter `c` of `main.py` is returned instead of being kept as a local that is thrown away.
- The `i` of `enumerate` in both page loops is only printed, and is not modelled.
