# lead-scraper decision logic in Dafny

This project models the decision logic of a lead-scraping pipeline and proves properties of it.

The pipeline does four things:
- It waits for a places-scraping job.
- It filters the scraped places against the leads already in a Google Sheet.
- It enriches new leads with contacts found on their websites.
- It appends them to the sheet.

Separate passes sanitise the sheet:
- remove duplicate names;
- clear dead Instagram and Facebook links;
- list the stored emails.

A companion script groups Google Maps reviews by place and counts them.

Every remote service is a parameter of the model:
- the HEAD request of the link verifier: `probe: string -> Probe`;
- the page fetch of the website scraper: `fetch: string -> FetchResult`;
- the MX lookup: `hasMx: string -> bool`;
- the job-status answers: a finite sequence `polls`;
- the review dataset: a sequence of JSON objects;
- pydantic's acceptance of a review beyond its place id and `text`: `valid`.

Modules, one per concern of the source:

| module | file | models |
|---|---|---|
| `Wrappers` | wrappers.dfy | `Option` and `Result` |
| `Seqs` | seqs.dfy | mapping a function over a list, as the list comprehensions do |
| `Text` | text.dfy | the `str` methods the code relies on: `strip`, `lower`, `in`, `startswith`, `endswith`, `replace` with an empty replacement |
| `LinkVerification` | link_verification.dfy | `verify_instagram` and `verify_facebook` |
| `EmailValidation` | email_validation.dfy | `validate_format`, `validate_domain`, `validate_email` |
| `ContactExtraction` | contact_extraction.dfy | `scrape_website`, with hand-written scanners for its four fixed patterns |
| `Workflow` | workflow.dfy | `_clean_phone`, `_filter_new_leads`, `_enrich_leads` |
| `JobPolling` | polling.dfy | `_wait_for_completion` |
| `Sheets` | sheets.dfy | the worksheet as a class, and `GoogleSheetsService`'s `remove_duplicates`, `verify_and_clean_links`, `get_all_emails`, `append_leads`, `read_leads` |
| `ReviewScraper` | reviews.dfy | `validate_place_ids`, the grouping in `get_google_maps_reviews`, `from_raw_data`, `get_google_maps_review_texts` |

Code that changes state in loops is written as methods. Each method is proved equal to a specification function, and the lemmas state what the source promises about that function. This covers:
- the filter, enrichment and poll loops;
- the sheet passes;
- the review accumulation.

The worksheet is a class. Its `values` field is the cell table that `get_all_values()` returns. Its `writes` field counts write requests, so write-avoidance can be stated.

## Model

| member | source | states |
|---|---|---|
| Text.Strip | src/main.py:188-190 | The result has no leading or trailing whitespace and is no longer than the input. |
| Text.StripEmptyIffAllSpace | src/main.py:188 | A string strips to empty exactly when every character is whitespace. |
| Text.TrimStartRemovesSpace | src/main.py:188-190 | What the left half of `strip()` drops is whitespace. |
| Text.TrimEndRemovesSpace | src/main.py:188-190 | What the right half of `strip()` drops is whitespace. |
| Text.StripOffset | src/main.py:188-190 | The stripped text is a slice of the input with only whitespace on either side. |
| Text.StripIdempotent | src/main.py:454 | Stripping twice is stripping once. |
| Text.Lower | src/main.py:130 | Same length, and each character is lower-cased. |
| Text.LowerIdempotent | src/main.py:130-131 | Lower-casing twice is lower-casing once. |
| Text.Contains | src/main.py:131 | `sub in s` holds exactly when `sub` occurs at some position of `s`. |
| Text.RemoveChar | src/main.py:549 | The character is gone, and every other character keeps its count. An input without it is returned unchanged. |
| Text.RemoveCharConcat | src/main.py:549 | Removing from a concatenation removes from each part, so the kept characters stay in order. |
| Text.RemoveCharSingle | src/main.py:549 | One character is dropped when it is the removed one and kept otherwise. With `RemoveCharConcat` this fixes the result on every string. |
| LinkVerification.Verify | src/main.py:111-175 | An accepted link is not blank, and its request answered with a status below 400. |
| LinkVerification.BlankRejectedWithoutProbe | src/main.py:113-114 | A blank or whitespace-only URL is rejected whatever the network would answer. |
| LinkVerification.VerifyAccepts | src/main.py:116-143 | Accepted iff not blank, the request did not fail, status < 400, and the lower-cased final URL neither contains the login marker nor ends with the home page. |
| LinkVerification.VerdictIgnoresCase | src/main.py:130 | The verdict does not depend on the case of the final URL. |
| LinkVerification.FacebookLoginRuleIsStricter | src/main.py:131-163 | A final URL that Instagram rejects as a login page (line 131) is rejected by the Facebook rule (line 163) too. |
| LinkVerification.InstagramHomepageRejected | src/main.py:130-133 | A redirect to `https://www.Instagram.com/` with status 200 is rejected. |
| EmailValidation.MatchesEmailPattern | src/main.py:182-184 | The recogniser accepts exactly the language `local@domain.tld` of the pattern, with a tld of at least 2 characters over `[A-Za-z\|]`. |
| EmailValidation.ValidateFormat | src/main.py:186-190 | True iff the stripped string is non-empty and in the pattern's language. |
| EmailValidation.OnlyOneAt | src/main.py:183 | A string in the pattern's language has exactly one `@`, and no dot after the tld's dot. |
| EmailValidation.SingleAt | src/main.py:188-190 | A valid email has exactly one `@`, surrounding whitespace included. |
| EmailValidation.SplitAtSingle | src/main.py:198 | Splitting on a character that occurs once gives the text before it and the text after it. |
| EmailValidation.DomainQueried | src/main.py:194-201 | For a valid email, the domain queried is everything after its only `@`. |
| EmailValidation.SplitIsValid | src/main.py:182-190 | A string that already reads `local@domain.tld`, with the allowed characters in each part, passes the format check. |
| EmailValidation.ValidHasAt | src/main.py:183 | Every valid email contains `@`. |
| EmailValidation.FormatAloneWithoutDomainCheck | src/main.py:209-215 | `validate_email(e, False) == validate_format(e)` |
| EmailValidation.DomainCheckFailsClosed | src/main.py:192-215 | With the domain check, valid iff the format is valid and the MX lookup of the domain succeeds. |
| EmailValidation.NoAtRejected | src/main.py:186-190 | A string without `@` is never valid. |
| EmailValidation.NotAnEmailRejected | src/main.py:183 | `"not-an-email"` is rejected. |
| EmailValidation.UserAtExampleAccepted | src/main.py:183 | `"user@example.com"` passes without the domain check. |
| ContactExtraction.RunEnd | src/main.py:251-254 | The greedy run: every character in it matches, and the next one does not. |
| ContactExtraction.CaptureAt | src/main.py:251-254 | The capture at a position comes from a marker of the alternation; absent when no marker matches there. |
| ContactExtraction.ProfileStart | src/main.py:251-254 | A profile match starts with its marker and then a handle character. |
| ContactExtraction.FirstCapture | src/main.py:256-266 | The handle after the first marker occurrence that a handle character follows; `None` exactly when there is no such occurrence. |
| ContactExtraction.FirstCaptureIsFirstMatch | src/main.py:250-266 | With the optional `https?://` and `www.` prefixes included, the scan returns the capture of the pattern's leftmost match, and `None` exactly when the pattern matches nowhere. |
| ContactExtraction.ProfileMarkersOk | src/main.py:250-254 | The three profile patterns meet that lemma's condition: no marker starts with a prefix character, and the two LinkedIn markers differ at a common position. |
| ContactExtraction.LastBoundary | src/main.py:243 | The largest end in range at which `\b` holds, or none. |
| ContactExtraction.BestLabelEnd | src/main.py:243 | The longest `{2,}` label that ends on a word boundary. |
| ContactExtraction.DotSearch | src/main.py:243 | The rightmost usable dot before the tld, found by backtracking. |
| ContactExtraction.MatchFromSound | src/main.py:243 | What the scanner finds at a start position is a match of the email pattern there. |
| ContactExtraction.MatchShape | src/main.py:243 | In any match the `@` ends the local run, and the dot lies inside the domain run. |
| ContactExtraction.MatchFromComplete | src/main.py:243 | When the scanner finds nothing, no match starts at that position. |
| ContactExtraction.EmailFromCorrect | src/main.py:243-246 | The scan returns the leftmost match, and the one the engine prefers there; none when there is no match. |
| ContactExtraction.NoMatchPastEnd | src/main.py:243 | No match starts beyond the end of the text. |
| ContactExtraction.FirstEmail | src/main.py:243-246 | `None` exactly when the page holds no match; otherwise the text of the first match. |
| ContactExtraction.WithSchemeAddsHttps | src/main.py:231-233 | The fetched URL has an http(s) scheme; only a missing scheme is added, as `https://`; adding is idempotent. |
| ContactExtraction.ExtractedEmailIsValid | src/main.py:242-246 | Every email extracted passes `validate_format`. |
| ContactExtraction.MatchIsValidEmail | src/main.py:243 | Every match of the extraction pattern passes `validate_format`. |
| ContactExtraction.InstagramCanonical | src/main.py:256-259 | An Instagram result is `https://instagram.com/` followed by a handle captured from the page. |
| ContactExtraction.LinkedInAlwaysCompany | src/main.py:266-270 | A LinkedIn result always starts with `https://linkedin.com/company/`, even for an `/in/` profile. |
| ContactExtraction.FailedFetchGivesNothing | src/main.py:273-276 | A failed fetch leaves all four fields `None`. |
| Workflow.CleanPhone | src/main.py:548-549 | The cleaned phone holds exactly the phone's characters other than `+` and space, each as often as in the phone. |
| Workflow.CleanPhoneConcat | src/main.py:548-549 | Cleaning a concatenation cleans each part, so the digits keep their order. |
| Workflow.CleanPhoneSingle | src/main.py:548-549 | On one character, `+` and space are dropped and everything else is kept. |
| Workflow.CleanPhoneIdempotent | src/main.py:548-549 | Cleaning a cleaned phone changes nothing. |
| Workflow.FilterNewLeads | src/main.py:551-601 | The loop returns the leads of the single-pass selection over the batch. |
| Workflow.KeysOfLeads | src/main.py:591-592 | A key is in the accumulated sets exactly when some accepted lead carries it. |
| Workflow.SelectSplit | src/main.py:566-592 | Filtering a batch in two parts: the second part starts from the first part's grown key sets. |
| Workflow.SelectedKeysUnique | src/main.py:574-592 | Selected leads have pairwise distinct phones and names, and none was known before. |
| Workflow.SelectedInOrder | src/main.py:566-589 | Selected leads are eligible candidates' leads at increasing positions. |
| Workflow.SelectNothingWhenCovered | src/main.py:574-577 | Once the selected keys are known, the same candidates select nothing. |
| Workflow.AcceptanceRule | src/main.py:566-592 | Item `i` is accepted iff it has a phone, a non-empty stripped title, and neither key is known or taken by an earlier item of the batch. |
| Workflow.NewLeadsUnique | src/main.py:574-592 | No two new leads share a cleaned phone or a normalised name, and none collides with the sheet. |
| Workflow.NewLeadsFromItems | src/main.py:566-589 | New leads come from eligible items in input order. Each title is non-empty and stripped. Each phone is the cleaned input phone, with no `+` or space. The contact fields are `""`. |
| Workflow.PhoneSetGrows | src/main.py:554-556 | More Phone cells never remove a known phone key. |
| Workflow.NameSetGrows | src/main.py:559-563 | More Name cells never remove a known name key. |
| Workflow.PhoneCellsCovered | src/main.py:554-556 | Writing the new leads' phones into the Phone column makes their keys known. |
| Workflow.PhoneCellKnown | src/main.py:554-556 | One written phone is a known key. |
| Workflow.NameCellsCovered | src/main.py:559-563 | Writing the new leads' titles into the Name column makes their keys known. |
| Workflow.NameCellKnown | src/main.py:559-563 | One written title is a known key. |
| Workflow.RerunAddsNothing | src/main.py:551-601 | Filtering the same batch again, with its new leads added to the columns, returns nothing. |
| Workflow.FilterNewLeadsAsWritten | src/main.py:549-571 | As written, the filter succeeds iff no existing lead is given and no item raises. An item raises on a `null` or non-string title (`.strip()`), or on a truthy non-string phone with a non-blank title (`_clean_phone`'s `replace`). On failure, the error is that of the first item that raises. |
| Workflow.FirstCrash | src/main.py:565-571 | The first raising item in dataset order decides the exception, and there is none iff no item raises. |
| Workflow.CrashAt | src/main.py:565-571 | Any raising item makes the call raise, with its own error when no earlier item raised. |
| Workflow.AnyExistingLeadCrashes | src/main.py:559-562 | Any existing lead makes the code read `lead.Name`, which raises. |
| Workflow.NullTitleCrashes | src/main.py:568 | A `null` title raises on `.strip()`. The corrected reading treats it as missing: the item is not eligible. |
| Workflow.NonStringTitleCrashes | src/main.py:568 | A title that is a number, a boolean, a list or an object raises on `.strip()`. The corrected reading skips the item. |
| Workflow.NonStringPhoneCrashes | src/main.py:549-571 | A truthy non-string phone with a non-blank title reaches `_clean_phone` and raises on `replace`. The corrected reading skips the item. |
| Workflow.FalsyNonStringPhoneSkipped | src/main.py:566-570 | A falsy non-string phone fails `if phone and title` and is skipped without an exception. |
| Workflow.AsWrittenAgreesWhenItReturns | src/main.py:551-601 | Whenever the code as written returns, it returns the corrected filter's result. |
| Workflow.EnrichLeads | src/main.py:603-616 | One lead out per lead in, each enriched as `Enriched` defines. |
| Workflow.EnrichKeepsIdentity | src/main.py:606-614 | Enrichment changes only the contact fields, so keys stay distinct. |
| Workflow.EnrichedContacts | src/main.py:606-614 | Without a website a lead is unchanged. Otherwise the email is `""` or valid, and each social link is `""` or starts with its canonical prefix. |
| JobPolling.DecideAsWritten | src/main.py:621-630 | As written, an answer ends the wait iff its request failed or its status is `SUCCEEDED`. A failed request gives the request error; a dataset id is returned only when present. |
| JobPolling.Decide | src/main.py:618-630 | The corrected step also ends the wait on `FAILED`, `ABORTED` and `TIMED-OUT`, reporting the state; a failed request still gives the request error. |
| JobPolling.WaitIsFirstDecision | src/main.py:620-630 | The wait ends with the decision of the first answer that does not say to go on. |
| JobPolling.WaitContinues | src/main.py:620-630 | The wait goes on exactly while every answer says to go on. |
| JobPolling.WaitForCompletion | src/main.py:618-630 | The loop returns the first terminal decision and how many answers it consumed. |
| JobPolling.FailedJobPolledForever | src/main.py:620-630 | As written, a job reporting `FAILED` is polled through every answer; the corrected step ends with that state. |
| JobPolling.AgreesWithoutFailure | src/main.py:620-630 | Without failed states, the corrected wait equals the wait as written. |
| JobPolling.SucceededWithoutDataset | src/main.py:623-627 | Success without a dataset id is an error, never a dataset id. |
| JobPolling.FailedRequestEndsWait | src/main.py:83-91 | A status request that raises ends the wait with that error, as written and corrected alike; it is not retried. |
| Sheets.Worksheet.constructor | src/main.py:288-302 | The worksheet starts with the given cells and no writes. |
| Sheets.Worksheet.Clear | src/main.py:419 | Clearing empties the table with one write. |
| Sheets.Worksheet.Update | src/main.py:420 | Writing to a cleared sheet puts exactly the given rows there, with one write. |
| Sheets.Worksheet.AppendRow | src/main.py:343 | One row is added at the end, with one write. |
| Sheets.Worksheet.AppendRows | src/main.py:369-372 | The rows are added at the end, in order, with one write. |
| Sheets.KeepFirstIsFilter | src/main.py:394-410 | The kept entries are exactly those at kept positions, in their original order. A position is kept when its row has an empty key, or a key not seen at any earlier position. |
| Sheets.KeptKeysDistinct | src/main.py:399-407 | The non-empty keys of the kept rows are pairwise distinct. |
| Sheets.DedupBalance | src/main.py:394-410 | Each data row is kept, counted as a duplicate, or dropped as an empty row. |
| Sheets.NoDuplicatesIff | src/main.py:405-410 | No duplicate is counted exactly when every keyed row is kept. |
| Sheets.DedupIdempotent | src/main.py:374-425 | Deduplicating the kept rows again finds no duplicate and keeps them all. |
| Sheets.KeepAllWhenDistinct | src/main.py:394-410 | Without empty rows or duplicates, every row is kept. |
| Sheets.DedupPass | src/main.py:390-410 | The loop returns the kept rows and the duplicate count that `KeepFirst` and `Duplicates` define. |
| Sheets.GoogleSheetsService.RemoveDuplicates | src/main.py:374-425 | The header plus the kept rows are written back iff the sheet has data rows and a duplicate was found; otherwise the sheet and its write count are untouched. |
| Sheets.LastHeader | src/main.py:474-480 | The last header whose lower-cased text matches; none when no header matches. |
| Sheets.FindSocialColumns | src/main.py:474-480 | The header loop finds the last Instagram and the last Facebook column. |
| Sheets.Padded | src/main.py:494-495 | The row keeps its cells and is extended with `""` to the header's width. |
| Sheets.PadRow | src/main.py:494-495 | The padding loop gives the padded row. |
| Sheets.CheckColumn | src/main.py:500-519 | A platform check clears the cell and counts 1 iff the stripped cell is non-empty and rejected. |
| Sheets.CleanOneRow | src/main.py:492-521 | The loop body gives the cleaned row and the number of links it cleared. |
| Sheets.CleanStep | src/main.py:492-521 | One more row extends the cleaned rows and the count by that row's share. |
| Sheets.CleanPass | src/main.py:488-523 | The loop gives the cleaned rows and the total number of cleared links. |
| Sheets.SumZeroIff | src/main.py:523-524 | The total is 0 iff every row's count is 0. |
| Sheets.CleanRowCells | src/main.py:494-519 | Only the Instagram and Facebook cells of the padded row change. They change only to `""`, and exactly when their stripped text is non-empty and the verifier rejects it. |
| Sheets.RowClearsZeroIffUnchanged | src/main.py:500-519 | A row clears no link iff it comes back exactly as padded. |
| Sheets.ClearedCountZeroIff | src/main.py:523-526 | No link is cleared iff no row clears one. |
| Sheets.LinksRewriteIff | src/main.py:466-534 | The sheet is rewritten iff it has data rows, an Instagram or Facebook column, and a row whose cleaned form differs from the padded original. |
| Sheets.CleanedTableShape | src/main.py:490-521 | The written table keeps the header and the row count. Each data row is padded to at least the header width, and each cell is the padded original or `""`. |
| Sheets.NoSocialColumnsNoRewrite | src/main.py:482-484 | Without an Instagram or Facebook column the sheet is never rewritten. |
| Sheets.CleanRowStable | src/main.py:492-521 | Cleaning a cleaned row again clears nothing and returns the row unchanged. |
| Sheets.CleanRowsStable | src/main.py:492-523 | A second pass over the cleaned rows clears nothing. |
| Sheets.CleanTwiceNoRewrite | src/main.py:461-536 | Running the pass again on the table it wrote does not rewrite the sheet. |
| Sheets.InstagramHomepageCleared | src/main.py:500-507 | With the real verifier, an Instagram cell whose request lands on the bare home page is cleared. |
| Sheets.GoogleSheetsService.VerifyAndCleanLinks | src/main.py:461-536 | The cleaned table is written back iff the rewrite condition holds; otherwise the sheet and its write count are untouched. |
| Sheets.FirstHeader | src/main.py:440-444 | The first header whose lower-cased text matches, with no match before it; none when none matches. |
| Sheets.FindEmailColumn | src/main.py:440-444 | The loop with `break` finds the first Email column. |
| Sheets.FirstHeaderIsFirstMatch | src/main.py:440-444 | The first-match property determines the column uniquely. |
| Sheets.CollectEmails | src/main.py:451-456 | The row loop returns the column's emails. |
| Sheets.FlattenMember | src/main.py:451-456 | An email is collected iff one row contributes it. |
| Sheets.FlattenConcat | src/main.py:452-456 | The rows are collected in turn. |
| Sheets.FlattenBound | src/main.py:452-456 | Each row contributes at most one email. |
| Sheets.ColumnEmailsStripped | src/main.py:454-456 | Every returned email is non-empty and already stripped. |
| Sheets.CellEmailStripped | src/main.py:454-456 | A row's contribution is non-empty and stripped. |
| Sheets.ColumnEmailsAreCells | src/main.py:452-456 | A text is returned iff it is the non-blank stripped cell of the column in some row that reaches the column. |
| Sheets.ColumnEmailsConcat | src/main.py:452-456 | The emails of two blocks of rows are the first block's followed by the second's, so row order is kept. |
| Sheets.ColumnEmailsBound | src/main.py:452-456 | There are no more emails than data rows. |
| Sheets.FirstEmailColumnWins | src/main.py:440-444 | With several Email columns, the one read is at or before any given match. |
| Sheets.GoogleSheetsService.GetAllEmails | src/main.py:427-459 | The method returns the sheet's emails: none for a sheet without data rows or without an Email column. |
| Sheets.BuildRows | src/main.py:360-367 | The loop builds one row per lead, one cell per header. |
| Sheets.DefaultRowLayout | src/main.py:333-358 | Under the default headers, a lead's row lists its eight fields in fixed order. |
| Sheets.AppendShape | src/main.py:324-372 | Existing rows are kept. A header row is added first when the sheet has none. Then one row per lead follows, as wide as the headers. |
| Sheets.GoogleSheetsService.AppendLeads | src/main.py:324-372 | No leads: nothing is written. Otherwise the default header row (only if missing) and the lead rows are appended, with 2 writes or 1. |
| Sheets.LastExact | src/main.py:315-318 | The last header equal to the name, so a later duplicate header wins; none iff no header is equal. |
| Sheets.ColumnCells | src/main.py:313-318 | One cell per data row; a row too short for the column gives `None`. |
| Sheets.ReadLeads | src/main.py:304-322 | One existing lead per data row; `BusinessNeverRead` states which columns feed it. |
| Sheets.BusinessNeverRead | src/main.py:333-342 | A sheet with the default headers has no `Business` column, so no name is ever read back. |
| Sheets.AsWrittenCrashesOnAnySheetWithData | src/main.py:559-562 | As written, the filter raises as soon as the sheet holds one data row. |
| Sheets.ReadLeadRow | src/main.py:362-366 | A lead's row read back under a present header gives the lead's field. |
| Sheets.AppendedColumn | src/main.py:324-372 | After appending, a present column reads back as the old cells followed by the leads' fields. |
| Sheets.SecondRunAddsNothing | src/main.py:551-616 | Read Name and Phone, filter, enrich, append; then the same batch adds nothing. |
| ReviewScraper.ValidatePlaceIds | apify_review_scraper.py:35-43 | Accepted iff the list is non-empty with no blank id, and then returned unchanged. Otherwise it fails with the empty-list error first, then the blank-id error. Inside `ScraperConfig` the field's `min_length=1` (line 31) rejects `[]` before this validator runs, so a caller never sees the empty-list message. |
| ReviewScraper.WhitespaceIdRejected | apify_review_scraper.py:40-42 | A whitespace-only id is rejected. |
| ReviewScraper.DistinctIds | apify_review_scraper.py:118 | The dict's keys are the configured ids, each once, in order. |
| ReviewScraper.ItemsForConcat | apify_review_scraper.py:120-123 | Items are filed in dataset order. |
| ReviewScraper.ItemsForMembers | apify_review_scraper.py:121-123 | A list holds exactly the dataset items whose `placeId` is its id. |
| ReviewScraper.GroupedShape | apify_review_scraper.py:118-123 | Grouping fails with `TypeError` iff some item's `placeId` is a list or an object, which `place_id in results` cannot hash. Otherwise it is the filing `Filed` of the items. |
| ReviewScraper.FiledShape | apify_review_scraper.py:118-123 | The filing's keys are exactly the configured ids, lists hold only their place's items, and an item of an unconfigured place is in no list. |
| ReviewScraper.GroupByPlace | apify_review_scraper.py:118-123 | The loop builds the grouping, or stops with the `TypeError` at the first unhashable `placeId`. |
| ReviewScraper.TextNeverOverwritten | apify_review_scraper.py:63-64 | An existing `text` is never replaced; other keys are unchanged; `text` is present afterwards iff `text` or `reviewText` was. |
| ReviewScraper.ReviewTextFallback | apify_review_scraper.py:63-66 | A review with only `reviewText` gets that text. |
| ReviewScraper.ParsedReviewsConcat | apify_review_scraper.py:60-69 | Failures are skipped, and the parsed reviews keep their order. |
| ReviewScraper.ParsedReviewsFromItems | apify_review_scraper.py:60-69 | Each parsed review comes from an item, at most one per item; none is lost when all parse. |
| ReviewScraper.FromRawDataShape | apify_review_scraper.py:53-78 | Every input place is a key, even with an empty list. The totals count the places and the reviews, and no list grows. |
| ReviewScraper.ParseReviews | apify_review_scraper.py:59-69 | The inner loop parses one place's items. |
| ReviewScraper.ParsePlaces | apify_review_scraper.py:55-72 | The outer loop fills every key and sums the list lengths. |
| ReviewScraper.BuildReviewsResponse | apify_review_scraper.py:53-78 | The method builds the response `FromRawData` defines. |
| ReviewScraper.TotalLengthExtend | apify_review_scraper.py:72 | A new key adds its list's length to the total. |
| ReviewScraper.TotalLengthUnchanged | apify_review_scraper.py:72 | The total reads only its keys' lists. |
| ReviewScraper.ReviewsFiledUnderTheirPlace | apify_review_scraper.py:118-126 | The call fails iff an item's `placeId` cannot be hashed. Otherwise there is one entry per distinct configured id, and each review is filed under the place it names. |
| ReviewScraper.ContainerPlaceIdRaises | apify_review_scraper.py:121-122 | One item whose `placeId` is a list or an object makes the whole call raise `TypeError`. |
| ReviewScraper.ParsedUnderPlace | apify_review_scraper.py:66 | Reviews parsed from one place's items name that place. |
| ReviewScraper.ParsedPlace | apify_review_scraper.py:66 | Parsing keeps the item's `placeId`, or its `place_id` when it has no `placeId`. |
| ReviewScraper.ParsePlaceLookup | apify_review_scraper.py:11-25 | With `populate_by_name`, the alias `placeId` is read when present and the field name `place_id` only without it. A non-string alias fails even when `place_id` is a string, and an item with neither fails. |
| ReviewScraper.PlaceIdByFieldName | apify_review_scraper.py:53-78 | `from_raw_data` turns an item that gives only `place_id` into a review. |
| ReviewScraper.TextsAreReviewTexts | apify_review_scraper.py:149 | The texts are exactly the non-empty texts of the reviews, no more of them than reviews. |
| ReviewScraper.TextsConcat | apify_review_scraper.py:149 | Texts keep the reviews' order. |
| ReviewScraper.TextsResponseShape | apify_review_scraper.py:145-157 | Same keys as the reviews. The totals count places and texts, and never exceed the review total. |
| ReviewScraper.TotalLengthMonotone | apify_review_scraper.py:151 | Shorter lists give a smaller total. |
| ReviewScraper.ReviewTexts | apify_review_scraper.py:145-157 | The method builds the texts response `TextsResponse` defines: same keys, each place's texts, their total and the place count. |
| ReviewScraper.TextsByPlace | apify_review_scraper.py:145-151 | The loop fills every place id with the texts of its reviews and sums their lengths. |
| ReviewScraper.CollectTexts | apify_review_scraper.py:149 | The comprehension over one place's reviews. |

## Left out

**Remote services and I/O**
- Every remote call is a parameter rather than a model: Apify, gspread, `requests.head`/`requests.get`, the DNS resolver and the Apify client.
- Credentials, logging, `print`, `time.sleep`, the CLI in `main()` and `save_reviews_to_json` are not modelled.
- `run()` is not modelled as an orchestration method. `Sheets.SecondRunAddsNothing` states its read, filter, enrich and append sequence as a lemma.
- JobPolling.WaitForCompletion: the unbounded `while True` is modelled over a finite sequence of status answers. An answer sequence that never ends is what `Continue` at its end stands for. A status request that raises is the answer `RequestFailed`.

**Scraped items**
- Workflow.LeadOf: `address` and `website` hold only an absent key, `null` or a string (`TextField`). In the source, any JSON value there is copied into the lead dict. A truthy non-string website then makes `scrape_website` raise inside its own `try` (src/main.py:228-274), so that lead keeps empty contacts. The model cannot represent such an item.

**Sheets**
- The verifier's answers are a fixed function of the URL. `Sheets.CleanTwiceNoRewrite` therefore assumes the network answers the same way both times.
- gspread's `get_all_values` pads and trims the rectangle, and `append_row` detects the table. The model takes `values` as returned and appends rows at the end of it. A sheet whose first row is empty gets its header row appended after its rows.
- Sheets.AppendShape: a lead's `address` or `website` that is `None` is written as an empty cell `""`. gspread's own handling of `None` is not modelled.
- `value_input_option="USER_ENTERED"` is not modelled: a cell that Sheets would parse as a formula or number is kept as text.
- `get_all_emails` and `verify_and_clean_links` match headers with `lower()`. The model's `Lower` covers ASCII only, so non-ASCII case folding is not modelled.
- Text.Lower: lower-cases ASCII letters only. Python also folds other characters, e.g. the Kelvin sign `'\u212A'` to `'k'`. So a final URL spelled with it passes `verify_instagram`'s `endswith("instagram.com/")` test in Python but not in the model.

**Mutation and aliasing**
- `_enrich_leads` mutates the lead dicts that `_filter_new_leads` returned.
- `from_raw_data` writes `text` into the grouped item dicts.
- `verify_and_clean_links` pads rows of `all_values` in place.
- The model works on values, so the aliasing is not captured. The results are the same.

**Text and patterns**
- `strip()` uses Python's full whitespace set. Only ASCII case folding is modelled, and `\b` and `\w` are the ASCII versions.

**Reviews**
- Pydantic validation of `Review` is an oracle (`valid`) beyond the place-id string (read from `placeId`, or `place_id` without it) and the `text` string-or-null checks. This includes the float `rating` bound and the other optional fields.
- `ScraperConfig`'s other field constraints are not modelled. Its `min_length=1` on `place_ids` rejects `[]` before `validate_place_ids` runs, so that validator's empty-list message never reaches a caller.

**Behaviour of the code worth knowing**
- The LinkedIn pattern's `(?:company|in)` also matches personal `/in/` pages, but line 269 always builds a `https://linkedin.com/company/` link (`ContactExtraction.LinkedInAlwaysCompany`).
- `_filter_new_leads` (src/main.py:574-577) rejects a candidate when either its cleaned phone or its lower-cased name is already known, not only when both are.
- Apify's `FAILED`, `ABORTED` and `TIMED-OUT` are terminal job states, but the loop at src/main.py:620-630 leaves only on `SUCCEEDED`; see the findings below.

## Findings

| source | as written | input that shows it | evidently intended | confidence | as-written member | corrected member |
|---|---|---|---|---|---|---|
| src/main.py:559-562 | `existing_names` reads `lead.Name`, but `ExistingLead` declares only `Business` and `Phone` (src/main.py:52-54), and the sheet's name column is headed `Name` | any sheet with a header row and one data row, e.g. `[["Name","Phone"],["Acme","1"]]`: `AttributeError` | known names are read from the sheet's Name column | high; not executed | Sheets.AsWrittenCrashesOnAnySheetWithData | Sheets.SecondRunAddsNothing |
| src/main.py:568 | `item.get("title", "").strip()` is evaluated for every item, and a JSON `null` title gives `None.strip()` | a scraped item `{"title": null, "phone": "1"}`: `AttributeError` | a `null` title is treated as missing and the item is skipped | high; not executed | Workflow.NullTitleCrashes | Workflow.NewLeadsFromItems |
| src/main.py:620-630 | only `SUCCEEDED` leaves the polling loop | a job whose status is `FAILED` on every poll: the loop never ends | `FAILED`, `ABORTED` and `TIMED-OUT` end the wait with an error | high; not executed | JobPolling.FailedJobPolledForever | JobPolling.WaitForCompletion |
