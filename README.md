# Logo crawler: candidate pipeline in Dafny

This project models the core of a web crawler that guesses a site's logo (`main.py`, class `Crawler`). The fetched page is given as a title and a sequence of elements. From it the crawler collects candidate image URLs from three kinds of tags:

- `<img>`, through `get_by_img`;
- the first `<img>` inside an `<a>`, through `get_by_a`;
- `<link>`, through `get_by_link`.

Each candidate is a row `website, ref, url, source, size`, appended to the object's `urls` table. `crawl` then deduplicates the table on `(ref, url)` and scores every row with `process`. The primary score comes from:

- twelve fuzzy keyword criteria;
- a -10 penalty for a missing label;
- a bonus when the label matches a piece of the page title;
- a -100 penalty for a URL without an image marker.

The secondary score is the larger of the URL's first `WxH` product and the row's size. The table is then sorted by `(score, score2)` descending. Outside debug mode only rows scoring above 10 are kept. Relative URLs are made absolute. `crawl` answers with the best URL, or the whole table in debug mode.

The model has these modules:

- `Wrappers`, `Strings`: Python's `None` and the string operations the code uses. These are `lower`, `startswith`, substring, `replace`, `strip`, `re.split` on a one-character class, and the whitespace tokens of a multi-valued attribute.
- `Numbers`: the first match of `(\d+)<sep>(\d+)` with the product of its groups, `float()` on an attribute string, and `int()` truncation.
- `Document`: the page, the element, the row, the image formats and markers.
- `Collectors`: what each tag contributes, and the two document walks, as functions.
- `Scoring`: `process` as the function `Score`, and the method `Process` that computes it with the title loop and its early exit.
- `Ranking`: deduplication, the stable sort, the filter, the URL fix-up and the answer.
- `Crawling`: the class `Crawler`.
  - Its fields are `urls`, `title`, `bareUrl`, `siteName` and `debug`.
  - Its collector methods append to `urls` and are proved equal to the collector functions.
  - `Crawl` is proved to leave the object in the state, and give the answer, that the `Ranking` functions describe: `urls` ends as the rows of the ranked table.

The fuzzy matcher `fuzz.partial_ratio` is a parameter `sim` of type `Similarity`: any function from two strings into 0..100. Every property below holds for all such matchers. The browser is not modelled. `Crawl` receives what `connect` produced: `None` when the page could not be read, otherwise the page title and document.

Notes on the source's behaviour, which the model follows:

- Scoring is by the twelve fuzzy criteria, the label and title terms and the marker penalty alone. No reference or URL gets a special score of its own, there are no exact-substring rules, no penalty for `<link>` rows and no minimum label length.
- The markers are the seven extensions, `<svg` and `data:`. `;base64,` and `.ico` are not markers.
- The title bonus is `int(45 * m / 100)`, which truncates, not `round`.
- The sort happens before the `score > 10` filter. Since the table is sorted by score first, the filter keeps a prefix of it.
- A relative URL is glued to the bare URL with no `/` inserted. `/img/logo.png` becomes `https://example.org/img/logo.png`, but `logo.png` becomes `https://example.orglogo.png`.
- A missing attribute is `None`, not the empty string. `<img>` URLs are neither lower-cased nor format-checked.
- `size` can be 0 or negative. `or 1` replaces only a missing or empty height or width.

## Model

| member | source | states |
|---|---|---|
| Strings.Lower | main.py:262-264 | lower-casing keeps the length and maps each character by the ASCII case mapping |
| Strings.LowerIsLower | main.py:124-129 | a lower-cased string has no capital letter, and lower-casing twice is lower-casing once |
| Strings.Contains | main.py:160 | definition of `p in s`: `p` is a prefix of `s` or of one of its suffixes; `ContainsAt` and `ContainsOccurs` prove it means "occurs at some position" |
| Strings.ContainsAt | main.py:160 | an occurrence of the pattern at some position makes the recursive substring test hold |
| Strings.ContainsOccurs | main.py:160 | conversely, the substring test holds only when the pattern occurs at some position |
| Strings.ReplaceAll | main.py:261-263 | definition of `str.replace`: non-overlapping occurrences replaced, scanning left to right; used for the scheme removal of `LocalBare` |
| Strings.RemoveChar | main.py:222 | `replace("-", "")` leaves no hyphen, never lengthens the string, and leaves a string without hyphens unchanged |
| Strings.RemoveCharAppend | main.py:222 | removal distributes over concatenation, so with `RemoveChar`'s contract the other characters are kept, in order |
| Strings.RemoveCharCount | main.py:222 | the result is shorter than the input by exactly the number of hyphens, so hyphens are deleted, not replaced |
| Strings.Strip | main.py:236 | `strip()`: neither end of the result is whitespace |
| Strings.StripMeaning | main.py:236 | the result of `strip()` is a slice of the input with only whitespace cut off before and after it, so together with `Strip`'s contract it is the input without its outer whitespace |
| Strings.StripNoSpace | main.py:236 | a string without whitespace is its own strip |
| Strings.FirstToken | main.py:162 | `rel[0]` is the first whitespace-free token of the raw `rel` value, preceded only by whitespace; it is absent exactly when the value is all whitespace |
| Strings.SplitOn | main.py:233 | the pieces of `re.split` on a character class hold no separator, and there is at least one |
| Strings.SplitOnRejoins | main.py:233 | splitting loses nothing: there is one more piece than separators, and interleaving them gives back the input |
| Numbers.RunEnd | main.py:153 | the end of the maximal digit run from a position |
| Numbers.RunMatchIsPattern | main.py:153 | the scanner's test for a match at a position agrees with the pattern read literally |
| Numbers.FirstMatchFrom | main.py:246 | the first match at or after a position: none exactly when the pattern matches nowhere from there; otherwise greedy, with no match before it |
| Numbers.FirstMatch | main.py:246 | the first match `re.findall` reports: none exactly when the pattern matches nowhere; otherwise both groups are maximal digit runs and no match starts earlier |
| Numbers.FirstMatchStartsRun | main.py:246 | the first match's first group is never preceded by a digit |
| Numbers.PatternExtendsLeft | main.py:246 | a digit just before a greedy match's first group would itself start a match |
| Numbers.PairProduct | main.py:246-247 | definition: the product of the two groups of the first match of `(\d+)<sep>(\d+)`, 1 when there is none; `FirstMatch` pins which match that is; the product is exact, not a product of doubles |
| Numbers.ParseFloat | main.py:97-100 | definition of `float()` on a string: surrounding whitespace, optional sign, digits with an optional fraction and exponent, None for the ValueError; `ParseFloatDigits`, `ParseFloatMinus` and `ParseFloatNegative` give its values |
| Numbers.ParseMantissaDigits | main.py:100 | digits without a point read as their decimal value |
| Numbers.ParseFloatMinus | main.py:100 | without surrounding whitespace, a leading minus negates the value of what follows |
| Numbers.ParseFloatDigits | main.py:100 | `float` of a digit string is its decimal value |
| Numbers.ParseFloatNegative | main.py:97-100 | `float` of a minus sign followed by digits is the negated value |
| Numbers.Trunc | main.py:100 | `int()` on a float truncates toward zero |
| Document.EndsWithFormat | main.py:124-129 | definition of `s.endswith(self.formats)` over the seven extensions |
| Document.HasMarker | main.py:159-160 | definition of `any(file_format in s ...)` over the extensions, `<svg` and `data:` |
| Document.FormatIsMarker | main.py:124-129 | a URL ending in an image extension contains a marker |
| Collectors.DimSize | main.py:97-102 | definition: `int(float(height) * float(width))` with `or 1` defaults and 1 for the ValueError; `DimSizeDefaults`, `DimSizeDigits` and `DimSizeNegative` give its values |
| Collectors.DimSizeDefaults | main.py:97-102 | a missing or empty dimension is a factor of 1 (the size is the other dimension's value, truncated, and 1 when both are missing), and an unparsable dimension gives size 1 |
| Collectors.DimSizeDigits | main.py:97-100 | digit-string dimensions multiply exactly |
| Collectors.DimSizeNegative | main.py:97-100 | a height of a minus sign followed by digits is kept, so with a missing width the size is that negative number |
| Collectors.LinkSize | main.py:152-157 | definition: the product of the first `NxM` of `sizes or "0"`, 1 without one |
| Collectors.LinkSizeDefault | main.py:152-157 | without `sizes`, or without an `NxM` in it, a link's size is 1 |
| Collectors.ImgRows | main.py:85-107 | definition of the rows `get_by_img` appends; `ImgRowsMeaning` states them |
| Collectors.ImgRowsMeaning | main.py:85-107 | an `<img>` yields nothing exactly when `src` is missing or empty; otherwise one row with source `<img>`, `ref = alt`, the raw `src` and the height-by-width size |
| Collectors.AnchorUrl | main.py:120-131 | definition of the `src` / `data-src` / `data-lazy-src` cascade; `AnchorUrlFirstQualifying` states its result |
| Collectors.AnchorUrlFirstQualifying | main.py:120-131 | the anchor URL comes from the first of `src`, `data-src`, `data-lazy-src` whose lower-cased value ends with an image extension, lower-cased; it is absent exactly when none qualifies |
| Collectors.AnchorRows | main.py:109-143 | definition of the rows `get_by_a` appends; `AnchorRowsMeaning` states them |
| Collectors.AnchorRowsMeaning | main.py:109-143 | an anchor yields nothing without a nested image or a qualifying URL; otherwise one `<a> <img>` row with the image's `alt`, the chosen URL and its size |
| Collectors.LinkOutcome | main.py:150-164 | definition of what one `<link>` contributes: nothing, a row, or the IndexError of `rel[0]`; `LinkOutcomeCases` states when each happens |
| Collectors.LinkOutcomeCases | main.py:149-164 | a `<link>` yields a row exactly when `rel` and `href` are present, `href` contains a marker and `rel` has a token; the row's `ref` is that token and its URL the raw `href`; it raises exactly when `rel` has no token instead |
| Collectors.ScanSteps | main.py:149-164 | definition of the loop over the links: rows accumulate until the first link that raises; `ScanStepsRaises`, `ScanStepsRows` and `ScanStepsStops` state it |
| Collectors.ScanStepsSnoc | main.py:149-164 | one more link extends a loop that has not raised by what that link contributes |
| Collectors.ScanStepsRaises | main.py:149-164 | the loop raises exactly when one of its links raises |
| Collectors.ScanStepsRows | main.py:161-164 | every row the loop appends is the row of one of its links |
| Collectors.ScanStepsStops | main.py:149-164 | after a link raises, later links do not matter |
| Collectors.StepsAppend | main.py:149 | the links of two concatenated documents are the links of the first followed by those of the second |
| Collectors.LinkScan | main.py:145-164 | definition of `get_by_link` over the page's elements in document order |
| Collectors.LinkScanRaises | main.py:149-164 | the `<link>` walk raises exactly when some `<link>` has a marked `href` and a `rel` without tokens |
| Collectors.LinkScanSnoc | main.py:149-164 | the `<link>` walk over a document extended by one element |
| Collectors.LinkScanStops | main.py:149-164 | the `<link>` walk ends at the first link that raises |
| Collectors.ElementRows | main.py:277-281 | definition of the dispatch on tag name: anchors to `AnchorRows`, images to `ImgRows`, anything else nothing |
| Collectors.TagRows | main.py:276-281 | definition of the rows of the `<a>`/`<img>` walk, in document order |
| Collectors.TagRowsSnoc | main.py:276-281 | the `<a>`/`<img>` walk over a document extended by one element appends that element's rows |
| Collectors.CollectedWellFormed | main.py:85-164 | every collected row carries the bare URL and has its collector's shape: an `<img>` URL is non-empty; an `<a> <img>` URL is lower case and ends with an extension; a `<link>` URL holds a marker and its `ref` is a non-empty token |
| Collectors.TagRowsWellFormed | main.py:276-281 | every row of the `<a>`/`<img>` walk has its collector's shape |
| Collectors.MarkerUnlessImg | main.py:241-243 | `<a> <img>` and `<link>` rows never take the -100 penalty; only `<img>` rows can |
| Scoring.Criteria | main.py:205-218 | definition: the twelve `(keyword, points, column)` criteria in source order, with the site name and bare URL of the context |
| Scoring.CriteriaPositive | main.py:205-218 | each of the twelve criteria is worth a positive number of points |
| Scoring.CriteriaTotal | main.py:205-218 | the twelve criteria are worth 193 points together |
| Scoring.Points | main.py:224-228 | definition: the sum of the points of the criteria whose column is present and matches the keyword at 90 or more |
| Scoring.PointsRange | main.py:224-228 | with positive points, the sum over the criteria that fire lies between 0 and their total |
| Scoring.PointsExtremes | main.py:224-228 | the sum is 0 exactly when no criterion fires, and the full total exactly when all of them fire |
| Scoring.Segments | main.py:233 | the title's pieces are followed by the whole title as the last segment |
| Scoring.Matches | main.py:234-236 | one similarity per segment, in segment order: that of the lower-cased label and the stripped segment, in 0..100 |
| Scoring.Bonus | main.py:237-238 | a segment that matches contributes between 38 and 45 |
| Scoring.BonusRange | main.py:238 | 45% of a similarity of at least 85, truncated, lies in 38..45 |
| Scoring.TitleBonus | main.py:233-239 | over the segments' similarities, the title bonus is 0 or between 38 and 45 |
| Scoring.FirstHitIndex | main.py:234-239 | the loop stops at the first similarity of at least 85, or runs to the end when there is none |
| Scoring.TitleBonusFirstHit | main.py:233-239 | the bonus is the contribution of the first matching segment alone, and 0 exactly when no segment matches |
| Scoring.TitleBonusStep | main.py:234-239 | one step of the loop: the bonus of the remaining segments is decided by the next similarity, or by those after it when it is below 85 |
| Scoring.TitleLoop | main.py:233-239 | the title loop with its early exit computes exactly `TitleBonus` of the segments' similarities |
| Scoring.LabelAdjustment | main.py:230-239 | the label branch gives -10 without a label and the title loop's bonus otherwise |
| Scoring.UrlSeparatorsDigitFree | main.py:246 | the URL pattern's separators are not digits |
| Scoring.LabelPoints | main.py:230-239 | definition: -10 for a missing or empty label, otherwise the title bonus of the lower-cased label |
| Scoring.MarkerPenalty | main.py:241-243 | definition: -100 for a URL without a marker, 0 otherwise |
| Scoring.SizeScore | main.py:246-248 | definition: the larger of the URL's first `WxH` product (1 without one) and the size |
| Scoring.CopyScore | main.py:224-250 | definition: the scores of the hyphen-free copy, criterion points plus label term plus marker penalty, and `SizeScore` |
| Scoring.Score | main.py:193-250 | definition of `process(row)`: `CopyScore` of the copy with hyphens removed from a non-empty `ref`; the lemmas below state its bounds and cases |
| Scoring.ScoreBounds | main.py:224-243 | the primary score lies in -110..238 |
| Scoring.UnlabelledUnmatchedDropped | main.py:224-243 | a row without a label that matches no criterion scores at most -10, so it is always filtered out; exactly -110 without a marker |
| Scoring.UnlabelledCapped | main.py:230-239 | a row without a label gets no title bonus, so it scores at most 183 |
| Scoring.ScoreIgnoresHyphens | main.py:220-222 | labels that agree once hyphens are removed score the same |
| Scoring.Score2Meaning | main.py:246-248 | `score2` is the larger of the size and the URL's first `WxH` product (1 without one); it is never below the size and never negative |
| Scoring.Process | main.py:193-250 | the scorer, with its title loop and early exit, computes the scores of the function `Score` |
| Ranking.FirstIndices | main.py:292 | the first-occurrence positions, in increasing order, include every first occurrence |
| Ranking.FirstOccurrence | main.py:292 | every key's first occurrence is at or before any of its occurrences |
| Ranking.Dedupe | main.py:292 | definition: the rows at `FirstIndices`; the `Dedupe` lemmas below state what survives |
| Ranking.DedupeSize | main.py:287-292 | deduplication never lengthens the table, and empties only an empty table |
| Ranking.DedupeDistinct | main.py:292 | no two surviving rows share `(ref, url)` |
| Ranking.DedupeKeepsKeys | main.py:292 | every `(ref, url)` of the input survives |
| Ranking.DedupeKeepsFirst | main.py:292 | each survivor is the first row of the input with its key |
| Ranking.DedupeOrder | main.py:292 | survivors keep their input order |
| Ranking.ScoreAll | main.py:293 | every row gets the scores of `process`, and the stored row, with its `ref`, is unchanged |
| Ranking.Insert | main.py:294-295 | definition: a row goes behind every row not strictly below it |
| Ranking.SortDesc | main.py:294-295 | definition: the stable descending sort by insertion; `SortDescProperties` and `SortDescStable` state it |
| Ranking.InsertPermutation | main.py:294-295 | inserting adds exactly the new row |
| Ranking.InsertBounded | main.py:294-295 | if neither the new row nor any row of the table is above a bound, no row of the result is |
| Ranking.InsertSorted | main.py:294-295 | inserting into a sorted table keeps it sorted |
| Ranking.SortDescProperties | main.py:294-295 | the sort orders by `(score, score2)` descending and is a permutation |
| Ranking.WithKeyAppend | main.py:294-295 | selecting the rows with a given key distributes over concatenation |
| Ranking.WithKeyBelow | main.py:294-295 | a sorted table strictly below a row holds no row with that row's key |
| Ranking.InsertStable | main.py:294-295 | an inserted row goes behind the rows with its key |
| Ranking.SortDescStable | main.py:294-295 | rows tying on `(score, score2)` keep their relative order |
| Ranking.Best | main.py:294-295 | the first row that no other row strictly outranks; every earlier row is strictly below it |
| Ranking.WithKeyHead | main.py:294-295 | the first row with a key is the first selected for that key |
| Ranking.SortDescHead | main.py:294-295 | the head of the sorted table is the earliest of the rows with the greatest `(score, score2)` |
| Ranking.KeepAbove | main.py:300-301 | the filter keeps exactly the rows scoring above 10 |
| Ranking.KeepAboveAppend | main.py:300-301 | the mask works row by row: filtering a concatenation filters each part, so survivors keep their order |
| Ranking.KeepAboveKeepsSorted | main.py:294-301 | filtering the sorted table leaves it sorted, with only rows above 10 |
| Ranking.KeepAboveSorted | main.py:300-303 | on the sorted table nothing survives exactly when the head scores 10 or less; otherwise the head survives in front |
| Ranking.FixProtocol | main.py:306-307 | definition: `https:` in front of a URL starting with `//` |
| Ranking.FixRelative | main.py:310-312 | definition: `https://` and the bare URL in front of a URL not starting with `http` or `data:` |
| Ranking.FixUrl | main.py:305-312 | definition: both passes, in source order |
| Ranking.FixUrlMeaning | main.py:305-312 | every fixed URL starts with `http` or `data:`; one that already did is unchanged, so fixing is idempotent |
| Ranking.Differs | main.py:307 | a string that differs from a pattern inside the pattern's length does not start with it |
| Ranking.FixProtocolRelative | main.py:306-307 | `//cdn.example.org/a.png` becomes `https://cdn.example.org/a.png` |
| Ranking.FixRootRelative | main.py:310-312 | `/img/logo.png` becomes `https://example.org/img/logo.png` |
| Ranking.FixDocumentRelative | main.py:310-312 | `logo.png` becomes `https://example.orglogo.png`, with no separator |
| Ranking.FixUrls | main.py:305-312 | both passes change only the URL column and keep the row count and order |
| Ranking.Entries | main.py:323 | the answer table is the rows without the `size` column |
| Ranking.Ranked | main.py:291-312 | definition of the table `crawl` ends with: deduplicated, scored, sorted, filtered outside debug mode, URLs fixed; `RankedSorted` states its order and filter |
| Ranking.Rank | main.py:287-328 | definition of the answer: None for an empty collection or an empty ranked table, the table in debug mode, else the first URL; `RankPicksBest`, `RankFindsLogo` and the debug lemmas state it |
| Ranking.RankPicksBest | main.py:287-328 | outside debug mode the answer is the fixed URL of the earliest deduplicated row with the greatest `(score, score2)` if it scores above 10, and None otherwise |
| Ranking.BestPassesFilter | main.py:300-301 | the best row scores above 10 exactly when some row does |
| Ranking.RankFindsLogo | main.py:299-328 | outside debug mode there is a URL exactly when some deduplicated row scores above 10, and it is absolute |
| Ranking.RankDebugAnswers | main.py:287-303 | in debug mode the answer is None exactly for an empty table and a table otherwise |
| Ranking.RankDebugTable | main.py:287-327 | for a non-empty collection, the debug answer is the whole scored table, sorted, with its URLs fixed |
| Ranking.DebugTableSorted | main.py:294-295 | the debug table has one entry per deduplicated row, sorted by `(score, score2)` descending |
| Ranking.FixUrlsSorted | main.py:305-312 | the URL fix-up keeps a sorted table sorted |
| Ranking.RankedSorted | main.py:287-312 | the table `crawl` leaves in `urls` is sorted by `(score, score2)` descending; outside debug mode every row in it scores above 10, in debug mode it keeps every deduplicated row |
| Ranking.DebugTableAbsolute | main.py:305-312 | every URL in the debug table is absolute |
| Ranking.DebugTableComplete | main.py:293-323 | every deduplicated row appears in the debug table with its URL fixed |
| Crawling.LocalBare | main.py:261-263 | definition of the local `bare_url`: schemes removed and lower-cased when the input has one |
| Crawling.LocalBareCase | main.py:261-263 | an input with a scheme is lower-cased; one without is kept as typed |
| Crawling.SiteName | main.py:265 | definition: the first piece of the bare URL split on `.`; `SiteNameMeaning` states it |
| Crawling.InterleaveStartsWithFirst | main.py:265 | rejoined pieces start with the first piece, followed by the first separator when there is one |
| Crawling.SiteNameMeaning | main.py:265 | the site name is the part of the bare URL before its first dot: a prefix holding no dot and followed by a dot, or the whole bare URL when it has none |
| Crawling.Crawler.constructor | main.py:24-35 | a new crawler has an empty table, an empty title, empty bare URL and site name, and the given debug flag |
| Crawling.Crawler.GetByImg | main.py:85-107 | appends exactly the rows of `ImgRows` to `urls` |
| Crawling.Crawler.GetByA | main.py:109-143 | appends exactly the rows of `AnchorRows` to `urls` |
| Crawling.Crawler.LinkTag | main.py:150-164 | one `<link>` appends its row, or reports the IndexError of a `rel` without tokens |
| Crawling.Crawler.GetByLink | main.py:145-164 | appends the rows of the `<link>` walk up to the first link that raises, and reports whether one did |
| Crawling.Crawler.CollectTag | main.py:277-281 | an anchor or image extends the rows collected so far by what its collector appends |
| Crawling.Crawler.WalkTags | main.py:276-281 | the `<a>`/`<img>` walk appends exactly `TagRows` |
| Crawling.Crawler.RankUrls | main.py:287-328 | the answer is `Rank` of the collected rows, and `urls` ends as the rows of the ranked table: deduplicated, sorted, filtered outside debug mode, URLs fixed, empty when nothing passes the filter |
| Crawling.Crawler.Crawl | main.py:252-328 | sets the bare URL and site name from the input. Without a page: empty title, no answer, table unchanged. Otherwise: the lower-cased title, collection by both walks onto the existing table, then either the raised error with the collected table, or the ranked answer with `urls` replaced by the ranked table |
| Crawling.ScoreRows | main.py:293 | scoring every row in turn gives the table of `ScoreAll` |

## Left out

- `connect` (main.py:37-83) is not modelled: it is browser automation with timeouts and retries. `Crawl` takes its outcome, the page or `None`, as a parameter. The title is lower-cased as `connect` does on success; on failure the title becomes empty and there is no answer.
- `is_link_alive` (main.py:166-191) is network I/O, and its only call is commented out.
- `process_url` and the command-line entry point (main.py:331-354) are process pooling, standard input and CSV output.
- The timing fields (`self.times`) and `log_errors` do not affect results.
- HTML parsing is not modelled. The page is the sequence of elements `find_all` would visit, in document order. Each element has a name, its attributes, and the first `<img>` beneath it. A multi-valued `rel` arrives as its raw text, and the model takes its whitespace tokens.
- Scoring.Similarity: the algorithm of `fuzz.partial_ratio` is not modelled, only its range 0..100. Results are proved for every matcher in that range.
- Strings.Lower: only ASCII letters are lower-cased. Python also lower-cases other alphabets.
- Numbers.IsDigit: `\d` is taken as the ASCII digits. Python's `re` also accepts other Unicode decimal digits.
- Numbers.ParseFloat: `float()` is read as exact decimal arithmetic on reals, over whitespace, sign, ASCII digits, point and exponent. `inf`, `nan`, digit separators and non-ASCII decimal digits (which `float()` accepts, so `float("١٢")` is 12.0) are treated as unparsable, so such a height or width gives size 1 instead of a number. Rounding to double precision is not modelled. Neither is the `OverflowError` that `int()` raises on an infinite product, which the source does not catch.
- Collectors.DimSize: the product of the two dimensions is exact before truncation. The source multiplies doubles.
- Numbers.PairProduct: the product of the two digit groups is exact, where main.py:155 and main.py:247 multiply doubles. Two behaviours are therefore not modelled. First, groups above 2^53 round, so two URLs whose products differ only past double precision tie in the source's secondary score but not in the model's, and the stable sort can then order them differently. Second, a group above the largest double (about 1.8 × 10^308, so any group of more than 309 digits without leading zeros) makes `float()` return infinity. `int()` then raises `OverflowError`, or `ValueError` for `0 * inf`. main.py:247 catches neither, and main.py:155's `except ValueError` does not catch the `OverflowError`, so the error escapes `process` or `crawl`. The model gives the exact product instead.
- `reset_index` and the pandas row index are not modelled. The answer's `Entry` rows leave out the `size` column, as the returned table does.
- The second emptiness check (main.py:320-321) is not a separate branch. The URL fix-up keeps the row count, so the table cannot be empty there.
- Crawling.Crawler.Crawl: after ranking, `urls` holds the rows of the ranked table with their `size` kept and without the `score`/`score2` columns, where the source's table has dropped `size` and carries the scores (main.py:293, 323); the scores are in the debug answer. A second `crawl` on the same object, which in the source concatenates new rows onto that reshaped table, is therefore not modelled column for column; main.py:340 builds a new `Crawler` for every site.
- The pandas sort on two columns is modelled as a stable descending sort, so rows that tie keep their table order.
