# Hacker News top-stories digest — a Dafny model

The digest script reads the Hacker News front page, turns each listing row into a
story record, can visit each story's discussion page to get its top comment,
and writes a JSON file, a CSV file and a Markdown digest. Nearly all of it
drives a browser or writes files. This project models the three pure parts of
`main.py` and proves properties about them:

- **Row-to-record extraction** (`safe_int` and the loop of `extract_top_stories`).
  The page is abstracted into a sequence of `Row` values. Each row holds the row
  `id`, the title anchor's text and `href`, the subtext row's score text and
  author text, and its anchors as (text, href) pairs. The extractor works out
  how many rows to read, ranks them 1..n, reads the points and the comment count
  from the leading number of the text, applies the `"comment"` substring gate,
  and joins the discussion URL as `HN_URL + "/" + href`.
- **The retry loop of `fetch_top_comment`**, as a state machine. What each
  attempt sees is given by a function `world: nat -> Attempt`
  (`Timeout`, `OtherError` or `Loaded(text)`). The trace records the number of
  navigations, the list of `time.sleep` arguments and the returned value.
- **The digest summary** in `write_outputs`: the points total and the
  `max(len, 1)` divisor of the average, the "most commented" story (the first
  one with the highest count), and the 300-character one-line snippet of each
  top comment.

Modules: `Wrappers` (Option/Result), `PyText` (the Python `str` operations used:
`isspace`, `strip()`, `split()[0]`, `in`, `replace`), `PyInt` (`int()` on
sign-and-digits text of at most 4300 digits, `safe_int`, and `str()` on integers
as the inverse used in round-trip lemmas), `Listing`, `CommentFetch` and `Digest`.

Behaviours of the code that the model keeps as written:

- Points and comment counts are not range-checked. A score text `"-3 points"` gives
  -3 points (`Listing.NegativePointsAccepted`).
- Extraction can abort. A non-empty score text made only of whitespace makes
  `split()[0]` raise `IndexError`, and that ends the whole extraction
  (`ExtractError.BlankScoreText`).
- A comment whose text is only whitespace passes the emptiness test, because
  that test runs before stripping. The result is `unescape("")`, not `None`
  (`CommentFetch.EmptyCommentValue`).
- The discussion URL is `None` when there are no subtext anchors, and also when
  the last anchor's `href` is absent or empty.
- A score with more than 4300 digits makes `int()` raise inside `safe_int`, so
  the row gets 0 points (`Listing.PointsOfOverlongScore`).

## Model

| member | source | states |
|---|---|---|
| `PyText.Strip` | main.py:67 | `strip()` result is no longer than its input, is empty exactly when the input is all whitespace, and otherwise starts and ends with non-whitespace |
| `PyText.StripDecompose` | main.py:67 | `strip()` only removes whitespace: the input is whitespace, then the stripped text, then whitespace |
| `PyText.StripFramed` | main.py:67 | a core with non-space ends, framed by whitespace, strips back to exactly that core (inverse of `StripDecompose`) |
| `PyText.StripIdempotent` | main.py:67 | stripping an already stripped title changes nothing |
| `PyText.FirstToken` | main.py:74 | `split()[0]` raises (None) exactly on all-whitespace text, and otherwise yields a non-empty word without whitespace |
| `PyText.FirstTokenDecompose` | main.py:74 | the token is the first word: leading whitespace, the token, then the end or whitespace |
| `PyText.FirstTokenOfFramed` | main.py:74 | conversely, a word after leading whitespace and before whitespace or the end is what `split()[0]` returns |
| `PyText.Contains` | main.py:84 | the `in` test fails when the word is longer than the text and holds for the empty word; `PyText.ContainsIff` proves it equal to the positional definition |
| `PyText.ContainsIff` | main.py:84 | the `"comment" in text` test holds if and only if the word occurs at some position of the text |
| `PyText.ContainsInSuffix` | main.py:84 | an occurrence in the tail of a text is an occurrence in the text |
| `PyText.ContainsWordNotBlank` | main.py:84-85 | a text containing "comment" is not blank, so `split()[0]` on line 85 never raises |
| `PyText.ReplaceChar` | main.py:180 | `replace("\n", " ")` keeps the length and replaces exactly the newline characters |
| `PyInt.ParseInt` | main.py:45 | `int()` succeeds exactly on sign-and-digits text of at most 4300 digits (`sys.int_max_str_digits`), and the sign of the result follows the leading `-` |
| `PyInt.ParseIntOfIntToString` | main.py:45 | `int(str(n)) == n` for every integer `str` can render (at most 4300 digits) |
| `PyInt.ParseIntNegative` | main.py:45 | a leading minus negates the value of the digits, and a digit run is accepted with the minus exactly when it is accepted without |
| `PyInt.ParseIntPlus` | main.py:45 | an explicit `+` sign is accepted and changes nothing: `int("+" + t) == int(t)` |
| `PyInt.ParseIntLeadingZero` | main.py:45 | leading zeros are accepted and ignored: `int("0" + t) == int(t)` within the digit limit; with the round trip and the sign lemmas this fixes the value of every accepted literal |
| `PyInt.DigitsValueLeadingZero` | main.py:45 | a leading zero digit does not change the value of a digit run |
| `PyInt.OverlongDigitsRejected` | main.py:43-47 | a digit run of more than 4300 digits, signed or not, makes `int()` raise, so `safe_int` returns its default |
| `PyInt.SafeInt` | main.py:43-47 | `safe_int` is `int()`'s value on text in the grammar and the default on any other text; partners `PyInt.SafeIntOfIntToString` and `PyInt.SafeIntFallback` |
| `PyInt.SafeIntOfIntToString` | main.py:43-47 | `safe_int` returns a rendered (at most 4300-digit) number whatever the default |
| `PyInt.SafeIntFallback` | main.py:43-47 | `safe_int` never fails: on text `int()` rejects it returns the default |
| `Listing.StoryCount` | main.py:59-62 | the loop runs `min(rows, limit)` times, and never for `limit <= 0` |
| `Listing.ExtractRow` | main.py:62-97 | a row yields a record exactly when its score text is readable. The record has the given rank, the row's id and href, the stripped title, the points, author, comment count and discussion URL read from the subtext row, and no top comment. Otherwise the row fails with `IndexError` at that rank |
| `Listing.RankedLoop` | main.py:60-99 | the loop succeeds exactly when every row does. It then yields one record per row, in order, each ranked by its position. Otherwise it fails with the error of the first failing row |
| `Listing.ExtractTopStories` | main.py:58-99 | yields exactly `min(rows, limit)` records (none for `limit <= 0`). Record `k` has rank `k+1` and comes from row `k`. The only failure is `IndexError` at the first row with a blank score text |
| `Listing.ScoreText` | main.py:73 | the score text read is never empty: a truthy text is kept and anything else becomes `"0 points"` |
| `Listing.Points` | main.py:74 | the points are `int()` of the first word of the score text when that word is in the grammar, and 0 otherwise; partners `Listing.PointsOfMissingScore` and `Listing.PointsOfRenderedScore` |
| `Listing.CommentsCount` | main.py:79-85 | the count is `safe_int` of the first word of the last anchor's text when that text contains "comment" (the word always exists), and 0 when there are no anchors or the text lacks "comment"; partners `Listing.CommentsCountNeedsWord` and `Listing.CommentsOfRenderedCount` |
| `Listing.CommentsHref` | main.py:79-83 | the discussion href is the last subtext anchor's `href`, and absent when there are no anchors |
| `Listing.DiscussionUrl` | main.py:92 | a URL exists exactly for a truthy href, and it is the href's length plus `HN_URL` and a `/` separator long; partner `Listing.DiscussionUrlJoin` |
| `Listing.LeadingNumber` | main.py:74 | a text that starts with a renderable integer, then whitespace or the end, has that integer as its leading number |
| `Listing.PointsOfMissingScore` | main.py:73-74 | a row with an absent or empty score text reads it as "0 points" and yields a record with 0 points |
| `Listing.PointsOfRenderedScore` | main.py:73-74 | a row whose score text is `"<n> points"` yields a record with exactly `n` points |
| `Listing.PointsOfOverlongScore` | main.py:73-74 | a row whose score starts with more than 4300 digits yields a record with 0 points |
| `Listing.NegativePointsAccepted` | main.py:74 | a row whose score text is `"-3 points"` yields a record with -3 points: scores are not range-checked |
| `Listing.PresentAuthorKept` | main.py:76 | a present, non-empty author text is the record's author |
| `Listing.DiscussionUrlOfRecord` | main.py:83-92 | a truthy `href` on the last subtext anchor gives the record the discussion URL `HN_URL + "/" + href` |
| `Listing.BlankScoreAborts` | main.py:73-74 | a non-empty all-whitespace score text makes the row fail at its rank |
| `Listing.MissingAuthorIsEmpty` | main.py:76 | an absent or empty author text gives the author `""` |
| `Listing.NoLinksNoComments` | main.py:79-81 | a row with no subtext anchors yields a record with 0 comments and no discussion URL |
| `Listing.CommentsCountNeedsWord` | main.py:84-85 | when the last anchor's text lacks "comment", the record has 0 comments whatever digits the text starts with |
| `Listing.DiscussCountsZero` | main.py:84 | a row whose last anchor reads `"discuss"` yields a record with 0 comments |
| `Listing.CommentsOfRenderedCount` | main.py:82-85 | a last anchor reading `"<n>"`, whitespace (including a no-break space), then a word containing "comment" yields a record with `n` comments |
| `Listing.DiscussionUrlJoin` | main.py:83-92 | the discussion URL exists exactly when the href is truthy. It is `HN_URL + "/"` followed by the unchanged href, so removing that prefix gives the href back |
| `CommentFetch.RetryFrom` | main.py:110-130 | the loop makes between 1 and the remaining attempts, and every attempt but the last failed. It stops at a success or at the last attempt. Exactly one sleep, of `backoff^attempt`, follows each non-final attempt. The result is the loaded value of the last attempt, or None |
| `CommentFetch.FetchTopComment` | main.py:102-110 | a falsy URL or `retries <= 0` means no navigation and `None`, and never more than `retries` navigations |
| `CommentFetch.FirstLoaded` | main.py:110-118 | the first successful attempt below a bound, or the bound when none succeeds |
| `CommentFetch.AttemptCount` | main.py:110-118 | the number of navigations is `min(retries, first success + 1)` |
| `CommentFetch.ResultOfFirstSuccess` | main.py:115-118 | the result is the value of the first success within `retries`, or `None` when none succeeds |
| `CommentFetch.SleepSchedule` | main.py:119-130 | the waits are `[b^0, b^1, …]`, one fewer than the attempts, with no wait after the last attempt |
| `CommentFetch.AllAttemptsFail` | main.py:119-130 | when every attempt fails, all `retries` attempts are made, with `retries - 1` waits, and the result is `None` |
| `CommentFetch.SuccessAfterFailures` | main.py:110-118 | `n < retries` failures followed by a non-empty comment return the unescaped stripped comment after `n + 1` navigations |
| `CommentFetch.FailureKindIrrelevantFrom` | main.py:119-130 | from any attempt on, timeouts and other errors lead to the same trace |
| `CommentFetch.FailureKindIrrelevant` | main.py:119-130 | two worlds that differ only in the kind of their failures give identical traces |
| `CommentFetch.CommentValue` | main.py:116-118 | a comment is absent exactly for an absent or empty text; a whitespace-only text gives `unescape("")` and an already trimmed text is unescaped as it is |
| `CommentFetch.EmptyCommentValue` | main.py:116-118 | an absent or empty comment text gives `None`. A whitespace-only text gives `unescape("")`, because emptiness is tested before stripping |
| `CommentFetch.DefaultScheduleExample` | main.py:102-130 | with factor 2 and three timeouts the waits are 1 s and 2 s and the result is `None` |
| `Digest.AverageDivisor` | main.py:159 | the divisor of the average is at least 1, and is the story count for a non-empty list |
| `Digest.SumPoints` | main.py:159 | the points total is 0 for no stories, and has the sign of the points when they all share it; partners `Digest.SumPointsSingleton` and `Digest.SumPointsAppend`, which together fix the total as the sum of the stories' points |
| `Digest.SumPointsSingleton` | main.py:159 | the total of one story is its points; with `Digest.SumPointsAppend` the total of any list is the sum of its stories' points |
| `Digest.SumPointsAppend` | main.py:159 | the points total is additive over concatenation |
| `Digest.EmptyAverage` | main.py:159 | an empty digest has total 0 over divisor 1: no division by zero |
| `Digest.MaxScan` | main.py:160 | Python's `max` scan ends on the first story with the largest comment count |
| `Digest.MostCommented` | main.py:160-169 | absent exactly for an empty list, and otherwise the first story with maximal `comments_count` |
| `Digest.FirstMaxUnique` | main.py:160 | only one story can be the first with the largest count |
| `Digest.MostCommentedTieExample` | main.py:160 | counts 5, 12, 12, 3 select the second story |
| `Digest.Snippet` | main.py:179-181 | a snippet exists exactly for a truthy top comment. It is the first `min(len, 300)` characters with newlines replaced by spaces, followed by `"..."` |
| `Digest.SnippetIsOneLine` | main.py:180 | the quoted part has at most 300 characters and no newline |
| `Digest.SnippetOfShortLine` | main.py:180-181 | a short comment on one line is quoted verbatim, followed by `"..."` |

## Left out

- Browser work is not modelled: launch and close, navigation, `wait_for` and `wait_for_selector`, locator queries (main.py:55-56, 113-115, 189-221). It is replaced by `Row` values and by the `world` outcomes. A missing element makes the real `text_content()`/`inner_text()` raise; the model only covers absent or empty text values.
- Listing.ExtractRow: the title is a plain `string`, because `inner_text()` always returns a string. An absent title element raises in the browser layer, which is not modelled.
- PyInt.ParseInt: accepts only an optional sign followed by ASCII digits. Python's `int()` also accepts underscores between digits, non-ASCII decimal digits and surrounding whitespace. After `split()` the token has no whitespace, and the other forms do not occur in Hacker News scores or comment counts. The 4300-digit limit is CPython's default for `sys.int_max_str_digits`; a different setting (or a Python release without the limit) is not modelled.
- CommentFetch.FetchTopComment: `html.unescape` is the uninterpreted parameter `unescape`, applied after `strip` as in the code. `backoff_factor` is a natural number. A negative factor would make `time.sleep` raise, and a float factor is floating point; neither is modelled.
- CommentFetch.RetryFrom: the per-attempt `timeout` value, the logging calls and the real `time.sleep` are not modelled. The trace records only the sleep durations.
- The float average and its `.1f` formatting (main.py:159, 166) are not modelled, since they are floating point. Only the integer total and the divisor are.
- The Markdown text, the JSON and CSV files and `os.makedirs` (main.py:134-182) are library I/O. Only the summary values and the snippet string are modelled.
- The `datetime.utcnow()` timestamp (main.py:157), argument parsing (main.py:31-40), random pacing delays (main.py:201-217) and the loop in `main` that stores each fetched comment (main.py:205-219) are not modelled. They are clock, randomness, process and browser plumbing.
