# Google review responder: a Dafny model of its core

`ReviewsResponder.py` is a desktop tool that reads a spreadsheet of Google
Business reviews. For every review it drafts a reply with a chat-completion
service, then shows the reviews three to a page next to their drafted
replies. This project models the parts of that program that decide what is
sent and what is shown:

- `build_examples_string` (module `ExamplePrompt`) turns the answered reviews
  into a block of "Review/Answer" style examples. Each row must have a
  present, non-blank review text and owner answer. The result is the fixed
  header followed by the examples joined by blank lines, or `""`.
- `generate_ai_response` (module `Drafter`) does the following:
  - cuts the review to 700 characters;
  - replaces a blank or "nan" text with "Thank you for your business.";
  - builds the user message;
  - tries the service up to `max_retries` times, sleeping `2^attempt`
    seconds after each failed attempt except the last;
  - returns the stripped content of the first success, or else
    "Response unavailable at this time.". With `max_retries <= 0` it
    returns `None`.

  The service is an oracle: a script of per-attempt outcomes, one script
  per row. Sleeping is recorded as a trace of durations. `DraftSpec` is the
  loop-free reference behaviour; the two methods are proved equal to it.
- `MyFrame` (module `Pager`, class `ReviewBrowser`) holds the table, the
  examples block, one pre-generated reply per row, the current page and the
  three display slots. The slots stand for the three review panels.
  - `update_reviews` binds slot `i` to row `page*3+i` and its reply, or
    clears the slot.
  - `on_previous` and `on_next` move the page within bounds.
  - The class invariant `Valid` keeps the page in range and the slots equal
    to the page view. The pager lemmas prove where every row appears and
    how far repeated "Next" presses go.
- Module `PyStr` models the Python string operations used: `isspace` (the
  full Unicode whitespace set), `strip`, `lower` and `join`. Module
  `ReviewTable` models the row record and `dropna(subset=['owner_answer'])`.

A cell that pandas reads as NaN is `None` in the model.

## Model

| member | source | states |
|---|---|---|
| PyStr.IsSpace | ReviewsResponder.py:81 | the code points Python's `str.isspace()` accepts, which are the ones `strip()` removes |
| PyStr.IsBlank | ReviewsResponder.py:81 | every character is whitespace; by `Strip` this is Python's `not s.strip()` |
| PyStr.TrimStart | ReviewsResponder.py:81 | the result is a suffix of the input; everything dropped is whitespace; the result is empty or starts with non-whitespace |
| PyStr.TrimEnd | ReviewsResponder.py:81 | the result is a prefix of the input; everything dropped is whitespace; the result is empty or ends with non-whitespace |
| PyStr.Strip | ReviewsResponder.py:81 | `strip()` is a slice of the input; it is empty exactly when the input is all whitespace; otherwise it starts and ends with non-whitespace |
| PyStr.StripDropsOnlySpace | ReviewsResponder.py:81 | everything before and everything after the kept slice is whitespace, so `strip()` keeps the longest slice that starts and ends on non-whitespace |
| PyStr.Lower | ReviewsResponder.py:81 | the same length as the input, lower-casing each letter in place |
| PyStr.LowerIsNan | ReviewsResponder.py:81 | `lower() == "nan"` holds exactly for the eight upper/lower-case spellings of "nan" |
| PyStr.Join | ReviewsResponder.py:66 | `sep.join(parts)`: the parts in order with the separator between neighbours; `JoinEnds` states its ends |
| PyStr.JoinEnds | ReviewsResponder.py:66 | the joined text starts with the first part and ends with the last |
| ReviewTable.Answered | ReviewsResponder.py:342 | `dropna` on `owner_answer` keeps exactly the rows that carry an answer, and never adds rows |
| ReviewTable.AnsweredAppend | ReviewsResponder.py:342 | `dropna` keeps row order and repeated rows: the answered rows of `a + b` are those of `a` followed by those of `b` |
| ReviewTable.AnsweredOfOne | ReviewsResponder.py:342 | a single row is kept exactly when its owner answer is present |
| ExamplePrompt.Qualifies | ReviewsResponder.py:63 | a row is used when review text and owner answer are both present and neither is blank after stripping |
| ExamplePrompt.FormatExample | ReviewsResponder.py:64 | one example is `"Review: "`, the unstripped review text, `"\nAnswer: "`, the unstripped answer |
| ExamplePrompt.Examples | ReviewsResponder.py:59-64 | the examples of the qualifying rows in row order; `ExamplesAppend` and `ExamplesOfOne` state this |
| ExamplePrompt.ExamplesText | ReviewsResponder.py:65-68 | the result is `""` or starts with the header |
| ExamplePrompt.BuildExamplesString | ReviewsResponder.py:52-68 | the loop returns the header plus the qualifying rows' examples joined by blank lines, or `""` when there are none |
| ExamplePrompt.ExamplesAppend | ReviewsResponder.py:60-64 | examples keep row order: the examples of `a + b` are those of `a` followed by those of `b` |
| ExamplePrompt.ExamplesOfOne | ReviewsResponder.py:63-64 | a single row gives its "Review/Answer" pair exactly when it qualifies, and nothing otherwise |
| ExamplePrompt.ExamplesEmptyIff | ReviewsResponder.py:59-64 | the examples list is empty exactly when no row has both texts present and non-blank |
| ExamplePrompt.ExamplesTextEmptyIff | ReviewsResponder.py:63-68 | the function returns `""` exactly when no row qualifies |
| ExamplePrompt.ExactlyOneExample | ReviewsResponder.py:63-66 | with one qualifying row the result is the header followed by that row's unstripped pair |
| ExamplePrompt.ExamplesFirst | ReviewsResponder.py:59-64 | the first example is that of the first qualifying row |
| ExamplePrompt.ExamplesLast | ReviewsResponder.py:59-64 | the last example is that of the last qualifying row |
| ExamplePrompt.ExamplesTextLayout | ReviewsResponder.py:63-66 | a non-empty result opens with the header and the first qualifying row's pair, and ends with the last qualifying row's pair |
| ExamplePrompt.AnsweredKeepsExamples | ReviewsResponder.py:342-343 | the examples built from the `dropna`-filtered rows are the examples of the whole table |
| Drafter.Pow2 | ReviewsResponder.py:115 | every backoff is at least one second |
| Drafter.Truncate | ReviewsResponder.py:80 | `[:700]` is a prefix of the text, at most 700 long, and the whole text when that is shorter |
| Drafter.NeedsPlaceholder | ReviewsResponder.py:81 | the truncated text is blank or spells "nan" in any case; with `Strip` and `LowerIsNan` this is `not t.strip() or t.lower() == "nan"` |
| Drafter.NeedsPlaceholderIsPython | ReviewsResponder.py:81 | the placeholder test holds exactly when `t.strip()` is empty or `t.lower() == "nan"` |
| Drafter.ReviewBody | ReviewsResponder.py:80-82 | the quoted text is at most 700 long, and is either the placeholder or a prefix of the review |
| Drafter.ReviewBodyIsUsable | ReviewsResponder.py:81-82 | the quoted text is never blank or "nan"; it is the truncated review exactly when that is usable, else the placeholder |
| Drafter.MissingTextGetsPlaceholder | ReviewsResponder.py:80-82 | a blank review, or one that lower-cases to "nan", is quoted as the placeholder |
| Drafter.PlaceholderIsKept | ReviewsResponder.py:82 | the placeholder itself needs no replacement |
| Drafter.UserMessage | ReviewsResponder.py:85-89 | the message is the examples block, a blank line, the request naming the author and the quoted body: 47 characters beyond its three parts |
| Drafter.Message | ReviewsResponder.py:80-89 | there is a message exactly when the review text is present; a NaN text makes the slice raise before any message exists |
| Drafter.UserMessageLayout | ReviewsResponder.py:85-89 | the message is 47 characters longer than its three parts, opens with the examples block and a blank line, and ends with the quoted review |
| Drafter.AttemptOutcome | ReviewsResponder.py:77-112 | how one attempt ends: it fails when building the prompt raised (a NaN text at the slice) or the outcome script has run out, otherwise it is the scripted outcome |
| Drafter.Backoff | ReviewsResponder.py:115 | the sleep after failed attempt `k` is `2^k` seconds |
| Drafter.Requests | ReviewsResponder.py:102-108 | one request per attempt, or none when building the prompt raises |
| Drafter.RequestsAreTheMessage | ReviewsResponder.py:85-108 | every request carries the same user message |
| Drafter.FirstCompletedIsFirst | ReviewsResponder.py:77-109 | the attempt that answers is the earliest success; no attempt answers exactly when all fail |
| Drafter.DraftSpec | ReviewsResponder.py:71-115 | a reply exists exactly when `max_retries > 0`; at most `max_retries` requests; fewer sleeps than attempts |
| Drafter.DraftOnSuccess | ReviewsResponder.py:77-109 | if attempt `k` is the first success, the reply is its stripped content after sleeps `1..2^(k-1)` and `k+1` requests |
| Drafter.DraftOnExhaustion | ReviewsResponder.py:111-115 | if every attempt fails, the reply is the fallback, with a sleep after every attempt but the last |
| Drafter.RetryWithBackoff | ReviewsResponder.py:77-115 | the retry loop returns, sleeps and sends exactly what `DraftSpec` prescribes |
| Drafter.GenerateResponse | ReviewsResponder.py:71-115 | truncation, placeholder, message and retries together give `DraftSpec` of the row's message |
| Drafter.BackoffTotal | ReviewsResponder.py:115 | after `n` failures the total sleep is `2^n - 1` seconds |
| Drafter.DefaultRetriesExhausted | ReviewsResponder.py:71-115 | with the default three retries and no success, the reply is the fallback after sleeping 1 then 2 seconds |
| Drafter.MissingTextFallsBack | ReviewsResponder.py:77-115 | a missing (NaN) review text never reaches the service and gets the fallback after sleeping 1 then 2 seconds |
| Drafter.IntendedMessage | ReviewsResponder.py:80-82 | the evidently intended message: always present, quoting the placeholder for a missing text, and equal to `Message` whenever the text is present |
| Drafter.IntendedMissingTextReachesService | ReviewsResponder.py:77-109 | under the intended message a review without text is sent to the service with the placeholder, and a first answer is returned stripped |
| Drafter.FailTwiceThenSucceed | ReviewsResponder.py:77-115 | two failures then an answer: the stripped answer, sleeps [1, 2], three identical requests |
| Drafter.NoRetriesNoCall | ReviewsResponder.py:77 | with `max_retries <= 0`: no request, no sleep, and `None` |
| Pager.PrevPage | ReviewsResponder.py:413-416 | one page back from a positive page, unchanged otherwise |
| Pager.NextPage | ReviewsResponder.py:418-421 | one page forward when the next page's first row exists, unchanged otherwise |
| Pager.SlotFor | ReviewsResponder.py:429-442 | a slot is bound exactly when row `page*3+i` exists; an unbound slot shows no reply text |
| Pager.PageView | ReviewsResponder.py:426-442 | a page shows exactly three slots |
| Pager.PageViewSlots | ReviewsResponder.py:426-442 | slot `i` is bound exactly when row `page*3+i` exists, then to that row and its reply; otherwise it is the empty record with `""` |
| Pager.PageShowsSlice | ReviewsResponder.py:426-442 | the rows bound on page `p` are exactly the existing rows `3p .. 3p+2`, in row order |
| Pager.DraftedReply | ReviewsResponder.py:348-355 | the reply stored for row `i`: what the drafter returns for that row's author and text with the shared examples and three retries |
| Pager.PregenerateResponses | ReviewsResponder.py:346-355 | one reply per row, in row order: entry `i` is the reply drafted for row `i` |
| Pager.DraftedReplyIsDraft | ReviewsResponder.py:348-355 | each stored reply is what `generate_ai_response` returns for its row with three retries, never `None` |
| Pager.PageInRangeIff | ReviewsResponder.py:413-421 | the page is in range exactly when `0 <= page <= ceil(N/3) - 1` (0 for an empty table) |
| Pager.MovesStayInRange | ReviewsResponder.py:413-421 | both moves keep the page in range; Previous is a no-op exactly on page 0 and Next exactly on the last page |
| Pager.ForwardStopsAtLast | ReviewsResponder.py:418-421 | `k` presses of Next from page 0 reach page `min(k, last page)` |
| Pager.RowOnItsPage | ReviewsResponder.py:426-436 | row `k` is shown on reachable page `k/3`, in slot `k%3`, next to its own reply |
| Pager.ReviewBrowser.Valid | ReviewsResponder.py:332-442 | the window's invariant: three slots, one reply per row, the page in range (0, or a page whose first row exists), and the slots showing that page |
| Pager.ReviewBrowser.constructor | ReviewsResponder.py:327-384 | starts on page 0, builds the examples from the answered rows, stores one reply per row and shows page 0 |
| Pager.ReviewBrowser.UpdateReviews | ReviewsResponder.py:426-442 | the three slots become the view of the current page: bound rows with their replies, cleared slots past the end |
| Pager.ReviewBrowser.OnPrevious | ReviewsResponder.py:413-416 | moves to `PrevPage`, keeps the invariant, and leaves table, replies and examples unchanged |
| Pager.ReviewBrowser.OnNext | ReviewsResponder.py:418-421 | moves to `NextPage`, keeps the invariant, and leaves table, replies and examples unchanged |

## Findings

| source | as written | input that shows it | evidently intended | confidence | as-written member | corrected member |
|---|---|---|---|---|---|---|
| ReviewsResponder.py:80-82 | a missing review cell is a float NaN, so `review_text[:700]` raises before the `"nan"` test; every attempt fails without calling the service | a row with a rating and an empty review cell: the reply is "Response unavailable at this time." after sleeping 1 and 2 seconds, with no request | a missing text is quoted as "Thank you for your business." and sent to the service, as the `lower() == "nan"` test suggests | medium, not executed | Drafter.MissingTextFallsBack | Drafter.IntendedMissingTextReachesService |

The rest of the model follows the code as written (`Drafter.Message`); `Drafter.IntendedMessage` is the corrected prompt builder, and the lemma beside it states what it achieves.

## Left out

- The chat-completion call is not modelled. The client, model name, `max_tokens`, temperature and system message are abstracted into a per-attempt outcome script. Attempts past the end of a script count as failures.
- `time.sleep` is recorded as a list of durations; no time passes.
- Logging, `.env` loading and client setup are left out: they have no effect on the returned values.
- Reading the newest `.xlsx` file is input. The table is a parameter of the constructor.
- The wx widgets, layout and labels are not modelled. This includes the name, review count and rating labels, which read row 0 and fail on an empty table, and the hyperlink.
- The "respond in Google" browser automation, its thread and `wx.CallAfter` are not modelled: they drive an external web page concurrently.
- Columns other than author, review text and owner answer are not modelled. They are only displayed, or used by the hyperlinks (`review_link`, `reviews_link`) and the browser automation, which are left out above.
- The author is a plain string. A NaN author cell, which Python formats as "nan", is not distinguished.
- A review or answer cell that holds a non-text value other than NaN (a number, say) is not modelled. In `build_examples_string` its `strip()` would raise. In `generate_ai_response` a numeric review text makes the `[:700]` slice raise inside the `try`, so that row gets the fallback, just as a NaN text does (`Drafter.MissingTextFallsBack`).
- The program never writes the spreadsheet back, so nothing about saving is modelled.
- PyStr.Lower: lower-cases ASCII letters only. Python's full Unicode mapping maps no other character to 'n' or 'a', so the "nan" test is the same.
- Drafter.GenerateResponse: builds the user message once, before the loop. The Python code rebuilds it on every attempt, but from the same inputs, so every attempt sends the same text.
