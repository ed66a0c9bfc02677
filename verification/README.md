# Keyword scrape-and-dedup loop: a Dafny model

This project models the core of a small web application. The application
searches a social network for a keyword within a date window and scrolls the
results feed. It collects the text of distinct posts until it has a
requested number, then stages them in a text file for a language-model
summariser. Everything modelled lives in `app.py`:

- `scrape_tweets_with_keyword` builds the search URL from the keyword and
  two dates typed as `"%B %d, %Y"`. It then waits for the first results and
  runs the collection loop. Each cycle of the loop waits for posts to be
  visible, lists the post elements and keeps the ones whose handle it has
  not taken before. It adds their count to `tweets_loaded`, remembers their
  handles and extracts each one's text. It stops on a timed-out wait, on a
  listing with nothing new, or once the count reaches the target;
  otherwise it scrolls.
- The text of one post is the texts of its `span` descendants joined in
  document order and then stripped of surrounding whitespace.
- `run_analysis` gives up with a message when nothing was collected.
  Otherwise it writes `keyword.txt` and `tweets.txt`, one numbered line per
  post.

The browser is not modelled. One run's page is the sequence of answers its
polls receive (`Collection.Page`): a timed-out wait, or the list of post
elements. Each element is an opaque handle together with what reading it
yields: its span texts, or a stale-element failure. Element identity is
handle equality, which is what Python's `div not in tweet_divs` compares.

Modules:

| file | module | what it holds |
|---|---|---|
| results.dfy | `Results` | `Option` and `Result` |
| text.dfy | `Text` | `str.strip()` and per-post text assembly |
| digits.dfy | `Digits` | decimal digit strings, zero padding |
| dates.dfy | `Dates` | `strptime(s, "%B %d, %Y")` and `strftime("%Y-%m-%d")` |
| search_query.dfy | `SearchQuery` | the search URL and its read-back |
| collection.dfy | `Collection` | the collection loop, as functions and as the source's loops |
| collection_props.dfy | `CollectionProps` | stop reasons, dedup, coverage, two concrete runs |
| tweets_file.dfy | `TweetsFile` | the `tweets.txt` format and its read-back |
| analysis.dfy | `Analysis` | `scrape_tweets_with_keyword` and `run_analysis` end to end |

The loop is given twice:
- `Collection.Cycle`, `Collection.Cycles` and `Collection.Collect` are pure
  functions that state what one cycle and a whole run compute.
- `Collection.PollCycle` and `Collection.CollectTweets` are methods shaped
  like the source's `while` loop and inner `for` loops. They are proved to
  compute the same results.

## Model

| member | source | states |
|---|---|---|
| Text.Strip | app.py:193 | the stripped text has no whitespace at either end (whitespace as Python's `str.isspace` defines it) |
| Text.StripPadded | app.py:193 | the stripped text is a slice of the original with only whitespace cut off before and after |
| Text.StripUnique | app.py:193 | any slice cut out by whitespace-only padding with no whitespace at its ends is exactly what stripping returns, so stripping is fully determined by the two properties above |
| Text.StripBlank | app.py:193 | a string made only of whitespace strips to the empty string |
| Text.StripIdempotent | app.py:193 | stripping a stripped text changes nothing |
| Text.ConcatContainsSpans | app.py:190-192 | every span's text occurs in the joined text, at the offset given by the lengths of the spans before it |
| Text.AssemblePost | app.py:188-193 | the append-then-strip loop yields a trimmed text that is the joined spans with only surrounding whitespace removed |
| Dates.MonthFrom | app.py:140-141 | finds the first month, from a given one on, whose full English name followed by a space starts the text; none is found only when no such month exists |
| Dates.ParseLongDate | app.py:140-141 | every date accepted from `"%B %d, %Y"` text exists in the Gregorian calendar (month 1-12, day within the month's length, leap years included) |
| Dates.ParseDayYear | app.py:140-141 | the day-and-year part is accepted only as a valid date in the month already read |
| Dates.LongDateRoundTrip | app.py:140-141 | every valid date written as `Month DD, YYYY` parses back to itself |
| Dates.DayYearRoundTrip | app.py:140-141 | a zero-padded day and four-digit year after a month parse back to that date |
| Dates.ParseLongDateSpelling | app.py:140-141 | conversely, every accepted text is the canonical spelling of its date, or that spelling with a one-digit day |
| Dates.DayYearSpelling | app.py:140-141 | every accepted day-and-year part is the zero-padded spelling, or the one-digit-day spelling |
| Dates.IsoDate | app.py:142 | `%Y-%m-%d` output is ten characters: four digits, a dash, two digits, a dash, two digits |
| Dates.IsoDateRoundTrip | app.py:142 | a valid date written as `YYYY-MM-DD` reads back as itself |
| Dates.IsoDateOfParse | app.py:142 | any `YYYY-MM-DD` text that reads as a date is exactly that date's spelling |
| SearchQuery.SearchUrl | app.py:139-144 | the start date is parsed first and its failure is reported first; on success the URL starts with the search base and the raw keyword, and adds exactly 42 characters for the two date clauses |
| SearchQuery.SearchUrlRoundTrip | app.py:139-144 | the URL reads back as the keyword, unchanged, and the two parsed dates |
| SearchQuery.SplitSearchUrlSpelling | app.py:139-144 | any URL that reads back as a search is exactly the URL built from that keyword and those dates |
| Collection.UnseenMembers | app.py:171 | the filtered list holds exactly the listed elements whose handle is not among those taken before |
| Collection.UnseenAppend | app.py:171 | filtering a listing in pieces gives the pieces' results one after the other, so a batch keeps the listing's order |
| Collection.Texts | app.py:187-199 | a batch yields one text per element that is not stale |
| Collection.Cycle | app.py:160-207 | one pass of the loop body: a timed-out wait and only that stops on a timeout; otherwise the batch is the unseen elements; the handles, texts and count grow by exactly the batch; the loop scrolls exactly when the batch is non-empty and the count is still below the target, and stops on the target exactly when the batch is non-empty and the count has reached it; the two other stops change nothing |
| Collection.CycleNothingNew | app.py:171-183 | a cycle stops for lack of new elements exactly when its wait succeeded and every handle it listed, if any, had been taken |
| Collection.Cycles | app.py:159-207 | from any state below the target, the run makes at most one cycle per element still missing and scrolls once per cycle except the last; the count stays equal to the number of taken handles and is at least the number of texts; it stops on the target exactly when the count reached it, and the count before the last cycle's batch was below the target (what that batch is, is pinned by `CollectionProps.CyclesLastBatch`) |
| Collection.Collect | app.py:155-211 | a target of zero or less runs no cycle and returns empty lists; otherwise the run makes between 1 and `max_tweets` cycles, scrolling after every cycle but the last, and reaches the target exactly when the count is at least the target |
| Collection.ExtractBatch | app.py:187-199 | the extraction loop yields, in batch order, each non-stale element's joined and stripped span texts |
| Collection.PollCycle | app.py:160-204 | the loop body as written computes the same new `tweet_divs`, `tweets`, `tweets_loaded` and decision as one cycle |
| Collection.CollectTweets | app.py:155-211 | the loop as written returns what the run computes; the count equals the number of remembered handles and is at least the number of texts; with no positive target it returns nothing |
| CollectionProps.CycleBreak | app.py:171-183 | a stopping cycle on a listing had taken every listed handle when it stopped for lack of new ones, and its batch is no longer than the listing |
| CollectionProps.CyclesEndOnLastPoll | app.py:159-204 | every run from a state below the target agrees with the last poll it made |
| CollectionProps.CollectStops | app.py:159-204 | a run stops on a timeout exactly when its last poll timed out; when it stops for lack of new elements, everything the last poll listed had been taken; it reaches the target exactly when the count is at least the target; the count overshoots the target by less than the last listing's size, and not at all after a timeout |
| CollectionProps.CyclesLastBatch | app.py:171-204 | a run's reported last batch is what its last poll listed that had not been taken before that poll: the remembered handles end with exactly those handles, a timed-out last poll took none, and the count was below the target before they were added |
| CollectionProps.BreakLastBatch | app.py:171-185 | a cycle that leaves the loop ends with the handles taken before it followed by its batch's handles, its batch is empty after a timeout, and the count before its batch was below the target |
| CollectionProps.CollectOvershoot | app.py:155-204 | a whole run overshoots its target by less than its last batch, the elements its last poll listed that had not been taken before that poll, and by nothing after a timeout |
| CollectionProps.UnseenNoDup | app.py:171 | filtering a listing without repeated handles gives a batch without repeated handles |
| CollectionProps.CycleNoDup | app.py:171-185 | a cycle keeps the remembered handles free of repeats when its listing has none |
| CollectionProps.CyclesNoDup | app.py:159-207 | under the same assumption, every remaining part of a run keeps the handles free of repeats |
| CollectionProps.CollectNoDup | app.py:155-211 | when no listing repeats a handle, no element is taken twice in a run |
| CollectionProps.TookFromPrepend | app.py:185-193 | a cycle's batch, taken ahead of what the rest of the run takes, gives handles and texts that are the batch's followed by the rest's, each element listed by one of the run's polls |
| CollectionProps.BatchListed | app.py:168-171 | every element of cycle `k`'s batch was listed by poll `k`, so it is among the elements listed by any longer prefix of the run's polls |
| CollectionProps.CyclesTaken | app.py:159-207 | from cycle `k` on, the run appends to the remembered handles exactly the handles of `Taken` (each cycle's unseen batch, cycle after cycle), appends to the texts exactly their non-stale texts in the same order, and every taken element was listed by a poll the run made |
| CollectionProps.CollectTaken | app.py:155-211 | a whole run's remembered handles are exactly the handles of `RunTaken` (the unseen batches of its cycles, in order), its texts are exactly those batches' non-stale texts in the same order, and every taken element was listed by one of the run's polls; with `CollectNoDup`, no two texts come from the same element |
| CollectionProps.CycleCovers | app.py:168-185 | after a cycle the set of remembered handles is the set before plus every handle its poll listed, stale ones included |
| CollectionProps.CyclesCover | app.py:159-207 | if the remembered handles are those listed by the polls so far, they still are when the run ends |
| CollectionProps.CollectCovers | app.py:155-211 | a run's remembered handles are exactly the handles its polls listed: nothing listed is passed over and nothing unlisted is taken |
| CollectionProps.ListedBeforeNodes | app.py:168 | the handles listed by the first `n` polls are the handles of the elements those polls listed |
| CollectionProps.TargetReachedAfterSecondBatch | app.py:159-207 | a page showing 3 posts and then 5, with a target of 5, ends on the target after 2 cycles and 1 scroll, with 5 posts |
| CollectionProps.StaleElementNeverRetried | app.py:185-199 | an element that went stale is still remembered and counted, so when it is listed again, readable, it is not read; the run ends with no text |
| TweetsFile.LinesFromAppend | app.py:55-56 | writing one more post adds exactly its line, numbered one past the previous |
| TweetsFile.WriteTweets | app.py:54-56 | the write loop produces one `Tweet {i}: {text}` line per post, numbered from 1 in collection order |
| TweetsFile.ParseLinesFrom | app.py:54-56 | lines numbered from any start read back as the posts they were written from, when no post holds a line break |
| TweetsFile.RenderRoundTrip | app.py:54-56 | `tweets.txt` reads back as the collected list when no post holds a line break (the read-back cuts each line at its first line break) |
| TweetsFile.RenderAmbiguous | app.py:56 | a post holding a line break can produce the same file as two posts |
| Analysis.ScrapeTweets | app.py:139-211 | a bad start or end date is the only failure; a first wait that times out, or a target of zero or less, yields no posts; otherwise the posts are those the collection loop gathered from the page |
| Analysis.StageTweets | app.py:48-56 | nothing is staged, and the fixed message is returned, exactly when no post was collected; otherwise `keyword.txt` holds the keyword and `tweets.txt` reads back as the posts when none holds a line break |
| Analysis.RunAnalysis | app.py:44-56 | a run fails only on a bad date; it is staged exactly when the first result was visible and the loop collected at least one post, and is otherwise abandoned with the message; a staged file is the collected posts' `tweets.txt` |

## Behaviour worth noting

- **Stale elements.** Every unseen handle is added to `tweet_divs` and
  counted in `tweets_loaded` before any of them is read (app.py:175-185).
  A handle whose element goes stale while it is read is therefore never
  read again when it is listed later, and the returned list can be shorter
  than the count. `CollectionProps.StaleElementNeverRetried` shows such a
  run.
- **Keyword encoding.** The keyword goes into the search URL without
  percent-encoding (app.py:142), and `SearchQuery.SearchUrlRoundTrip`
  states exactly that.
- **Overshooting the target within a batch.** The count is compared with
  the target only after a whole batch (app.py:203). With batches of 3 and
  then 2 new posts and a target of 5, the run stops after the second cycle
  with one scroll and makes no third poll
  (`CollectionProps.TargetReachedAfterSecondBatch`). In general the count can pass the target by less
  than the size of the last batch (`CollectionProps.CollectOvershoot`).

## Left out

- Flask routes, the analysis thread and `progress_messages`, along with
  every `print` (app.py:21-42, 61-75): web and concurrency plumbing with no
  effect on the collected posts.
- `get_twitter_session_cookie` (app.py:77-118): the login through the
  browser. The model starts after the cookies are obtained.
- Browser start-up, setting the cookies and `driver.quit()` (app.py:121-137,
  209) are I/O. Navigation and the first 20-second wait (app.py:146-153)
  become the `firstVisible` parameter of `Analysis.ScrapeTweets`. Every
  later wait and listing is one entry of the page sequence.
- The relabelling `execute_script` call (app.py:195) and the scroll
  (app.py:207) act on the page. Their effect shows only in the answers the
  page gives later, which are the model's input. A stale-element error
  raised by the relabelling call comes after the text was appended, so the
  model treats that element as read.
- Selenium failures other than the timed-out waits (app.py:149, 162) and
  the stale-element error (app.py:196) have no outcome in the model. A
  `WebDriverException` from `find_elements` (app.py:168, 190) or from
  reading `span.text` (app.py:192) propagates out of
  `scrape_tweets_with_keyword` and ends the run without `driver.quit()`.
  `Collection.Read` and `Collection.Poll` have no such case, so the model
  describes only runs in which no such failure occurs.
- Collection.Page: a finite sequence of answers. A page whose answers have
  run out answers every further poll with a timeout. Any real run is
  described by giving enough answers.
- `pass_through_ai` (app.py:213-254): calls to a remote language model and
  file I/O.
- Writing `keyword.txt` and `tweets.txt` (app.py:51-56) is file I/O. The
  model gives the files' contents.
- Analysis.RunAnalysis: takes the count as an integer. The `int(tweet_count)`
  conversion (app.py:46), and the exception it raises on non-numeric input,
  are not modelled.
- Dates.ParseLongDate: accepts only the canonical English month names, one
  space, ASCII digits and a four-digit year. Python's `strptime` also
  accepts month names in any letter case, runs of whitespace where the
  format has a space, a space-padded day, and non-ASCII decimal digits. The
  model rejects those texts.
- Dates.IsoDate: always zero-pads `%Y` to four digits. The C library that
  `strftime` delegates to leaves years below 1000 unpadded on some
  platforms. The date parser's four-digit year makes such years unusual
  input.
- Text.Strip: works on `seq<char>` with Python's whitespace set. It does no
  Unicode normalisation, and browser text rendering (what `span.text`
  returns) is taken as given.
