# x-monitor reply extraction, in Dafny

This project models the logic of `scripts/monitor.py`, a tool that watches one X/Twitter
thread for new replies. The modelled operations are:

- `parse_tweet_url`: reads the handle and status id out of a thread URL.
- `parse_replies`: scans the text snapshot of a rendered mirror page line by line and
  rebuilds the reply records. A line containing "Replying to" marks a reply. The author is
  looked up in the 10 lines before the marker, the text in the 9 lines after it and the
  like count in the 14 lines after it. Records are deduplicated on the (author, text) pair.
- `is_question`: a substring test of the lower-cased text against a fixed list of markers.
- The result assembly of `monitor_tweet`, including the watch-mode diff. The diff lists the
  replies whose `author:text` key was not saved at the previous check, then overwrites the
  saved entry `tweet_<id>` with the current replies.

Modules, leaf first:

- `Wrappers` (`wrappers.dfy`): `Option` and `Result`.
- `Text` (`text.dfy`): the Python string operations the code relies on.
  - `strip()`, `lower()`, `in`, `startswith`, `replace(old, "")`, `split("\n")` and `int()`.
  - The regular expressions `@(\w+)` and `\d+`.
- `Sequences` (`sequences.dfy`): the list comprehension with a condition (`Filter`) and the
  two window-scan shapes of `parse_replies`.
  - `FirstPick` models a `for` loop that breaks at the first hit.
  - `LastPick` models a `for` loop that keeps overwriting, so the last hit wins.
- `Questions` (`questions.dfy`): `is_question`.
- `Replies` (`replies.dfy`): `parse_replies`.
  - The specification functions `ReplyAuthor`, `ReplyText`, `ReplyLikes`, `ReplyAt` and
    `Extract`, with their properties.
  - The imperative scan: the methods `ParseReplies`, `ScanLines`, `ReadReply`,
    `FindAuthor`, `FindText` and `FindLikes`, each proved equal to its specification
    function.
- `TweetUrl` (`tweet_url.dfy`): `parse_tweet_url`. It uses leftmost-match semantics for
  `re.search`, and the `ValueError` becomes a `Failure` result.
- `Monitor` (`monitor.dfy`): `monitor_tweet`.
  - The fetch outcome is a snapshot parameter: `None` when the fetch failed.
  - The clock reading is a `checkedAt` parameter.
  - The saved state is a map passed in and returned.

## Model

| member | source | states |
|---|---|---|
| TweetUrl.ParseTweetUrl | scripts/monitor.py:22-27 | Definition, no contract. `TweetUrl.ParseTweetUrlSpec` states its properties. |
| Questions.IsQuestion | scripts/monitor.py:165-173 | Definition, no contract. The `Questions` lemmas state its properties. |
| Replies.AuthorOf | scripts/monitor.py:124-126 | Definition, no contract. `Replies.AuthorFromWindow` states its properties over the window. |
| Replies.TextOf | scripts/monitor.py:130-135 | Definition, no contract. `Replies.TextOfSpec` states its properties. |
| Replies.LikesOf | scripts/monitor.py:139-146 | Definition, no contract. `Replies.LikesFromFirstDigit` states its properties. |
| Replies.ReplyAt | scripts/monitor.py:116-155 | Definition, no contract. `Replies.ReplyAtWellFormed` states its properties. |
| Replies.Extract | scripts/monitor.py:106-162 | Definition, no contract. `Replies.ScanIsDedup` and `Replies.ExtractWellFormed` state its properties. |
| Monitor.NewReplies | scripts/monitor.py:215-218 | Definition, no contract. `Monitor.NewRepliesSpec` states its properties. |
| Monitor.QuestionsOf | scripts/monitor.py:202 | Definition, no contract. `Monitor.QuestionsOfSpec` states its properties. |
| Text.Contains | scripts/monitor.py:116 | Definition, no contract. `Text.ContainsIff` states its properties. |
| Text.RemoveAll | scripts/monitor.py:132 | Definition, no contract. `Text.RemoveAllSpec` states its properties. |
| Text.Strip | scripts/monitor.py:113 | Definition, no contract. `Text.StripSpec` states its properties. |
| Text.Lower | scripts/monitor.py:172 | Definition, no contract. `Text.LowerKeepsOccurrence` and `Text.LowerMapsOccurrence` state its properties. |
| Text.FirstHandle | scripts/monitor.py:124 | Definition, no contract. `Text.FirstHandleSpec` states its properties. |
| Text.DigitRuns | scripts/monitor.py:140 | Definition, no contract. `Text.DigitRunsAreDigits`, `Text.NoDigitRuns` and `Text.FirstDigitRun` state its properties. |
| Text.DecimalValue | scripts/monitor.py:144 | Definition, no contract: the value of a string of ASCII digits, most significant first, with no limit on its length. `Text.ParseInt` adds CPython's limit. |
| Text.ParseInt | scripts/monitor.py:143-146 | Definition, no contract: `int()` of a digit string, `None` when it has more than 4300 digits (CPython's default `sys.int_info.default_max_str_digits`). `Replies.LikesFromFirstDigit` and `Replies.LikesFromFirstEngagement` state what it gives the like count. |
| Text.IsSpace | scripts/monitor.py:113 | Definition, no contract: the characters of Python's `str.isspace()`, which `strip()` removes here and at lines 130 and 139. `Text.TrimStartSpec`, `Text.TrimEndSpec` and `Text.StripSpec` state what stripping removes. |
| Text.IsDigit | scripts/monitor.py:140 | Definition, no contract: `\d` over ASCII, also used at line 24. `Text.DigitRunsAreDigits`, `Text.NoDigitRuns` and `Text.RunChars` state its use. |
| Text.IsWordChar | scripts/monitor.py:124 | Definition, no contract: `\w` over ASCII (letters, digits and `_`), also used at line 24. `Text.FirstHandleSpec` and `Text.RunChars` state its use. |
| Text.Run | scripts/monitor.py:124 | Definition, no contract: the greedy `\w+` or `\d+` run at an index. `Text.RunSpec` and `Text.RunIs` state its properties. |
| Text.FirstHandleFrom | scripts/monitor.py:124 | Definition, no contract: the scan behind `re.search(r'@(\w+)')`. `Text.FirstHandleFromSpec` states its properties. |
| Text.DigitRunsFrom | scripts/monitor.py:140 | Definition, no contract: the scan behind `re.findall(r'\d+')`. `Text.DigitRunsAreDigits`, `Text.NoDigitRuns` and `Text.FirstDigitRun` state its properties. |
| TweetUrl.UnparsableMessage | scripts/monitor.py:27 | Definition, no contract: "Cannot parse tweet URL: " + url. `TweetUrl.ParseTweetUrlSpec` states when it is the result. |
| TweetUrl.HandleStart | scripts/monitor.py:24 | The host alternation of the pattern: `x.com/` or `twitter.com/` at an index gives the index where the handle starts. Its only contract is that this index lies within the URL. `TweetUrl.MatchAtShape` and `TweetUrl.MatchFromPieces` state its properties. |
| TweetUrl.GroupsFrom | scripts/monitor.py:24 | Definition, no contract: the two groups `(\w+)/status/(\d+)` from the handle start. `TweetUrl.MatchAtShape` and `TweetUrl.GroupsFromPieces` state its properties. |
| Replies.LikesValue | scripts/monitor.py:143-146 | Definition, no contract: `int()` of the first number, or the initial 0 when `int()` raises and the `except` passes. `Replies.LikesFromFirstDigit` states its properties. |
| Replies.IsMarkerLine | scripts/monitor.py:113-116 | Definition, no contract. `Replies.ReplyAtWellFormed` states that only marker lines contribute records. |
| Replies.CleanText | scripts/monitor.py:132 | Definition, no contract. `Replies.TextOfSpec` states its properties. |
| Replies.IsAcceptableText | scripts/monitor.py:133 | Definition, no contract. `Replies.TextOfSpec` and `Replies.TextFromWindow` state its properties. |
| Replies.IsEngagementLine | scripts/monitor.py:139-141 | Definition, no contract. `Replies.LikesFromFirstDigit`, `Replies.NoLikesWithoutEngagement` and `Replies.LikesFromFirstEngagement` state its properties. |
| Replies.ReplyAuthor | scripts/monitor.py:123-126 | Definition, no contract. `Replies.AuthorFromWindow` states its properties. |
| Replies.ReplyText | scripts/monitor.py:129-135 | Definition, no contract. `Replies.NoTextInWindow` and `Replies.TextFromWindow` state its properties. |
| Replies.ReplyLikes | scripts/monitor.py:138-147 | Definition, no contract. `Replies.NoLikesWithoutEngagement` and `Replies.LikesFromFirstEngagement` state its properties. |
| Replies.Seen | scripts/monitor.py:157 | Definition, no contract. `Replies.SeenAdmit` and `Replies.DedupCovers` state its properties. |
| Replies.Admit | scripts/monitor.py:156-158 | Definition, no contract. `Replies.ExtractStep` and `Replies.ScanIsDedup` state its properties. |
| Replies.Dedup | scripts/monitor.py:156-158 | Definition, no contract. `Replies.DedupIsSubsequence`, `Replies.DedupUnique`, `Replies.DedupCovers` and `Replies.DedupKeepsFirst` state its properties. |
| Replies.Scan | scripts/monitor.py:111-160 | Definition, no contract. `Replies.ScanIsDedup` states its properties and `Replies.ScanLines` is proved equal to it. |
| Monitor.StateKey | scripts/monitor.py:208 | Definition, no contract: `"tweet_" + id`. `Monitor.MonitorTweet` states the new state under it. |
| Monitor.ReplyKey | scripts/monitor.py:212-217 | Definition, no contract. `Monitor.ReplyKeyInjective` and `Monitor.WellFormedKeys` state its properties. |
| Monitor.PriorKeys | scripts/monitor.py:209-213 | Definition, no contract. `Monitor.FirstCheckAllNew`, `Monitor.SecondCheckNothingNew` and `Monitor.SaveChangesOneEntry` state its properties. |
| TweetUrl.MatchAt | scripts/monitor.py:24 | Definition, no contract. `TweetUrl.MatchAtShape` and `TweetUrl.MatchFromPieces` state its properties. |
| TweetUrl.FirstMatchFrom | scripts/monitor.py:24 | Definition, no contract. `TweetUrl.FirstMatchFromSpec` and `TweetUrl.FirstMatchAfterNone` state its properties. |
| Text.StartsWith | scripts/monitor.py:131 | Definition, no contract: the text begins with the prefix, as `startswith` tests. `Replies.TextOfSpec` states what a `- text:` line yields. |
| Text.TrimStart | scripts/monitor.py:113 | Definition, no contract. `Text.TrimStartSpec` states its properties. |
| Text.TrimEnd | scripts/monitor.py:113 | Definition, no contract. `Text.TrimEndSpec` states its properties. |
| Sequences.FirstPick | scripts/monitor.py:129-147 | Definition, no contract. `Sequences.FirstPickSpec` and `Sequences.FirstPickPrefix` state its properties. |
| Sequences.LastPick | scripts/monitor.py:123-126 | Definition, no contract. `Sequences.LastPickSpec` states its properties. |
| TweetUrl.ParseTweetUrlSpec | scripts/monitor.py:22-27 | The call fails, with the message "Cannot parse tweet URL: " + url, exactly when no index of the URL starts a match. Otherwise it returns the groups of the leftmost match: a non-empty word-character handle and a non-empty digit id. |
| TweetUrl.FirstMatchFromSpec | scripts/monitor.py:24 | The `re.search` scan from `p` finds nothing exactly when no index at or after `p` starts a match. Otherwise it returns the match at the leftmost such index. |
| TweetUrl.MatchAtShape | scripts/monitor.py:24 | A match at `p` is the text `x.com/` or `twitter.com/`, then the handle, `/status/` and the id, found at `p`. The handle is non-empty word characters and the id is non-empty digits. |
| TweetUrl.ParseCanonicalUrl | scripts/monitor.py:22-27 | Round trip: `https://x.com/<h>/status/<d>` or `https://twitter.com/<h>/status/<d>`, followed by anything not starting with a digit, parses back to exactly `(h, d)`. |
| TweetUrl.CanonicalMatch | scripts/monitor.py:24 | The pattern matches right after the scheme of a canonical URL, with the handle and id it was built from. |
| TweetUrl.MatchFromPieces | scripts/monitor.py:24 | A host, a handle, `/status/` and an id laid out one after the other from `p`, with no digit after the id, are the match at `p`. |
| TweetUrl.GroupsFromPieces | scripts/monitor.py:24 | A handle, `/status/` and an id laid out one after the other from the handle start, with no digit after the id, are the groups found there. |
| TweetUrl.NoMatchInScheme | scripts/monitor.py:24 | No match starts inside `https://`. |
| TweetUrl.FirstMatchAfterNone | scripts/monitor.py:24 | When no index from `p` up to `k` starts a match and `k` does, the scan returns the match at `k`. |
| Text.ContainsIff | scripts/monitor.py:116 | `pat in s` holds exactly when `pat` occurs at some index of `s`. |
| Text.RemoveAllSpec | scripts/monitor.py:132 | `replace(pat, "")` never lengthens the text, and leaves a text without `pat` unchanged. |
| Text.TrimStartSpec | scripts/monitor.py:113 | `lstrip()` removes exactly the leading whitespace: the result is a suffix, everything cut is whitespace, and the result does not start with whitespace. |
| Text.TrimEndSpec | scripts/monitor.py:113 | `rstrip()` removes exactly the trailing whitespace, in the same terms. |
| Text.StripSpec | scripts/monitor.py:113 | `strip()` yields the slice of `s` with only whitespace before and after it, and it neither starts nor ends with whitespace. |
| Text.StripEnds | scripts/monitor.py:132 | A stripped text neither starts nor ends with whitespace. |
| Text.LowerKeepsOccurrence | scripts/monitor.py:172-173 | Lower-casing keeps every occurrence of a pattern that has no upper-case letter. |
| Text.LowerMapsOccurrence | scripts/monitor.py:172-173 | An occurrence of a pattern in a text becomes an occurrence of the lower-cased pattern in the lower-cased text. |
| Text.RunSpec | scripts/monitor.py:124 | The greedy `\w+`/`\d+` run is a slice made of the class, and the character after it is not of the class. |
| Text.RunIs | scripts/monitor.py:124 | A string of the class followed by the end or by a character outside the class is the greedy run. |
| Text.RunChars | scripts/monitor.py:124 | A word run is made of word characters and a digit run of digits. |
| Text.WordRunIs | scripts/monitor.py:24 | A word-character string followed by the end or by a non-word character is the word run there. |
| Text.DigitRunIs | scripts/monitor.py:24 | A digit string followed by the end or by a non-digit is the digit run there. |
| Text.FirstHandleFromSpec | scripts/monitor.py:124 | `re.search(r'@(\w+)')` from `p` finds nothing exactly when no `@` followed by a word character lies at or after `p`. Otherwise it captures the word run after the leftmost such `@`. |
| Text.FirstHandleSpec | scripts/monitor.py:124 | The same for the whole line. The captured handle is non-empty word characters. |
| Text.DigitRunsAreDigits | scripts/monitor.py:140 | Every run `re.findall(r'\d+')` returns is a non-empty string of digits. |
| Text.NoDigitRuns | scripts/monitor.py:140 | `re.findall(r'\d+')` returns nothing exactly when the line has no digit. |
| Text.FirstDigitRun | scripts/monitor.py:140 | The first run found is the maximal digit run at the first digit. |
| Text.SplitLines | scripts/monitor.py:109 | `split("\n")` returns at least one line. |
| Text.SplitLinesHaveNoNewline | scripts/monitor.py:109 | No line of the split contains a newline. |
| Text.JoinSplitLines | scripts/monitor.py:109 | Splitting loses nothing: joining the lines with newlines gives back the snapshot. |
| Text.SplitJoinLines | scripts/monitor.py:109 | Splitting text joined from newline-free lines gives back those lines. |
| Text.IndexOfAfter | scripts/monitor.py:212 | In `u + ":" + v` with no colon in `u`, the first colon is at the index just past `u`. |
| Sequences.Filter | scripts/monitor.py:202 | The comprehension result is no longer than its input, in original order. It holds exactly the elements that satisfy the condition, in both directions. |
| Sequences.FilterCounts | scripts/monitor.py:202 | Each kept element occurs in the comprehension's result as many times as in the input, and any other element not at all. |
| Sequences.FilterKeepsAll | scripts/monitor.py:215-218 | When every element satisfies the condition, the comprehension returns the whole list. |
| Sequences.FirstPickSpec | scripts/monitor.py:129-147 | A forward window loop that breaks finds nothing exactly when no line of the window yields a value. Otherwise it returns the value of the first line that does. |
| Sequences.FirstPickPrefix | scripts/monitor.py:129-147 | When no line before `j` yields a value and line `j` does, the forward loop returns the value of line `j`. |
| Sequences.LastPickSpec | scripts/monitor.py:123-126 | A window loop that keeps overwriting finds nothing exactly when no line yields a value. Otherwise it returns the value of the last line that does. |
| Sequences.CollectFrom | scripts/monitor.py:149-158 | Every collected record is present at some line below `k`. |
| Sequences.InCollect | scripts/monitor.py:149-158 | Every record present at a line below `k` is collected. |
| Questions.MarkersAreLowerCase | scripts/monitor.py:167-171 | No question marker contains an upper-case letter. |
| Questions.MarkerMakesQuestion | scripts/monitor.py:165-173 | A text containing a marker, written as listed, is a question. |
| Questions.MarkerInAnyCase | scripts/monitor.py:165-173 | A text containing a marker written in any ASCII case is a question: `HOW are you` is one through `how`. |
| Questions.QuestionMarkIsQuestion | scripts/monitor.py:168 | A text containing `?` or `？` is a question. |
| Questions.IsQuestionIgnoresCase | scripts/monitor.py:172-173 | The classifier gives the same verdict for a text and its lower-cased form. |
| Questions.MissingCharNotContained | scripts/monitor.py:173 | A marker with a character the text lacks does not occur in it. |
| Questions.QuestionExamples | scripts/monitor.py:165-173 | `How are you?` and `为什么呢` are questions. |
| Questions.NotAQuestionExample | scripts/monitor.py:165-173 | `Nice!` is not a question. |
| Replies.ParseReplies | scripts/monitor.py:106-162 | `parse_replies` returns `Extract` of the snapshot's lines. |
| Replies.ScanLines | scripts/monitor.py:111-160 | The marker loop. After each line, the list holds that line's record (if any) appended to the earlier ones, unless its pair was already seen. At the end it is `Extract`. |
| Replies.ReadReply | scripts/monitor.py:118-158 | Around a marker line it builds the record `ReplyAt`. The record exists only when both an author and a text were found. It carries the like count and the classifier's verdict on the text. |
| Replies.FindAuthor | scripts/monitor.py:122-126 | The backward loop over `[max(0, i-10), i)` returns the last line whose first handle is not the owner's, as "@" + handle. |
| Replies.FindText | scripts/monitor.py:128-135 | The forward loop over `(i, min(n, i+10))` returns the first acceptable cleaned `- text:` line, or nothing. |
| Replies.FindLikes | scripts/monitor.py:137-147 | The forward loop over `(i, min(n, i+15))` returns the first number of the first engagement line, or 0. It also returns 0 when `int()` raises on that number, because the `except` passes and the loop still breaks. |
| Replies.ExtractStep | scripts/monitor.py:149-158 | Reading one more line admits that line's record, if any, to the deduplicated candidates. |
| Replies.ScanIsDedup | scripts/monitor.py:111-160 | Admitting records line by line equals deduplicating all marker-line records in line order. |
| Replies.DedupIsSubsequence | scripts/monitor.py:156-158 | Deduplication keeps records in their original order and invents none. |
| Replies.DedupUnique | scripts/monitor.py:156-158 | No two kept records share an (author, text) pair. |
| Replies.DedupCovers | scripts/monitor.py:156-158 | The pair of every candidate is among the kept records. |
| Replies.DedupKeepsFirst | scripts/monitor.py:156-158 | The kept records are exactly the first record of each pair, in both directions. |
| Replies.SeenAdmit | scripts/monitor.py:157 | A pair seen stays seen after another record is admitted. |
| Replies.CandidateFromLine | scripts/monitor.py:116-155 | Every candidate record is the record of some marker line. |
| Replies.LineInCandidates | scripts/monitor.py:116-155 | Every marker line's record is among the candidates. |
| Replies.AuthorFromWindow | scripts/monitor.py:122-126 | There is no author exactly when every line of the 10 before the marker names no one or only the owner. Otherwise the author is "@" + a non-owner word handle. That handle is the first handle of some line of the window, and every later line of the window names no one or only the owner. |
| Replies.NoTextInWindow | scripts/monitor.py:128-135 | There is no text exactly when no line of the 9 after the marker yields one. |
| Replies.TextFromWindow | scripts/monitor.py:128-135 | A found text comes from the first yielding `- text:` line of the window, and earlier lines yield none. The text is cleaned, non-empty, free of "Replying to" and has no surrounding whitespace. |
| Replies.TextOfSpec | scripts/monitor.py:130-133 | What a line yields as text starts with `- text:` once stripped. It is the cleaned content, is acceptable and has no surrounding whitespace. |
| Replies.LikesFromFirstDigit | scripts/monitor.py:139-144 | A like count read from a line comes from a stripped line with at least three numbers. The count is the value of the whole digit run that starts at the first digit of that line, or 0 when that run has more than 4300 digits. |
| Replies.NoLikesWithoutEngagement | scripts/monitor.py:137-147 | The like count is 0 when none of the 14 lines after the marker is an engagement line. |
| Replies.LikesFromFirstEngagement | scripts/monitor.py:137-147 | Otherwise the like count is the first number of the first engagement line, or 0 when that number has more than 4300 digits. |
| Replies.ReplyAtWellFormed | scripts/monitor.py:122-155 | Every record built at a line is on a marker line and is well formed. Well formed means: the author is "@" + word characters and not the owner; the text is non-empty, free of "Replying to" and has no surrounding whitespace; the question flag is the classifier's verdict. |
| Replies.ExtractWellFormed | scripts/monitor.py:106-162 | Every returned record is well formed, and no two returned records share an (author, text) pair. |
| Replies.ParseExample | scripts/monitor.py:106-162 | Lines `@alice`, `Replying to @bob`, `- text: Why?` on the thread of `bob` yield exactly one reply: `@alice`, `Why?`, 0 likes, a question. |
| Monitor.MonitorTweet | scripts/monitor.py:176-231 | An unparsable URL is a failure and leaves the state alone. A failed fetch reports the fetch error and leaves the state alone. Otherwise the result reports the URL, the handle, the id, the check time, the total, the questions (filtered in order) and their count. Without watch mode it lists all replies and leaves the state alone. In watch mode it lists the new replies and their count, and replaces only the `tweet_<id>` entry with the current replies and check time. |
| Monitor.NewRepliesSpec | scripts/monitor.py:215-218 | The new replies are, in their original order, exactly the replies whose key was not saved before, each as many times as it occurs in the current replies. |
| Monitor.QuestionsOfSpec | scripts/monitor.py:202 | The questions are, in their original order, exactly the replies flagged as questions, each as many times as it occurs in the replies. |
| Monitor.FirstCheckAllNew | scripts/monitor.py:209-218 | With no saved entry for the thread, every reply is new. |
| Monitor.SecondCheckNothingNew | scripts/monitor.py:205-226 | A second check with the same replies, after the state was saved, finds nothing new. |
| Monitor.SaveChangesOneEntry | scripts/monitor.py:208-226 | After the save, a later check of any other thread compares against the same saved keys as before. A later check of this thread compares against the keys of the current replies. |
| Monitor.ReplyKeyInjective | scripts/monitor.py:211-217 | When no author holds a colon, two replies have the same `author:text` key exactly when they have the same pair. |
| Monitor.WellFormedKeys | scripts/monitor.py:211-217 | For extracted replies, equal keys and equal pairs coincide. |
| Monitor.NewRepliesByPair | scripts/monitor.py:209-218 | For extracted replies, a reply is new exactly when no saved reply has its author and text. This holds even when the saved replies were extracted for another thread owner, as happens when an earlier URL carried another handle with the same id. |
| Monitor.OneNewReplyExample | scripts/monitor.py:209-218 | Saved `[A]` and current `[A, B]`, with different keys, give new replies `[B]`. |

## Behaviour worth knowing

- The reply marker is a substring test: any stripped line that contains "Replying to"
  marks a reply.
- The author is looked up in the 10 lines before the marker. The last line whose first
  handle is not the owner's wins. The handle is compared with the thread owner's
  case-sensitively.
- The text is looked up in the 9 lines after the marker. Handle-link lines are not
  skipped. A `- text:` line whose cleaned text is empty or contains "Replying to" is
  passed over.
- The only counter read is `likes`: the first number of the first line, among the 14
  after the marker, that has at least three numbers and does not start with `- `. No
  display name and no relative time are read.
- `int()` raises `ValueError` on a number of more than 4300 digits, CPython's default
  limit. The `except` then passes, so `likes` stays 0, and the loop still stops at that
  line.
- The outer scan advances one line at a time, so lines after a marker are still tested
  as markers.
- The English question markers are `how`, `why`, `what`, `can you`, `is there` and
  `does`.
- `load_state` does not catch a corrupt state file. It raises.

## Left out

- `fetch_replies_via_camofox` (scripts/monitor.py:45-103): HTTP calls, the fixed wait and
  JSON decoding. Its outcome is the `snapshot: Option<string>` parameter of
  `MonitorTweet`, with `None` for any failure.
- The `camofox_port` and `nitter_instance` parameters only feed the fetch.
- `load_state` and `save_state` (scripts/monitor.py:30-42): file access and JSON
  encoding. The state is a map passed to `MonitorTweet` and returned by it.
  - The JSON round trip is not modelled.
  - A corrupt or missing file is not modelled.
  - A saved entry without a `replies` key is not modelled. The code reads it as an empty
    list, but a `ThreadState` always carries its replies.
- `datetime.utcnow().isoformat()`: the check time is the `checkedAt` input string.
- `main` and `scripts/version_check.py`: the command line, printing, and the release check.
- Unicode: `\w`, `\d` and `lower()` are taken over ASCII. Python's are Unicode-aware, so
  non-ASCII letters and digits are outside the modelled classes.
- `IndexError` in the `try`/`except` around `int(nums[0])` (scripts/monitor.py:143-146)
  is not modelled. It cannot be raised, because the guard ensures at least three digit
  runs. `ValueError` is modelled, for a run over the digit limit.
- `Text.ParseInt` uses the default digit limit of CPython 3.11 and later. It does not
  model a limit changed through `sys.set_int_max_str_digits` or `PYTHONINTMAXSTRDIGITS`,
  or an older Python without the limit.
- Diagnostics printed to standard error.
