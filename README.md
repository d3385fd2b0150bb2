# Verified model of the pull-request review script

The repository is one Python script, `pr-review/copilot_review_pr.py`. It
fetches a pull request's title, body and diff through the `gh` command-line
tool, sends five review prompts to a chat-completion service, and writes the
last answer to a file. Most of it is network, subprocess and file I/O. This
project models the four pieces of logic inside it and proves properties of
each:

- **Diff filter** (`remove_unittest_from_gitdiff`, module `DiffFilter`): a
  loop over the diff's lines with a `skip` flag. The method is proved against
  the function `KeptLines`, and the lemmas read the result file section by
  file section.
- **PR URL parsing** (`parse_github_pr_url`, module `PrUrl`): strip `/` from
  both ends of the URL path, split it on `/`, check the segments, and return
  `owner/repo` and the number, or raise `ValueError`.
- **Stream decoding** (the loop in `chat`, module `StreamDecode`): every
  response line that starts with `data: {` has its JSON payload read, and
  the text fragments are added up. The method is proved against the function
  `Decoded`.
- **Credential rotation** (`get_token`, module `TokenStore`): a counter
  object whose `GetToken` method picks `lines[counter % len]` and strips it,
  plus lemmas about runs of consecutive calls.

Module `Text` models the Python `str` operations these pieces use:
`startswith`, `in`, `strip`, `split` and `join`. Module `Results` holds
`Option` and `Result`.

Decoding JSON is a library call. It enters `StreamDecode` as a function
parameter `decode: string -> Payload`, which sorts every payload into one of
three outcomes:
- `Malformed`: `json.loads` raises.
- `BadShape`: anything inside the `try` raises and the bare `except`
  swallows it. This includes a truthy `content` that is not a string, since
  `result += completion` then raises `TypeError`.
- `Delta(content)`: the content of the first choice. A falsy non-string
  `content` counts as `Delta(None)`.

`urlparse` is a library call too. The path and the hostname it returns are
the inputs of `ParsePrUrl`. `str.splitlines` is also a library call, so the
diff filter takes the already-split lines.

The diff filter keeps less than its name promises. The function is called
`remove_unittest_from_gitdiff`, and the unused `exclude_patterns` list at
pr-review/copilot_review_pr.py:11-12 is described as patterns to exclude,
such as test directories. Both point to dropping the test files' sections.
The code instead sets `skip` at the first test header and never clears it
(pr-review/copilot_review_pr.py:171-173). So it keeps only the lines before
that header, and every later section is dropped too, test or not. The model
follows the code. A filter that drops only the test sections is modelled
beside it (see Findings).

In the stream decoder, `json.loads` sits outside the `try`
(pr-review/copilot_review_pr.py:127-128), so a malformed chunk raises out of
`chat`. The model returns `Err(MalformedChunk(payload))` from `DecodeStream`
in that case.

## Model

| member | source | states |
|---|---|---|
| Text.Split | pr-review/copilot_review_pr.py:187 | `str.split(sep)` always gives at least one part, and no part contains the separator |
| Text.JoinSplit | pr-review/copilot_review_pr.py:187 | joining the parts of a split with the separator gives back the original string |
| Text.SplitJoin | pr-review/copilot_review_pr.py:187 | splitting parts that were joined gives the parts back, provided no part contains the separator |
| Text.SplitAppend | pr-review/copilot_review_pr.py:187 | splitting `a + sep + b` gives the parts of `a` followed by the parts of `b` |
| Text.LStripSpec | pr-review/copilot_review_pr.py:187 | `lstrip` removes exactly the longest prefix made of stripped characters: the result is a suffix of the input and does not start with a stripped character |
| Text.RStripSpec | pr-review/copilot_review_pr.py:187 | `rstrip` removes exactly the longest suffix made of stripped characters: the result is a prefix of the input and does not end with a stripped character |
| Text.RStripAppend | pr-review/copilot_review_pr.py:187 | right-stripping `a + b`, where `a` ends in a kept character, strips only inside `b` |
| Text.ContainsAt | pr-review/copilot_review_pr.py:171 | an occurrence of `t` at any offset of `s` makes `t in s` true |
| Text.ContainsOccurs | pr-review/copilot_review_pr.py:171 | `t in s` is true only when `t` occurs at some offset of `s`; with `ContainsAt`, the substring test is exactly "occurs somewhere" |
| Text.NotContainsMissingChar | pr-review/copilot_review_pr.py:171 | if `s` lacks one of the characters of `t`, then `t in s` is false |
| DiffFilter.FirstTestHeader | pr-review/copilot_review_pr.py:171 | gives the index of the first line that starts with `diff --git` and contains `test/`, or the number of lines when there is no such line |
| DiffFilter.RemoveUnittestFromGitDiff | pr-review/copilot_review_pr.py:165-176 | the loop with its `skip` flag returns exactly the kept lines joined with `'\n'` |
| DiffFilter.KeptLinesPrefix | pr-review/copilot_review_pr.py:165-176 | the output is a prefix of the input with no test header in it; the line right after it is a test header; all lines are kept exactly when there is no test header |
| DiffFilter.NothingAfterTestHeader | pr-review/copilot_review_pr.py:167-174 | once a test header is reached nothing after it is kept, whatever follows it, because `skip` is never cleared |
| DiffFilter.KeptLinesIdempotent | pr-review/copilot_review_pr.py:171-176 | filtering the kept lines a second time keeps all of them |
| DiffFilter.Sections | pr-review/copilot_review_pr.py:169-171 | every line sequence splits into a prelude and file sections, each section starting at a `diff --git` header, and concatenating them gives back the same lines |
| DiffFilter.FirstTestSection | pr-review/copilot_review_pr.py:171 | gives the index of the first section whose header contains `test/`, or the number of sections when there is none |
| DiffFilter.KeptLinesBySection | pr-review/copilot_review_pr.py:165-176 | viewed as sections, the filter keeps the prelude and the whole sections before the first test section, and drops every section after it |
| DiffFilter.KeptLinesOfSections | pr-review/copilot_review_pr.py:165-176 | the same, stated for any input split into its own sections |
| DiffFilter.DropTestSectionsBySection | pr-review/copilot_review_pr.py:165-176 | the corrected filter keeps the prelude and exactly the non-test sections, each one whole and in their original order |
| DiffFilter.TestThenSource | pr-review/copilot_review_pr.py:171-173 | when a test section comes before a non-test section, the filter as written keeps nothing and the corrected filter keeps the non-test section |
| DiffFilter.TruncationCounterexample | pr-review/copilot_review_pr.py:171-173 | the same on a concrete two-file diff whose first file is under `test/` |
| PrUrl.ParsedPathShape | pr-review/copilot_review_pr.py:182-193 | every path `parse_github_pr_url` accepts reads, after stripping `/` from both ends, `owner/repo/pull/id` followed by nothing or by `/...`, with a non-empty owner and no `/` inside the owner, repository or number |
| PrUrl.ShapedPathParses | pr-review/copilot_review_pr.py:182-193 | conversely, every path of that shape is accepted and yields repository `owner/repo` and number `id`; the repository and the number may be empty, as the source checks only the segment count and segment 2 |
| PrUrl.EmptyIdAccepted | pr-review/copilot_review_pr.py:188-191 | `/owner/repo/pull//x` is accepted with an empty number, because the source never checks that the number is non-empty |
| PrUrl.ParsedShape | pr-review/copilot_review_pr.py:187-191 | on success the repository splits back into the first two path segments, and the number contains no `/` |
| PrUrl.ExtraSegmentsIgnored | pr-review/copilot_review_pr.py:188-191 | segments after the number do not change the result |
| PrUrl.WellShapedPathParses | pr-review/copilot_review_pr.py:187-191 | every path `/owner/repo/pull/id`, followed by nothing or by `/...`, parses to `owner/repo` and `id` |
| PrUrl.MissingNumberRefused | pr-review/copilot_review_pr.py:187-193 | `/owner/repo/pull/` has only three segments after stripping, so it is refused |
| StreamDecode.PayloadOf | pr-review/copilot_review_pr.py:125-127 | `line[6:]` of an event line starts with `{`, and the line is `data: ` followed by it |
| StreamDecode.DecodeStream | pr-review/copilot_review_pr.py:119-135 | the loop over the newline-split response returns `Decoded` of its lines: the accumulated text, or the first malformed payload as an error |
| StreamDecode.DecodedAppend | pr-review/copilot_review_pr.py:122-135 | the result for `a + b` is the result for `a` followed by the result for `b`; an error in `a` stops everything, and an error in `b` stops what comes after it |
| StreamDecode.DecodedSingle | pr-review/copilot_review_pr.py:125-135 | one line adds nothing if it is not an event line; it fails on a malformed payload; otherwise it adds its contribution |
| StreamDecode.IgnoredLine | pr-review/copilot_review_pr.py:123-125 | a line not starting with `data: {` can be inserted anywhere without changing the outcome |
| StreamDecode.EventLineInserted | pr-review/copilot_review_pr.py:125-135 | an event line `data: p` inserted anywhere: a malformed `p` ends decoding with its error after what came before; a shape error adds nothing; non-empty content is added verbatim at that point; absent or empty content adds exactly `"\n"` at that point |
| StreamDecode.IgnoredTrailingLine | pr-review/copilot_review_pr.py:122-125 | appending a newline and then a non-event line to the response text leaves the outcome unchanged |
| StreamDecode.DecodedFailsIff | pr-review/copilot_review_pr.py:125-127 | decoding fails if and only if some event line has a malformed JSON payload |
| StreamDecode.DecodedErrorIsFirst | pr-review/copilot_review_pr.py:123-127 | the error reports the first malformed payload |
| StreamDecode.FragmentThenEmpty | pr-review/copilot_review_pr.py:128-133 | a content fragment followed by an empty delta gives the fragment and then a newline |
| StreamDecode.FragmentThenEmptyDelta | pr-review/copilot_review_pr.py:128-133 | the chunks `{"choices":[{"delta":{"content":"foo"}}]}` and `{"choices":[{"delta":{}}]}` decode to `"foo\n"` |
| TokenStore.CredentialTrimmed | pr-review/copilot_review_pr.py:74 | a credential sits inside its line with only whitespace before and after it, and it neither starts nor ends with whitespace: exactly the line with whitespace removed from both ends |
| TokenStore.CredentialPool.constructor | pr-review/copilot_review_pr.py:16 | the counter starts at 0 |
| TokenStore.CredentialPool.GetToken | pr-review/copilot_review_pr.py:68-76 | returns the stripped line at the old counter modulo the number of lines, and leaves the counter one higher; an empty file is excluded, because the source divides by zero there |
| TokenStore.Rotation | pr-review/copilot_review_pr.py:71-75 | selection `i` of `k` consecutive selections from counter `start` is entry `(start + i) mod K` of the pool |
| TokenStore.GetTokens | pr-review/copilot_review_pr.py:64-76 | `k` calls in a row on the same file return `Rotation` of its credentials and advance the counter by `k` |
| TokenStore.RotationSnoc | pr-review/copilot_review_pr.py:74-75 | one more call adds the next credential in the cycle at the end |
| TokenStore.FullCycle | pr-review/copilot_review_pr.py:71-75 | K consecutive calls over a pool of K credentials return the pool rotated to start at the counter's position, which is a permutation of the pool |
| TokenStore.FirstCycleInOrder | pr-review/copilot_review_pr.py:16-75 | from a fresh counter, the first K calls return the credentials in file order |
| TokenStore.CycleRepeats | pr-review/copilot_review_pr.py:74 | call K+1 returns the same credential as the first call |
| TokenStore.SingleLinePool | pr-review/copilot_review_pr.py:74 | with one line in the file, every call returns its credential |

## Left out

- The device-code flow in `setup` (pr-review/copilot_review_pr.py:18-61) is left out: HTTP requests, an unbounded polling loop with `time.sleep`, and a file write, all I/O.
- The session-token request and the global `token` it sets (pr-review/copilot_review_pr.py:80-89) are left out as network I/O.
- In `chat` (pr-review/copilot_review_pr.py:91-117, 137-149), these are left out as network I/O, console output or state nothing reads: the chat POST, the `ConnectionError` that makes the call return `''`, the `messages` list, and the diagnostic prints for an empty result.
- Reading the credential file and calling `setup()` on `FileNotFoundError` (pr-review/copilot_review_pr.py:69-78) are left out as file I/O. `GetToken` takes the lines `readlines` returned.
- `run_cmd` (pr-review/copilot_review_pr.py:153-162) is left out: it runs a shell command.
- A failed `gh pr diff` makes `run_cmd` return `None` (pr-review/copilot_review_pr.py:159-162), and `main` passes that to `remove_unittest_from_gitdiff` (226), where `diff_content.splitlines()` (169) raises `AttributeError`. `RemoveUnittestFromGitDiff` takes a sequence of lines, which cannot be `None`, so this crash is not modelled.
- `main` (pr-review/copilot_review_pr.py:196-276) is left out: argument parsing, prompt text concatenation, prints and the output-file write.
- `urlparse`, `json.loads` and `str.splitlines` are library calls. They are inputs or the `decode` parameter, as described above.
- The `exclude_patterns` list (pr-review/copilot_review_pr.py:12) is not modelled, because nothing reads it.
- DiffFilter.KeptLinesIdempotent: states idempotence on lines, not on the joined text. Re-splitting the joined text with `splitlines` drops a trailing empty line, so filtering the text twice can differ from filtering it once. `splitlines` is not part of this model.
- Text.Split models only a one-character separator: the source calls `split` only with `'/'` and `'\n'`.

## Findings

| source | as written | input that shows it | evidently intended | confidence | as-written member | corrected member |
|---|---|---|---|---|---|---|
| pr-review/copilot_review_pr.py:171-173 | `skip` is set at the first `diff --git` header containing `test/` and never cleared, so every later file section is dropped too | a diff whose first file is `test/x.py` and whose second is `src/y.py`: nothing is kept | drop only the sections whose header contains `test/`, and keep the other sections whole (corrected filter `DropTestSections`: each header sets `skip` anew) | medium, not executed | DiffFilter.TruncationCounterexample | DiffFilter.DropTestSectionsBySection |

The model keeps the code's behaviour in `RemoveUnittestFromGitDiff`, because
that is what the script runs. Nothing else in the model uses the filter's
output, so `DropTestSections` stands beside it with its own proved property.
