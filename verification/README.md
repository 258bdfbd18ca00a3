# Amazon email checker — a Dafny model of its decision logic

The checker reads a list of email addresses and keeps one per non-blank line.
It checks each address against a regular expression. Each well-formed address
is then probed against a registration page, and the answer is sorted into one
of three output files. Counters are tallied and a progress percentage is
printed after each record. This project models the deterministic part of that
pipeline and proves properties of it:

- `EmailFormat` (email_format.dfy): `validate_email_format`. The pattern
  `^[a-zA-Z0-9._%+-]+@[a-zA-Z0-9.-]+\.[a-zA-Z]{2,}$` is stated as "there is a
  split of the string into the pattern's pieces" (`SplitAt`, `FullMatch`).
  Python's `$` also matches just before one final newline, and
  `RegexMatches` models that too. The checker `ValidateEmailFormat` splits at
  the first `@` and the last `.` after it, and is proved equivalent.
- `Probe` (probe.dfy): `check_email`'s retry loop. The network is an oracle:
  the sequence of answers the attempts would get, each a response body or a
  `TransportError`, which stands for any
  `requests.exceptions.RequestException` (connection errors, timeouts, too
  many redirects and the rest of that family). `Expected` states the result
  without the loop, and `CheckEmail` is proved to compute it.
- `Batch` (batch.dfy): `process_email` routes a record to an outcome and a
  bucket. `process_file` filters the lines, submits the records, and folds
  the outcomes into counters and percentages in submission order.
- `Text` (text.dfy): Python's `str.strip()` (with `str.isspace()`'s exact
  whitespace set) and the substring test `m in s`.
- `Outcomes` (outcomes.dfy): the four outcomes and the three per-outcome
  files.

`check_email`'s `max_retries` is a parameter of `CheckEmail`, `ProcessEmail`
and `ProcessFile`. The checker's own value is `Probe.MaxRetries` (2). A value
of 0 or less is allowed: then the loop never runs, `check_email` returns
`None`, and `process_email` files the address as failed.

Notes on the source's behaviour:

- A skipped address is written to no per-outcome file, only to the log
  (amazon.py:81-84).
- With `max_retries` of 0 or less, `check_email` returns `None`
  (amazon.py:68), and `process_email` then files the address as failed.
- Any HTTP response is classified, whatever its status code: `requests.get`
  is not asked to raise on an error status, so only a `RequestException`
  leads to a retry (amazon.py:70-75).

## Model

| member | source | states |
|---|---|---|
| EmailFormat.ValidateEmailFormat | amazon.py:48-49 | the format check returns true exactly when the anchored regular expression matches, counting the match Python's `$` allows before one final newline |
| EmailFormat.ShapeIffFullMatch | amazon.py:19 | the checker's reading of the pattern holds exactly when the pattern matches the whole string. That reading is: first `@` with a non-empty local part before it; domain characters after it; a last `.` with at least one character before it and at least two ASCII letters after it |
| EmailFormat.SplitAtIsUnique | amazon.py:19 | in any match, the `@` the split uses is the string's only `@`, and everything after the split's `.` is letters, so that `.` is the last one |
| EmailFormat.FullMatchEndsWithLetter | amazon.py:19 | a full match ends in an ASCII letter, so a final newline can only be the one `$` tolerates |
| EmailFormat.AcceptedHasExactlyOneAt | amazon.py:19 | every accepted string holds exactly one `@` |
| EmailFormat.RejectsWithoutAt | amazon.py:19 | a string with no `@` is rejected |
| EmailFormat.DotFollowsEveryAt | amazon.py:19 | in a match, a `.` comes after every `@` |
| EmailFormat.RejectsDotlessDomain | amazon.py:19 | a string with no `.` after its `@` (such as `a@b`) is rejected |
| EmailFormat.FinalLabelOfMatch | amazon.py:19 | in a match, the text after the last `.` is two or more ASCII letters |
| EmailFormat.RejectsBadFinalLabel | amazon.py:19 | a string not ending in a newline is rejected when the text after its last `.` is shorter than two characters or holds a non-letter |
| EmailFormat.AcceptExamples | amazon.py:19 | `a@b.co` is accepted, and so is `a@b.co` followed by a newline |
| EmailFormat.RejectExamples | amazon.py:19 | `bad-email`, `a@b` and `a@b.c` are rejected |
| Text.Strip | amazon.py:114 | `strip()` leaves no whitespace at either end, and its result is empty exactly when the line is all whitespace |
| Text.StripCutsOnlySpace | amazon.py:114 | `strip()` removes only whitespace: its result is the infix between a whitespace prefix and a whitespace suffix of the line |
| Text.StripIdempotent | amazon.py:114 | stripping a stripped line changes nothing |
| Text.Contains | amazon.py:71 | `m in s` holds exactly when `m` occurs in `s` at some index |
| Probe.Classify | amazon.py:71-74 | a response is `invalid` exactly when its body contains "Create account", otherwise `valid`; it is never `failed` |
| Probe.FirstResponse | amazon.py:68-75 | finds the first of the allowed attempts that got a response; every attempt before it got a transport error, and none is found only when all of them did |
| Probe.CheckEmail | amazon.py:68-78 | see below this table |
| Probe.ProbeAtMaxRetries | amazon.py:68-78 | at the checker's `max_retries` of 2: a response to the first attempt settles the probe after one attempt; an error then a response settles it after two; two errors give `failed` after exactly two attempts |
| Batch.ProcessEmail | amazon.py:80-105 | see below this table |
| Batch.RecordsAreClean | amazon.py:114 | the record list is no longer than the file, and every record is non-empty and stripped |
| Batch.RecordsOfOne | amazon.py:114 | a single line becomes its stripped form, or no record when it is blank |
| Batch.RecordsKeepsLine | amazon.py:114 | every non-blank line contributes its stripped form to the record list, in its place: after the records of the lines before it and before those of the lines after it |
| Batch.RecordsAround | amazon.py:114 | a non-blank line between two parts of the file becomes one record between the records of those parts |
| Batch.RecordsAppend | amazon.py:114 | filtering distributes over concatenation, so the kept lines keep their order |
| Batch.RecordsIdempotent | amazon.py:114 | filtering the record list again changes nothing |
| Batch.ScenarioRecords | amazon.py:114 | the lines `x`, blank, `y`, `x` give the records `x`, `y`, `x`: the blank line is dropped and the duplicate kept |
| Batch.ScenarioFormats | amazon.py:81-84 | `ok@example.com` passes the format check and `bad-format` is skipped |
| Batch.IncBumpsOneCounter | amazon.py:137 | `results[result] += 1` raises that one counter by one and leaves the other three alone |
| Batch.TallySnoc | amazon.py:135-137 | awaiting one more outcome applies one more increment to the running counters |
| Batch.TallyTotal | amazon.py:137-138 | after any sequence of outcomes, the counters sum to the number of outcomes |
| Batch.TallyCountsOutcomes | amazon.py:117-137 | each counter equals the number of outcomes of its kind |
| Batch.PercentIsFloor | amazon.py:139 | the percentage is the floor of progress × 100 / total. It lies in 0..100 and is 100 exactly when progress equals the total |
| Batch.PercentMonotone | amazon.py:139 | more progress never gives a lower percentage |
| Batch.ProgressTraceIndex | amazon.py:135-140 | the `k`-th percentage printed is the one for `k + 1` completed records |
| Batch.ProgressIsMonotone | amazon.py:135-140 | the printed percentages never decrease, stay within 0..100 and end at 100 |
| Batch.DispatchAll | amazon.py:127-133 | one dispatch per record, in list order, each routed as `process_email` promises |
| Batch.Aggregate | amazon.py:135-140 | see below this table |
| Batch.ProcessFile | amazon.py:112-139 | see below this table |
| Outcomes.BucketOf | amazon.py:88-105 | `valid` goes to the valid file, `invalid` to the invalid file and `failed` to the retry file |

Four rows need more than one line:

- `Probe.CheckEmail`:
  - it returns what `Expected` specifies;
  - it makes at most `max_retries` attempts, and none after a response;
  - with no attempt allowed, it returns `None`;
  - the first response decides the outcome, through `Classify`;
  - it returns `failed` exactly when every allowed attempt gets a transport
    error, and then only after all `max_retries` attempts.
- `Batch.ProcessEmail`:
  - the result is skipped exactly when the format check fails, with no probe
    and no file;
  - otherwise `valid` and `invalid` pass through and anything else, a missing
    result included, becomes `failed`;
  - each non-skipped address goes to exactly the file of its outcome.
- `Batch.Aggregate`:
  - the counters are the in-order fold of the outcomes and sum to their
    number;
  - each printed percentage comes from the sum of the counters at that point;
  - with no records, nothing is printed and nothing is divided.
- `Batch.ProcessFile`:
  - every record gets exactly one routed outcome;
  - each counter equals the number of records with its outcome, and the
    counters sum to the number of records;
  - the percentages rise monotonically within 0..100 and end at 100.

## Left out

- The HTTP request, its URL, its fixed query parameters and the User-Agent
  header (amazon.py:52-66, amazon.py:70). The request is a foreign network
  call and is replaced by the oracle sequence of answers.
- Exceptions raised in `process_email` other than a `RequestException`, such
  as an `OSError` from the appends (amazon.py:89-90, 95-96, 101-102) or from
  `log` (amazon.py:109-110). Such an exception is stored in the worker's
  future and raised again by `future.result()` (amazon.py:136), inside the
  thread-pool block. Leaving that block still waits for every submitted
  record, so those are still probed and written. What stops is the counting,
  the progress line and the summary, and the exception then leaves
  `process_file`. The model raises no such exception.
- The per-attempt timeout of 10 seconds (amazon.py:17). Wall-clock time is
  not modelled, so a timeout is one `TransportError` answer.
- The thread pool of 10 workers (amazon.py:127-133). The coordinator awaits
  the futures in submission order, so the tally is a sequential fold. The
  order in which workers append to the shared files is unspecified, and the
  model only says which file each address goes to.
- All file I/O. This covers truncating the four files at start-up
  (amazon.py:24-29), the appends (amazon.py:89-90, 95-96, 101-102) and
  `log` (amazon.py:107-110). The chosen file is returned as a value.
- The wording of the log lines. The `[+]`, `[-]`, `[?]` and `[!]` status
  strings are console and file output.
- Reading the input file and splitting it into lines (amazon.py:113).
  `ProcessFile` takes the lines already split.
- The banner, the console progress line, the final summary, the command-line
  and `input()` handling, and the missing-file exit (amazon.py:31-46,
  amazon.py:140-150, amazon.py:152-166).
- The `count` and `total` arguments of `process_email`. The function never
  uses them.
