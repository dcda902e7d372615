# Gamertag availability checker — Dafny model

Gamertag is a bulk availability checker for Xbox Live gamertags. It reads a
list of candidate names, filters out the ones that cannot be gamertags (more
than 15 characters, or characters outside ASCII letters, digits and space),
and then asks the Xbox Live reservation endpoint about each remaining name in
turn. A name answered with HTTP 200 is available: it is appended to
`available.txt` and counted. Every request is followed by a 1.5 s pause.
A 429 (rate limited) answer adds a 15 s pause.

The model has three modules:

- `Validator` (`validator.dfy`) models `VerifyGamertags`. The Python list is
  the class `GamertagList`; `del gamertags[i]` is the method
  `GamertagList.Delete`, which reports an out-of-range index (Python's
  `IndexError`) instead of deleting. The method `VerifyGamertags` keeps both
  the hidden position of the `for` iterator and the counter `i`, as the code
  does. It is proved equal to `AsWritten`, a recursive definition of what the
  loop really does. The pattern check follows Python's `re.match` with `$`,
  which also accepts a single trailing newline (`MatchesPattern`).
  - Because the loop deletes from the list it walks, the entry after a deleted
    one slides into the current slot and is never examined.
  - A name that fails both checks is deleted twice. The second deletion
    removes the next, unexamined entry. If there is no next entry, it raises
    `IndexError`, which ends the run.
  - `Fates` gives every entry one of four fates (kept, dropped, skipped
    unexamined, deleted unexamined) and is proved to explain `AsWritten`
    exactly. `Filter` is the intended filter. `FilterGamertags` is the
    corrected in-place loop, proved equal to it.
- `Checker` (`checker.dfy`) models `CheckAvailability` and `SaveAvailable`.
  The endpoint's answers are an input sequence `statuses`; whether each append
  to `available.txt` succeeds is an input sequence `writeOk`. The method
  returns:
  - the count;
  - the new file contents;
  - a trace of effects: one request per name, one save per 200 answer, and
    the pauses in tenths of a second.

  The trace is specified by `Rounds`, and the lemmas read the requests, saves,
  written lines and total pause off it.
- `Scenario` (`scenario.dfy`) is the model's own worked example of a whole
  run. A four-name list is validated, and the names that survive are passed to
  `CheckAvailability` with answers 409 and 200.

Where the stated intent and the code disagree, the model follows the code:
- The docstring of `VerifyGamertags` (availability.py:64) promises "a list of
  gamertags which meet the Xbox Live gamertag specifications". The code skips
  entries, and it can delete valid names or raise. This appears below as a
  finding.
- The docstring of `CheckAvailability` promises a list of available gamertags.
  The code returns only their count, and that is what the model returns.

## Model

| member | source | states |
|---|---|---|
| Validator.Failures | availability.py:68-81 | A name fails 0, 1 or 2 checks, and fails both exactly when it is longer than 15 characters and does not match the pattern (both deletions then run). |
| Validator.IsGamertag | availability.py:68-76 | A name passes exactly when it fails no check; a passing name has 1 to 15 characters, and every name of 1 to 15 letters, digits or spaces passes. |
| Validator.GamertagList.constructor | availability.py:56 | The list object holds exactly the loaded names. |
| Validator.GamertagList.Delete | availability.py:73-81 | `del` at an index inside the list removes exactly that entry and keeps the others in order; at an index past the end it fails and leaves the list unchanged. |
| Validator.KeepStep | availability.py:67-83 | An examined name that passes both checks stays where it is, and the counter moves past it. |
| Validator.DropStep | availability.py:67-83 | After deleting an examined name that fails one check, the next name sits at the counter's old slot and is passed over unexamined. |
| Validator.DoubleStep | availability.py:67-83 | After deleting an examined name that fails both checks together with its successor, the name after those two sits at the counter's old slot and is passed over. |
| Validator.LoopStep | availability.py:67-83 | One pass of the loop body that does not raise keeps the list in step with the as-written result. |
| Validator.RaisingStep | availability.py:68-81 | When the last entry fails both checks, the second deletion is out of range and the result is an `IndexError` with the earlier survivors left in the list. |
| Validator.VerifyGamertags | availability.py:63-85 | The list is left exactly as the as-written behaviour says, the call raises `IndexError` exactly in the case that behaviour predicts, it otherwise returns the same list object, and the survivors are a subsequence of the input. |
| Validator.FatesExplainSurvivors | availability.py:66-85 | The surviving list is exactly the entries whose fate is kept or skipped, in their original order. |
| Validator.FatesExplainIndexError | availability.py:66-85 | The run raises `IndexError` exactly when the last entry is examined (it is not deleted as a successor) and fails both checks. |
| Validator.ExaminedEntriesDecided | availability.py:68-81 | Every entry the loop examines is kept only if it passes both checks and dropped only if it fails one. |
| Validator.EntryAfterDeletionUnexamined | availability.py:67-83 | After a single failure the next entry is skipped unexamined; after a double failure the next entry is deleted unexamined and the one after it is skipped. |
| Validator.AsWrittenSubsequence | availability.py:66-85 | The survivors are the input with some entries removed and the rest in their original order. |
| Validator.AsWrittenNoLonger | availability.py:66-85 | The surviving list is never longer than the input. |
| Validator.UnchangedIffAllPass | availability.py:66-85 | The list comes back unchanged and without an error if and only if every entry passes both checks. |
| Validator.UnchangedOnlyIfAllPass | availability.py:66-85 | A list that comes back unchanged and without an error held only passing entries. |
| Validator.AllPassUnchanged | availability.py:66-85 | A list whose entries all pass comes back unchanged and without an error. |
| Validator.WellFormedListUnchanged | availability.py:68-76 | A list whose every entry has 1 to 15 letters, digits or spaces comes back unchanged. |
| Validator.FilterKeepsExactlyValid | availability.py:63-64 | The intended filter keeps a name exactly when it is in the input and passes both checks, keeps every occurrence of a passing name (as many copies as the input holds) and none of a failing one, and keeps the input order. |
| Validator.AsWrittenFiltersWhenFailuresIsolated | availability.py:63-85 | When no entry fails both checks and no failing entry is directly followed by another failing entry, the as-written loop gives exactly the intended filter and raises nothing. |
| Validator.SkippedInvalidSurvives | availability.py:66-83 | On `["bad!", "bad?"]` the loop returns `["bad?"]`, an invalid name, while the intended result is empty. |
| Validator.DoubleFailureDeletesSuccessor | availability.py:68-81 | A name failing both checks deletes the valid name after it, and as the last entry it makes the loop raise `IndexError`. |
| Validator.FilterGamertags | availability.py:63-64 | The corrected in-place loop leaves exactly the intended filter of the input in the list. |
| Checker.RoundPosts | availability.py:93-101 | One loop iteration posts exactly one request, for its own name. |
| Checker.RoundSaves | availability.py:107-111 | One loop iteration calls SaveAvailable with its name exactly when the answer is 200. |
| Checker.RoundWritten | availability.py:107-111 | One loop iteration adds its name as a line exactly when the answer is 200 and the write succeeds. |
| Checker.RoundPaused | availability.py:129-146 | One loop iteration pauses 1.5 s, plus 15 s when the answer is 429. |
| Checker.SaveAvailable | availability.py:151-158 | A successful append adds exactly the name and a newline after the existing lines; a failed one leaves the file as it was. |
| Checker.CheckAvailability | availability.py:88-148 | The count is the number of 200 answers and at most the number of names. The file gains exactly the names answered 200 whose writes succeeded, in order, each as the name and a newline. One request goes out per name, in order. The names saved are the ones answered 200. The total pause is 1.5 s per name plus 15 s per 429. |
| Checker.RoundsPosts | availability.py:93-101 | Over a whole run, the requests go out for exactly the input names, once each, in order. |
| Checker.RoundsSaves | availability.py:104-111 | Over a whole run, SaveAvailable is called for exactly the names answered 200, in order. |
| Checker.RoundsPaused | availability.py:129-146 | Over a whole run, the total pause is 1.5 s per name plus 15 s per 429 answer. |
| Checker.AvailableCount | availability.py:91-111 | The number of saved names equals the number of 200 answers and is at most the number of names. |
| Checker.WrittenAtMostAvailable | availability.py:108-111 | The file never gains more lines than there are names answered 200. |
| Checker.WrittenIsSucceededLines | availability.py:104-111 | Whatever writes fail, the file gains exactly the names answered 200 whose write succeeded, in order, one per line. |
| Checker.WrittenAllSucceeded | availability.py:108-111 | If every write succeeds, the file gains exactly one line per name answered 200, each the name and a newline, in order. |
| Checker.NonSuccessChangesNothing | availability.py:103-141 | An answer other than 200 changes neither the count, nor the saved names, nor the file: the count, the SaveAvailable calls and the file are those of the run without that name (its request and its pauses still happen). |
| Checker.PauseBeforeEveryRequest | availability.py:141-146 | Every request after the first is directly preceded by the 1.5 s pause, and a non-empty run ends with it. |
| Scenario.ValidatedExample | availability.py:63-85 | The sample list validates to `["Player1", "Player2"]`, and the fate of each entry is shown. |
| Scenario.CheckedExample | availability.py:88-158 | For the names that survive validation, with answers 409 and 200, only `Player2` is saved and written, and the run pauses twice for 1.5 s. |
| Scenario.CheckedRun | availability.py:24-25 | Running `CheckAvailability` on the names that survive validation, with answers 409 and 200 and an empty `available.txt`, counts 1 and leaves `available.txt` holding exactly `Player2` and a newline. |

## Left out

- The HTTP request (`requests.post`, its headers and JSON payload, `req.close`) is not modelled. Each name's status code is an input instead, and network exceptions, which would end the run, are not modelled.
- Printing the body of 400 and 401 answers, and all colored console output (colorama, `print`), are not modelled, because they do not change any state.
- The parsing of the 429 body (`json.loads` and its three keys) is not modelled, because only the pause depends on that branch. A body that is not JSON, or lacks a key, would raise in the source, and the model does not capture that error.
- `time.sleep` is not modelled as a real delay. Pauses are only recorded, in integer tenths of a second (1.5 s is 15).
- The wall-clock timing in `main` is not modelled.
- `LoadCredentials`, `LoadList` and the opening of `available.txt` are not modelled, because they are file I/O. The file is a sequence of lines, and whether each append succeeds is an input. The authorization token and reservation identifier only go into the request, so they are left out with it.
- `main` is not modelled as a procedure of its own, because it only sequences the two steps and prints. The chaining appears in `Scenario`: in its lemmas, and in the method `Scenario.CheckedRun`, which calls `CheckAvailability` on the validated example list.
- Exiting on `KeyboardInterrupt` is not modelled, because it is an external interrupt.
- Validator.GamertagList.Delete: negative indices of `del` are not modelled, because the loop only ever deletes at a non-negative counter.
- String length counts Dafny characters (Unicode scalar values), which is the same as Python's `len` on `str`. No Unicode normalisation is modelled.

## Findings

| source | as written | input that shows it | evidently intended | confidence | as-written member | corrected member |
|---|---|---|---|---|---|---|
| availability.py:66-83 | Entries are deleted from the list while a `for` loop walks it, so the entry after each deleted one is never examined. | `["bad!", "bad?"]` returns `["bad?"]` | Return exactly the names that pass both checks, in order. | not executed | Validator.SkippedInvalidSurvives | Validator.FilterGamertags |
| availability.py:68-81 | A name that is too long and also fails the pattern is deleted twice. The second `del` removes the next, unexamined name, or raises `IndexError` when there is none. | `["Sixteen_chars!!!", "Player2"]` returns `[]`; `["Player1", "Sixteen_chars!!!"]` raises `IndexError` | Remove the failing name once and keep checking the rest. | not executed | Validator.DoubleFailureDeletesSuccessor | Validator.FilterGamertags |
