# Batch executor, modelled in Dafny

The batch executor reads a command template, for example
`curl https://api.example.com/items/<id>`, and a CSV file whose first column
holds IDs. It then runs the template once per ID in a shell, with every
`<id>` replaced by that ID. It counts the runs that exit with 0 as
successes and the others as failures, and it pauses `delay_ms`
milliseconds between two consecutive items. In a dry run it only counts
and pauses.

This project models `batch_executor.py` in two modules:

- `PyStr` (`py_str.dfy`) holds the parts of Python's `str` that the
  executor relies on. `Strip` is `str.strip()` over the full
  `str.isspace()` character set. `Replace` is `str.replace` with a
  non-empty target: a left-to-right scan that replaces non-overlapping
  occurrences. `Split` and `Join` are `str.split` and `str.join`, and they
  serve as the independent partner of `Replace`.
- `BatchExecution` (`batch_executor.dfy`) holds the rest:
  - the outcome of one run and the triple `execute_command` makes of it;
  - the IDs that `read_ids_from_csv` keeps from the rows;
  - the class `BatchExecutor`, with the fields `commandFile`, `csvFile`
    and `delayMs` and the three reading and running methods.

The environment is a value of type `Io`. `readText(path)` gives a file's
text or the message of the exception raised while reading it.
`readCsv(path)` gives the rows the CSV reader yields, or the exception's
message. `run(k, command)` gives what the k-th launched command ends in:
it exits with a return code and output, it times out, or launching it
raises. `RunBatchExecution` returns how the run ended and a trace of what
it did: each execution with its command and result, and each pause with
its length. It reads the template and the IDs, then hands the loaded
`Batch` to `ProcessIds`, the loop over the IDs. That loop's contract ties
the trace to the specification function `Batch.Events`. The lemmas about `Events` state the call counts, the
order of the calls and where the pauses fall.

A negative `delay_ms` is accepted by the constructor and by the command
line. `time.sleep` then raises `ValueError` at the first pause, so the
run stops after the first item with that exception. The model keeps this
behaviour as `Aborted(NegativeSleepLength)`.

## Model

| member | source | states |
|---|---|---|
| `PyStr.Strip` | batch_executor.py:71-72 | the stripped text has no whitespace at either end, and it is empty exactly when the text is all whitespace |
| `PyStr.StripIsMiddle` | batch_executor.py:53 | stripping removes whitespace only at the two ends: the result is a slice of the input with only whitespace before and after it |
| `PyStr.Replace` | batch_executor.py:89 | computes `str.replace` for a non-empty target: a left-to-right scan that replaces each occurrence not overlapping an earlier replaced one; its properties are the lemmas below |
| `PyStr.ReplaceIsJoin` | batch_executor.py:87-89 | `replace` gives the pieces of the text between the non-overlapping occurrences found scanning left to right, joined with the replacement |
| `PyStr.JoinSplit` | batch_executor.py:87-89 | joining those pieces with the target itself gives back the original text |
| `PyStr.SplitPiecesClean` | batch_executor.py:87-89 | no piece between two cut points contains the target (for a target that can overlap itself an occurrence may still straddle a cut point, as in `"aaa".replace("aa", "X")`) |
| `PyStr.OccurrencesAreCuts` | batch_executor.py:87-89 | for a target that cannot overlap itself, every occurrence in the text is a cut point of the split, where the replacement goes |
| `PyStr.CutsAreOccurrences` | batch_executor.py:87-89 | every cut point of the split is an occurrence of the target in the text |
| `PyStr.ReplaceAbsent` | batch_executor.py:87-89 | a text that does not contain the target comes back unchanged |
| `BatchExecution.ReplaceIdInCommand` | batch_executor.py:87-89 | the command is the template's pieces between `<id>` placeholders, joined with the ID |
| `BatchExecution.PlaceholderSelfOverlapFree` | batch_executor.py:89 | `<id>` cannot overlap itself: no proper suffix of it is also a prefix |
| `BatchExecution.EveryPlaceholderReplaced` | batch_executor.py:87-89 | the positions where `<id>` occurs in the template are exactly the cut points at which the ID is put, so every `<id>` is replaced |
| `BatchExecution.ReplaceIdInCommandSpec` | batch_executor.py:87-89 | the pieces rejoined with `<id>` give back the template; no piece contains `<id>`; a template without `<id>` is returned unchanged |
| `BatchExecution.ExecuteCommand` | batch_executor.py:98-113 | never raises; a completed run passes return code, stdout and stderr through; a timeout gives (-1, "", "Command timed out"); any other exception gives (-1, "", its message); the exit code is 0 exactly when the command exited with 0 |
| `BatchExecution.IdsOf` | batch_executor.py:66-72 | computes the IDs of the rows in row order: the stripped first cell of each row that has a non-blank first cell; its contract: at most one ID per row |
| `BatchExecution.IdsOfStripped` | batch_executor.py:66-72 | every ID read is non-empty and has no surrounding whitespace |
| `BatchExecution.IdsOfAppend` | batch_executor.py:70-72 | the IDs keep the row order: the IDs of two blocks of rows are the IDs of the first followed by those of the second |
| `BatchExecution.IdsOfSource` | batch_executor.py:70-72 | every ID comes from a row whose first cell is non-blank and strips to that ID |
| `BatchExecution.IdsOfKept` | batch_executor.py:70-72 | every row with a non-blank first cell contributes its stripped first cell to the IDs |
| `BatchExecution.IdsOfMembers` | batch_executor.py:70-72 | a string is among the IDs exactly when some row has a non-blank first cell that strips to it |
| `BatchExecution.IdsOfBlankRows` | batch_executor.py:71-74 | empty rows and rows with a blank first cell give no ID |
| `BatchExecution.IdsOfAllKept` | batch_executor.py:70-72 | rows that all have a non-blank first cell give exactly one ID each, in row order, the stripped first cell |
| `BatchExecution.Batch.Step` | batch_executor.py:140-175 | the events of one loop iteration: the execution of the item's command with its result unless the run is dry, then a pause of `delay_ms` unless the item is the last |
| `BatchExecution.Batch.Events` | batch_executor.py:140-175 | the events of the first n iterations, in order; the lemmas below state what they amount to |
| `BatchExecution.SuccessesPlusFailures` | batch_executor.py:159-170 | every execution is counted once, as a success if its exit code is 0 and as a failure otherwise |
| `BatchExecution.AllExitZero` | batch_executor.py:159-163 | when every command exits with 0, all are successes and none is a failure |
| `BatchExecution.EventsExecuted` | batch_executor.py:140-157 | outside a dry run the runner is called once per ID, in ID order, with the template filled with that ID; a dry run never calls it |
| `BatchExecution.EventsSleeps` | batch_executor.py:150-175 | there are len(ids)-1 pauses, each of `delay_ms`, and none after the last item |
| `BatchExecution.EventsAlternate` | batch_executor.py:140-175 | outside a dry run, executions and pauses alternate, starting and ending with an execution |
| `BatchExecution.EventsDryRun` | batch_executor.py:146-154 | a dry run does nothing but pause, once between each two consecutive items |
| `BatchExecution.CompleteRun` | batch_executor.py:140-175 | a run over at least one ID that is not cut short calls the runner once per command, in ID order (never in a dry run), pauses len(ids)-1 times for `delay_ms`, and counts every result once |
| `BatchExecution.ProcessIds` | batch_executor.py:137-175 | the loop over the IDs produces exactly the specified trace, with success and failure counters that are the exit-code counts (len(ids) and 0 in a dry run); with a negative delay and more than one ID it raises at the first pause, after the first item |
| `BatchExecution.BatchExecutor.constructor` | batch_executor.py:36-47 | the executor keeps the two paths and the delay, 1000 ms unless given |
| `BatchExecution.BatchExecutor.ReadCommandTemplate` | batch_executor.py:49-59 | the template is the command file's text, stripped; a read error is propagated unchanged |
| `BatchExecution.BatchExecutor.ReadIdsFromCsv` | batch_executor.py:61-85 | the loop over the rows returns exactly the IDs of the rows; a read error is propagated unchanged |
| `BatchExecution.BatchExecutor.RunBatchExecution` | batch_executor.py:115-181 | the template is read before the IDs, and a read error escapes before anything runs; no ID means no execution and no pause; otherwise the trace is the specified one, there are len(ids)-1 pauses of `delay_ms`, and the counters add up to len(ids): in a dry run all are successes, otherwise they are the exit-code counts; a negative delay raises at the first pause, after the first item |

## Left out

- Opening the files, their UTF-8 decoding and the CSV reader's quoting and tokenising are not modelled. A read gives the file's text or its rows, or the message of the exception it raised. A CSV reader that raises part-way through the file is the same as a failed read, because the IDs read so far are discarded with the exception.
- `subprocess.run` with `shell=True` and its 300-second timeout is not modelled. The environment's `run` gives its outcome.
- Exceptions that `execute_command` does not catch, which are those outside `Exception` such as `KeyboardInterrupt`, are not modelled.
- The conversion `delay_ms / 1000.0` and the real pause are not modelled. A pause is recorded as an event that carries `delay_ms`. The `OverflowError` that the pause raises for a delay beyond float range is not modelled. The `ValueError` it raises for a negative delay is modelled.
- All logging is left out. This covers the per-item messages, the `command[:100]` preview, the "No IDs" warnings and the final summary lines. The counters that the summary prints are returned as `Finished(successful, failed)` instead.
- `main` is left out. This covers argparse, the `os.path.exists` checks and `sys.exit`. `run_example.py` is left out too: it is an interactive wrapper around the class.
- HTTP status-code extraction, response-body stripping and a stop-on-HTTP-error flag are not modelled, because `batch_executor.py` has none of them. `run_batch_execution` takes only `dry_run` and never stops early on a failed command.
