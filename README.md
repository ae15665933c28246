# calibre_bionic_converter, modelled in Dafny

The script works in three steps. First it walks a Calibre library and collects
the e-book files whose extension is on an allow-list. Then it asks the operator,
file by file, whether to convert each one. Last, it runs an external Bionic
Reading converter on each selected file, with a spinner shown while that runs.
This project models the sequential logic of those three steps. Each outside
call is replaced by an input:

- the directory walk is a sequence of `WalkEntry(root, dirs, files)` triples, in `os.walk` order;
- the operator's answers are a sequence of strings, one per discovered path;
- each converter run is a `RunOutcome`: `Exited(returnCode)` or `Raised(exception)`.
  Under `check=True`, a non-zero return code is a `CalledProcessError`. `Raised`
  stands for any other exception, such as the launch error when `python` cannot be found.

Modules, one per component:

- `Text` (text.dfy): the Python string and path operations the script uses. These are
  `lower()`, `strip()`, `split(sep)`, `split(sep)[-1]`, and POSIX `os.path.join`/`basename`.
  All are restricted to ASCII.
- `Subsequences` (subsequences.dfy): the order-preserving filter that both list-building loops perform.
  `Select(s, keep)` is what such a loop builds. `SelectedAt` describes the same list independently, by the increasing positions it keeps.
- `LibraryScanner` (scanner.dfy): `find_ebooks_in_calibre_library`, the extension predicate and the nested collection loop.
- `SelectionPrompter` (prompter.dfy): `prompt_user_selection`.
- `BatchDispatcher` (dispatcher.dfy): `apply_bionic_reading`, and `LoadingAnimation` with its `done` flag.
- `Wrappers` (wrappers.dfy): `Option`. It stands for the optional arguments (`supported_formats=None`, `message="Processing..."` and `bionic_script_name="bionic_reader.py"`) and for the escaping exception.

Four points where the code behaves differently from what one might expect. The model follows the code:

- One might expect a converter that fails to launch to be recorded while the batch goes on.
  The code catches only `subprocess.CalledProcessError`. Any other exception, including
  `FileNotFoundError` when the program cannot be started, leaves the loop. It escapes the
  call after the `finally` clause has stopped the spinner, and "Conversion completed!"
  is not printed. `ApplyBionicReading` and `EscapeScenario` model this.
- The extension comparison is not fully case-insensitive. The code lowercases only the
  file's side (`file.split('.')[-1].lower() in supported_formats`). A caller's entry that
  contains a capital letter therefore never matches (`UppercaseEntryNeverMatches`).
- The extension is `split('.')[-1]`, and a name without a dot yields the whole name.
  So a file named `pdf`, with no dot, is kept under the default list (`DotlessNameJudgedWhole`).
- One might expect a missing or unreadable library folder to be reported as an error.
  `os.walk` is called without `onerror`, so it drops the `OSError` it meets when listing
  a folder. A missing or unreadable root yields no entries at all, and the function returns
  `[]` without raising. An unreadable subfolder is skipped silently. In the model these are
  an input walk that is empty, or that lacks those entries. `ScannedLength` gives `[]` for the empty walk.

## Model

| member | source | states |
|---|---|---|
| `LibraryScanner.AllowList` | main.py:22-23 | `None` gives exactly `['epub','mobi','pdf','azw3','fb2']`; a given list is used unchanged |
| `LibraryScanner.FindEbooksInCalibreLibrary` | main.py:22-33 | the nested loop returns `Scanned(walk, AllowList(supported_formats))`: each root's passing files joined onto the root, roots in walk order, files in listed order |
| `LibraryScanner.ScannedIsSelection` | main.py:28-31 | the loop's result equals the flattened walk, path by path, filtered by the extension test |
| `LibraryScanner.CandidateAt` | main.py:28-29 | the flattened walk lists the `j`-th file of the `i`-th root at offset (files of earlier roots) + `j`, so roots keep walk order and files keep listed order |
| `LibraryScanner.ScannedInWalkOrder` | main.py:28-31 | the output is the walked paths read at strictly increasing positions, and those positions are exactly the files whose extension is listed |
| `LibraryScanner.ScannedMembership` | main.py:28-31 | a path is in the output if and only if some walked file with a listed extension joins onto its root to give that path |
| `LibraryScanner.ScannedSound` | main.py:30-31 | every output path comes from a walked file that passes the test |
| `LibraryScanner.ScannedComplete` | main.py:30-31 | every walked file that passes the test contributes its joined path |
| `LibraryScanner.ScannedLength` | main.py:25-33 | the output is never longer than the number of walked files; an empty walk gives an empty list |
| `LibraryScanner.DotlessNameJudgedWhole` | main.py:30 | a name without a dot is tested on the whole name, lowercased |
| `LibraryScanner.ExtensionAfterLastDot` | main.py:30 | for `stem.ext` with a dot-free `ext`, the tested text is `ext` lowercased, whatever dots `stem` holds |
| `LibraryScanner.UppercaseEntryNeverMatches` | main.py:30 | only the file side is lowercased, so an allow-list entry with a capital letter never equals any file's tested text |
| `LibraryScanner.DefaultListScenario` | main.py:22-33 | root `lib` holding `a.epub`, `b.txt`, `c.PDF` with the default list yields `[lib/a.epub, lib/c.PDF]` |
| `LibraryScanner.ExtensionEdgeCases` | main.py:30 | `.epub` passes the default list; `x.EPUB` does not pass the list `['EPUB']` |
| `SelectionPrompter.PromptUserSelection` | main.py:45-54 | the loop returns `Select(ebook_paths, flags)`, where flag `k` says whether answer `k` is accepted |
| `SelectionPrompter.AcceptsIffPaddedY` | main.py:50-51 | an answer is accepted if and only if it is one `y` or `Y` with only whitespace around it |
| `SelectionPrompter.AcceptedIsPaddedY` | main.py:50-51 | an accepted answer is a padded `y` or `Y`, at the position returned |
| `SelectionPrompter.PaddedYIsAccepted` | main.py:50-51 | a padded `y` or `Y` is accepted |
| `SelectionPrompter.LowersToY` | main.py:50 | only `y` and `Y` lowercase to `y` |
| `SelectionPrompter.AcceptedExamples` | main.py:50-51 | `y`, `Y` and ` y ` are accepted |
| `SelectionPrompter.RejectedExamples` | main.py:50-51 | `yes`, `n` and the empty answer are rejected |
| `SelectionPrompter.SelectionIsAcceptedSubsequence` | main.py:45-54 | the selection is the input at strictly increasing positions, exactly the accepted ones; it is never longer than the input; no paths give no selection |
| `SelectionPrompter.ThreeAnswerScenario` | main.py:48-52 | answers `y`, `n`, `Y` to three files select the first and the third |
| `BatchDispatcher.ApplyBionicReading` | main.py:75-100 | let `n` be the first invocation that raises something other than `CalledProcessError`. The commands `["python", script, path]`, with `script` the given name or `bionic_reader.py`, are run for the first `n` paths, plus path `n` when it exists, in order. The errors recorded are those of the first `n` runs. Only that exception escapes. The spinner flag is set on every exit. When nothing but `CalledProcessError` occurs, every path is run and nothing escapes |
| `BatchDispatcher.FirstEscape` | main.py:91-97 | names the first invocation whose exception the inner `except` does not catch: all earlier runs exited, that one raised |
| `BatchDispatcher.FailuresAtFailingPositions` | main.py:95-97 | one error per failing run and none for the others: the `k`-th error is the path and return code of the `k`-th run with a non-zero code |
| `BatchDispatcher.SingleFailure` | main.py:91-97 | if only run `m` fails, exactly one error is recorded, for path `m` |
| `BatchDispatcher.NoFailures` | main.py:91-97 | when every run exits 0, no error is recorded |
| `BatchDispatcher.TwoFileScenario` | main.py:86-100 | two files, converter exiting 0 then 1: both run in order, one error naming the second file, nothing escapes, spinner stopped |
| `BatchDispatcher.EscapeScenario` | main.py:90-100 | a launch error on the second of three files: the third is not attempted, the first file's failure stays recorded, the exception escapes, and the spinner is stopped |
| `BatchDispatcher.SpinnerMessage` | main.py:60-61 | with no message given the spinner shows `Processing...`; a given message is used unchanged |
| `BatchDispatcher.ScriptName` | main.py:75 | with no script name given the converter is `bionic_reader.py`; a given name is used unchanged |
| `BatchDispatcher.LoadingAnimation.constructor` | main.py:60-62 | the message is the given one, or `Processing...` when none is given, and `done` starts false |
| `BatchDispatcher.LoadingAnimation.Stop` | main.py:71-72 | `done` becomes true and the message is unchanged |
| `BatchDispatcher.SpinnerLifecycle` | main.py:60-73 | `done` is false after construction, true after `stop()`, and still true after a second `stop()` |
| `Subsequences.Select` | main.py:48-52 | the filtered list is never longer than its input |
| `Subsequences.KeptPositions` | main.py:28-31 | the kept positions are strictly increasing, in range, and exactly the marked ones |
| `Subsequences.SelectAtKeptPositions` | main.py:48-52 | `Select` is the input read at the kept positions |
| `Subsequences.SelectedAtIsSelect` | main.py:48-52 | any description by increasing kept positions fixes the list: it is `Select` |
| `Subsequences.SelectCharacterized` | main.py:48-52 | a list is the selection if and only if some increasing choice of exactly the kept positions describes it |
| `Subsequences.SelectMembership` | main.py:30-31 | an element is selected if and only if it sits at some kept position |
| `Subsequences.SelectAppend` | main.py:28-31 | filtering a concatenation filters each part: this is how the per-root results add up |
| `Text.LowerChar` | main.py:30 | the result is never a capital; a capital is mapped to its small letter and any other character is unchanged |
| `Text.StripSlice` | main.py:50 | `strip()` returns a slice of its input that neither starts nor ends with whitespace, cutting only whitespace on either side |
| `Text.StripPadded` | main.py:50 | conversely, text with non-space ends between two whitespace runs is exactly what `strip()` returns |
| `Text.TrimStartSpec` | main.py:50 | leading whitespace is removed up to the first other character |
| `Text.TrimEndSpec` | main.py:50 | trailing whitespace is removed back to the last other character |
| `Text.Split` | main.py:30 | `split(sep)` always gives at least one part, so `[-1]` exists |
| `Text.SplitSpec` | main.py:30 | no part of `split(sep)` holds the separator, and joining the parts with the separator gives the input back |
| `Text.SplitJoinWith` | main.py:30 | splitting a join of separator-free parts gives the parts back |
| `Text.LastSegmentIsLastPart` | main.py:30 | the text after the last separator is `split(sep)[-1]` |
| `Text.LastSegmentIsSuffix` | main.py:30 | that text is a separator-free suffix of the input, preceded by the separator unless it is the whole input |
| `Text.LastSegmentAfterSeparator` | main.py:30 | after a separator, the last segment is exactly what follows it |
| `Text.DotlessLastSegment` | main.py:30 | a text without the separator is its own last segment |
| `Text.JoinPathSpec` | main.py:31 | `os.path.join(root, file)` ends with `file`, and begins with `root` unless `file` is absolute |
| `Text.BasenameOfJoin` | main.py:31 | `basename` takes a slash-free file name back out of `join(root, file)`; it is the name shown in the prompt on line 49 |

## Left out

- The filesystem walk (`os.walk`). It is an input sequence, and its traversal order belongs to the operating system. A folder that cannot be listed contributes no entry, as described above.
- `input()` and every `print`: prompt texts, status lines and the error line's wording. Answers are an input, exactly one per path.
  An operator who closes standard input early raises `EOFError`, which is not modelled. The model requires one answer per path.
- `subprocess.run` and the external `apply_bioread.py` converter. They are represented only by one outcome per invocation.
  The error line's text from `CalledProcessError` is reduced to the path and the return code.
- `LoadingAnimation.start`: the spinner thread, `time.sleep(0.1)`, the `itertools.cycle` glyphs and the `while not self.done` loop.
  These are concurrency and timing, and that loop has no termination of its own. `loader_thread.join()` is left out with them. Only the `done` flag is modelled.
- `load_dotenv`, `os.getenv("CALIBRE_LIBRARY_PATH")` and the `__main__` block's exit code and messages: environment and process glue.
- Unicode in `str.lower()` and `str.strip()`. Only ASCII capitals are lowercased. Only the ASCII characters Python counts as whitespace are stripped: space, 9 to 13 and 28 to 31.
  `os.path.join`/`basename` follow the POSIX rules with a `/` separator.
