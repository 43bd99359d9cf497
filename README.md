# cif_cod_numbers output parser

This project models `CifcodnumbersParser._get_output_nodes` in Dafny. That is
the AiiDA parser for the `cif_cod_numbers` codtools script, and the project
proves properties of the model.

The parser takes two inputs:

- the script's standard output, which has one candidate duplicate per line,
  written `formula codid count ...`;
- its standard error.

It returns a list holding one `('output', ParameterData)` pair, whose
dictionary is `{'duplicates': [...], 'errors': [...]}`. The model returns it
as a `seq<OutputNode>` of length one.

Files:

- `wrappers.dfy`: `Option` and `Result`.
- `pylines.dfy`: the Python 2 line handling, as module `PyLines`.
  - `file.readlines()` in text mode on a POSIX system. Only `'\n'` ends a
    line; `'\r'` is an ordinary character.
  - `str.strip('\n')`, which removes newlines from both ends.
- `pysplit.dfy`: `re.split('\s+', line)` over the ASCII whitespace set
  `[ \t\n\r\f\v]`, as module `PySplit`.
- `pyint.dfy`: `int()` in base 10 on a token without whitespace, as module
  `PyInt`.
- `cifcodnumbers.dfy`: the parser, as module `CifCodNumbers`.
  - Records, outcomes and specification functions.
  - The imperative `GetOutputNodes`, whose `for` loop appends records one line
    at a time and is proved equal to the specification function
    `OutputNodes`.
  - The lemmas about the parse.
- `scenarios.dfy`: worked inputs, as module `Scenarios`. They cover whole
  files and the corner cases of the line handling.

The two file paths become `Option<string>` file contents; `None` is a path
that is `None`. The exception that escapes the parser is modelled as
`Err(IndexError)`.

### Behaviour worth knowing

- **Short lines.** A line with fewer than three fields, an empty one
  included, raises `IndexError` at `cifcodnumbers.py:40`, because only
  `ValueError` is caught there. It is not skipped: it aborts the whole call.
  `re.split` of `""` is `[""]`, so an empty line has one field.
  - `"X\n"` therefore fails (`Scenarios.ScenarioOneField`).
  - So does a blank line at the end of a file (`Scenarios.BlankLineExample`).
- **Counts.** Any truthy count is kept, so negative counts are reported
  (`Scenarios.NegativeCountExample`, `CifCodNumbers.NonZeroCountKept`).
- **Empty lines.** Every stripped line is split and tested, empty ones
  included.

## Model

| member | source | states |
|---|---|---|
| `CifCodNumbers.GetOutputNodes` | aiida/parsers/plugins/codtools/cifcodnumbers.py:23-61 | The loop that builds `duplicates` and the extension of `errors` return exactly `OutputNodes(output, error)`: the same records in the same order, the same error lines, and `IndexError` on the same inputs. |
| `CifCodNumbers.OutputNodes` | aiida/parsers/plugins/codtools/cifcodnumbers.py:23-61 | What the call returns or raises: the `IndexError` of standard output, or one `output` node with both lists. `OutputNodesShape`, `ErrorFileIndependent` and `OutputFileIndependent` state its properties. |
| `CifCodNumbers.ParseOutput` | aiida/parsers/plugins/codtools/cifcodnumbers.py:31-48 | The `duplicates` list, or the `IndexError`; empty for an absent file. `ParseOutputSpec`, `DuplicatesFromLines` and `OutputOfLines` state its properties. |
| `CifCodNumbers.ParseErrors` | aiida/parsers/plugins/codtools/cifcodnumbers.py:50-55 | The `errors` list, one entry per line of standard error; empty for an absent file. `ErrorsVerbatim` and `ErrorsOfLines` state its properties. |
| `CifCodNumbers.Scan` | aiida/parsers/plugins/codtools/cifcodnumbers.py:36-48 | The loop over the outcomes of the lines, which stops at the first short line. `ScanSpec`, `ScanSticky`, `ShortLineFails` and `SkippedLine` state its properties. |
| `CifCodNumbers.Kept` | aiida/parsers/plugins/codtools/cifcodnumbers.py:43-48 | The reference definition for the loop: at most one record per line, in line order (`KeptAppend`, `KeptMembers`). |
| `CifCodNumbers.FromFields` | aiida/parsers/plugins/codtools/cifcodnumbers.py:37-48 | A line is short exactly when it has fewer than three fields, and a recorded count is never 0. `ZeroCountSkipped`, `NonZeroCountKept` and `ExtraFieldsIgnored` state the rest. |
| `CifCodNumbers.Classify` | aiida/parsers/plugins/codtools/cifcodnumbers.py:37-48 | The fields of a line decide its outcome (`ClassifyInterleave`, `LeadingWhitespace`, `TrailingWhitespace`). |
| `CifCodNumbers.Outcomes` | aiida/parsers/plugins/codtools/cifcodnumbers.py:36-48 | One outcome per line, in order, each the outcome of that line. |
| `PyLines.ReadLines` | aiida/parsers/plugins/codtools/cifcodnumbers.py:34 | `readlines()` in text mode. `ReadLinesConcat`, `ReadLinesAreLines` and `ReadLinesTerminated` state its properties. |
| `PyLines.StripNewlines` | aiida/parsers/plugins/codtools/cifcodnumbers.py:35 | `strip('\n')`. `StripReadLine` states what it does to a line from `readlines()`. |
| `PyLines.Lines` | aiida/parsers/plugins/codtools/cifcodnumbers.py:34-35 | The stripped lines of a file. `LinesRoundTrip`, `UnlinesRoundTrip` and `LinesHaveNoNewline` state its properties. |
| `PySplit.SplitWs` | aiida/parsers/plugins/codtools/cifcodnumbers.py:37 | `re.split('\s+', line)`. `SplitWsDecomposes` and `SplitWsInterleave` state its properties. |
| `CifCodNumbers.ScanSpec` | aiida/parsers/plugins/codtools/cifcodnumbers.py:36-48 | The loop fails with `IndexError` if and only if some line has fewer than three fields. Otherwise it yields the records of the lines in line order. |
| `CifCodNumbers.ScanSticky` | aiida/parsers/plugins/codtools/cifcodnumbers.py:39-42 | Once a line has raised `IndexError`, later lines change nothing: the exception propagates. |
| `CifCodNumbers.KeptAppend` | aiida/parsers/plugins/codtools/cifcodnumbers.py:36-48 | The records of two blocks of lines are those of the first block followed by those of the second. |
| `CifCodNumbers.KeptMembers` | aiida/parsers/plugins/codtools/cifcodnumbers.py:43-48 | A duplicate is kept if and only if some line's outcome records it. |
| `CifCodNumbers.SkippedLine` | aiida/parsers/plugins/codtools/cifcodnumbers.py:38-43 | A line whose third field is not an integer, or is zero, adds nothing and does not stop later lines: removing it leaves the result unchanged. |
| `CifCodNumbers.ShortLineFails` | aiida/parsers/plugins/codtools/cifcodnumbers.py:37-42 | A line with fewer than three fields makes the whole parse fail, wherever it is in the file. |
| `CifCodNumbers.RecordsInLineOrder` | aiida/parsers/plugins/codtools/cifcodnumbers.py:36-48 | Records come out in line order, one per qualifying line, with no merging: the records of two blocks of lines are those of the first block, then those of the second. |
| `CifCodNumbers.ParseOutputSpec` | aiida/parsers/plugins/codtools/cifcodnumbers.py:32-48 | Standard output fails to parse if and only if one of its stripped lines splits into fewer than three fields. Otherwise the result is the records of its lines, in order. |
| `CifCodNumbers.DuplicatesFromLines` | aiida/parsers/plugins/codtools/cifcodnumbers.py:36-48 | On success, `d` is reported if and only if some line has at least three fields, formula `fields[0]`, codid `fields[1]`, and `int(fields[2]) == d.count != 0`. |
| `CifCodNumbers.OutputOfLines` | aiida/parsers/plugins/codtools/cifcodnumbers.py:33-36 | A standard output written as lines without newlines is parsed line by line, exactly those lines. |
| `CifCodNumbers.ClassifyInterleave` | aiida/parsers/plugins/codtools/cifcodnumbers.py:37-48 | A line made of well-formed fields glued with whitespace is classified by those fields alone. |
| `CifCodNumbers.ExtraFieldsIgnored` | aiida/parsers/plugins/codtools/cifcodnumbers.py:44-48 | Fields after the third never change a line's outcome. |
| `CifCodNumbers.LeadingWhitespace` | aiida/parsers/plugins/codtools/cifcodnumbers.py:37 | Leading whitespace adds an empty first field, so the formula becomes `""` and the other fields shift right by one. |
| `CifCodNumbers.TrailingWhitespace` | aiida/parsers/plugins/codtools/cifcodnumbers.py:37 | Trailing whitespace, `'\r'` included, adds an empty last field. |
| `CifCodNumbers.ZeroCountSkipped` | aiida/parsers/plugins/codtools/cifcodnumbers.py:43 | A zero count, however it is spelt (`0`, `-0`, `+000`), is dropped by the truthiness test. |
| `CifCodNumbers.NonZeroCountKept` | aiida/parsers/plugins/codtools/cifcodnumbers.py:40-48 | Every non-zero integer, negative ones included, written as `str()` writes it, is kept as the count, with `fields[0]` and `fields[1]` as formula and codid. |
| `CifCodNumbers.ErrorsVerbatim` | aiida/parsers/plugins/codtools/cifcodnumbers.py:52-55 | `errors` has one entry per line read from standard error, in order. Each entry is that line without its newline. Writing them back, each followed by `'\n'`, gives the file again, plus one `'\n'` when the file lacked a final one. |
| `CifCodNumbers.ErrorsOfLines` | aiida/parsers/plugins/codtools/cifcodnumbers.py:52-55 | Nothing is filtered: the lines written to standard error, empty ones included, are exactly `errors`. |
| `CifCodNumbers.OutputNodesShape` | aiida/parsers/plugins/codtools/cifcodnumbers.py:31-61 | The call fails only when standard output makes it fail. On success it returns exactly one `output` node, whose duplicates come from standard output and whose errors come from standard error. Each list is empty when its file is absent. |
| `CifCodNumbers.ErrorFileIndependent` | aiida/parsers/plugins/codtools/cifcodnumbers.py:50-55 | Standard error never changes whether the call fails, nor the duplicates reported. |
| `CifCodNumbers.OutputFileIndependent` | aiida/parsers/plugins/codtools/cifcodnumbers.py:31-48 | Standard output never changes the errors reported. |
| `PyLines.ReadLinesConcat` | aiida/parsers/plugins/codtools/cifcodnumbers.py:34 | `readlines()` loses nothing: the lines concatenate back to the content. |
| `PyLines.ReadLinesAreLines` | aiida/parsers/plugins/codtools/cifcodnumbers.py:34 | Every line read is non-empty, and holds a `'\n'` only as its last character. |
| `PyLines.ReadLinesTerminated` | aiida/parsers/plugins/codtools/cifcodnumbers.py:34 | There are no lines exactly for empty content. Every line but the last ends in `'\n'`, and the last one does exactly when the content does. |
| `PyLines.StripReadLine` | aiida/parsers/plugins/codtools/cifcodnumbers.py:35 | On a line from `readlines()`, `strip('\n')` removes exactly the terminating newline and leaves no `'\n'`. |
| `PyLines.LinesRoundTrip` | aiida/parsers/plugins/codtools/cifcodnumbers.py:34-35 | Writing the stripped lines back, each followed by `'\n'`, gives the content again. One `'\n'` is added when the content lacked a final one. |
| `PyLines.UnlinesRoundTrip` | aiida/parsers/plugins/codtools/cifcodnumbers.py:34-35 | Reading back lines without newlines that were written one per line gives exactly those lines, empty ones included. |
| `PyLines.LinesHaveNoNewline` | aiida/parsers/plugins/codtools/cifcodnumbers.py:35 | No stripped line contains a `'\n'`. |
| `PyLines.StripAll` | aiida/parsers/plugins/codtools/cifcodnumbers.py:35 | The list comprehension strips each line, keeping its position: same length, and entry `k` is line `k` stripped. |
| `PySplit.SplitWsDecomposes` | aiida/parsers/plugins/codtools/cifcodnumbers.py:37 | Every line is its fields glued with its runs of whitespace. No field contains whitespace, and only the first and last fields may be empty. |
| `PySplit.SplitWsInterleave` | aiida/parsers/plugins/codtools/cifcodnumbers.py:37 | Splitting undoes gluing: well-formed fields, glued with any runs of whitespace, split back into exactly those fields. |
| `PyInt.ParseInt` | aiida/parsers/plugins/codtools/cifcodnumbers.py:40 | `int(t)` succeeds exactly on an optional sign followed by one or more ASCII digits. |
| `PyInt.IntToDecimalRoundTrip` | aiida/parsers/plugins/codtools/cifcodnumbers.py:40 | `int(str(i)) == i` for every integer `i`. |
| `PyInt.DecimalDigits` | aiida/parsers/plugins/codtools/cifcodnumbers.py:40 | The decimal spelling of `n` is a non-empty run of digits worth exactly `n`. |
| `PyInt.ParseIntZero` | aiida/parsers/plugins/codtools/cifcodnumbers.py:40-43 | `int(t)` is 0 exactly when `t` is an optional sign followed by one or more `0`s. |
| `PyInt.DigitsValueZero` | aiida/parsers/plugins/codtools/cifcodnumbers.py:40-43 | A run of digits is worth 0 exactly when every digit is `0`. |
| `PyInt.LeadingZero` | aiida/parsers/plugins/codtools/cifcodnumbers.py:40 | Leading zeros do not change the value `int` reads. |
| `Scenarios.ScenarioOneLine` | aiida/parsers/plugins/codtools/cifcodnumbers.py:36-48 | `"H2O  1000001  3\n"` gives the one duplicate `("H2O", "1000001", 3)`. |
| `Scenarios.ScenarioZeroCount` | aiida/parsers/plugins/codtools/cifcodnumbers.py:43 | In `"CO2  2000002  0\nNaCl 3000003  5\n"` the zero-count line is dropped and the next line is still read. |
| `Scenarios.ScenarioErrorsOnly` | aiida/parsers/plugins/codtools/cifcodnumbers.py:50-55 | With no standard output, the one stderr line is the one error and the duplicates are empty. |
| `Scenarios.ScenarioOneField` | aiida/parsers/plugins/codtools/cifcodnumbers.py:37-42 | `"X\n"` raises `IndexError`, whatever standard error holds. |
| `Scenarios.LeadingWhitespaceExample` | aiida/parsers/plugins/codtools/cifcodnumbers.py:37-48 | `"  H2O 1 3"` gives formula `""`, codid `"H2O"` and count 1. |
| `Scenarios.TrailingWhitespaceExample` | aiida/parsers/plugins/codtools/cifcodnumbers.py:37-42 | `"a b "` has an empty third field, so `int` rejects it and the line is skipped. |
| `Scenarios.CarriageReturnExample` | aiida/parsers/plugins/codtools/cifcodnumbers.py:37-48 | `"C 100 3\r"` still gives `("C", "100", 3)`: the `'\r'` only adds an empty fourth field. |
| `Scenarios.NegativeCountExample` | aiida/parsers/plugins/codtools/cifcodnumbers.py:40-48 | `"C 100 -2"` is kept with count -2. |
| `Scenarios.SignedZeroExample` | aiida/parsers/plugins/codtools/cifcodnumbers.py:43 | `"C 100 -00"` is skipped. |
| `Scenarios.NotANumberExample` | aiida/parsers/plugins/codtools/cifcodnumbers.py:39-42 | `"C 100 abc"` is skipped. |
| `Scenarios.BlankLineExample` | aiida/parsers/plugins/codtools/cifcodnumbers.py:37-42 | A blank line after a good one (`"NaCl 3000003  5"`) makes the whole call raise `IndexError`. |
| `Scenarios.RepeatedLineExample` | aiida/parsers/plugins/codtools/cifcodnumbers.py:44-48 | Two equal lines give two equal records; nothing is merged. |
| `Scenarios.ErrorLinesExample` | aiida/parsers/plugins/codtools/cifcodnumbers.py:52-55 | `"oops\r\n\nend\n"` gives the errors `"oops\r"`, `""` and `"end"`: the `'\r'` and the empty line are kept. |

## Left out

- The model follows Python 2.7 on a POSIX system, where text mode leaves
  `'\r'` alone; on Windows it would turn `"\r\n"` into `"\n"`. Under
  Python 3, `open()` would also end lines at `'\r\n'` and `'\r'`, `\s` would
  match Unicode whitespace, and `int()` would accept `'_'` separators and
  non-ASCII digits. None of that is modelled.
- Opening and reading the files (`open` and the `with` blocks at lines 33-34
  and 52-53). The inputs are the files' contents, already read. I/O faults
  are not modelled.
- `ParameterData` and the AiiDA node wrapping (lines 28 and 57-60). The
  result is the plain datatype `Parameters` inside `OutputNode("output", ...)`.
- `__init__`, the `_supported_calculation_class` check, `BaseCodtoolsParser`
  and `CifcodnumbersCalculation` (lines 3-4 and 15-21). They belong to the
  framework's parser dispatch, and their source is not part of this model.
- The regular-expression engine. `\s+` splitting is modelled directly over
  the ASCII whitespace set, which is what `\s` matches in a Python 2
  byte-string pattern.
- PyInt.ParseInt: does not model the surrounding whitespace that `int()`
  tolerates, because it is only applied to fields of `re.split('\s+', ...)`,
  which never contain whitespace (`PySplit.SplitWsDecomposes`).
- Bytes are modelled as Dafny characters. The parser never decodes them, and
  only ASCII digits, signs, whitespace and `'\n'` matter to it.
- Exceptions other than `IndexError`, such as `MemoryError` or
  `KeyboardInterrupt`, are not modelled.
- Calling the parser twice on the same contents gives the same result. This
  holds because `GetOutputNodes` is proved equal to the function
  `OutputNodes`; it is not stated as a separate lemma.
