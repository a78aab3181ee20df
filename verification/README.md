# Interview-analysis response parsing and quality score, in Dafny

`main.py` is a single-page tool for analysing job interviews. It sends a
transcript to a hosted language model and reads structured data out of the
model's free-text replies. This project models the part of that program that
is plain computation:

- `parse_xml_data(xml_word, response_string)` returns the stripped text
  between the first `<xml_word>` and the first `</xml_word>` of a reply, or
  `''`. It is `ResponseParser.ParseXmlData`.
- `parse_json(response_string)` turns line breaks into spaces, cuts out the
  text from the first `[` through the last `]`, and hands it to `json.loads`.
  It gives `[]` when a bracket is missing or the decoder rejects the text.
  This is `ResponseParser.ParseJson`, with the decoder passed in as a
  function.
- The annotation of a question/answer record with the `grade` and `skill`
  read from a grading reply is `Records.Annotate`. `int(q_a['grade'])` is
  `Records.GradeOf`.
- The candidate and interviewer gradings, run side by side over one list
  of records, are `Assessment`. As written they annotate the same records,
  which "## Findings" records together with the corrected model.
- `calculateQualityScore(arr)` is `QualityScore.CalculateQualityScore`. It
  returns the exact pair `(points, total)` whose quotient the program
  displays.

The Python `str` operations these rely on are modelled in `PyStr`:

- `find` and `rfind`, returning -1 when the pattern is absent, as Python does
- slicing with clamped bounds
- single-character `replace`
- argument-less `strip`
- `int` applied to a string

Modules:

| file | module | contents |
|---|---|---|
| `wrappers.dfy` | `Wrappers` | `Option`: a value, or a raised error / "not found" |
| `pystr.dfy` | `PyStr` | the `str` primitives and their specifications |
| `response_parser.dfy` | `ResponseParser` | `parse_xml_data`, `parse_json` |
| `records.dfy` | `Records` | records as maps, the annotation step, reading a grade |
| `quality_score.dfy` | `QualityScore` | `calculateQualityScore` and its bounds |
| `assessment.dfy` | `Assessment` | the candidate and interviewer gradings over one list of records |

## Model

| member | source | states |
|---|---|---|
| `ResponseParser.ParseXmlData` | main.py:239-249 | the extracted text never starts or ends with whitespace |
| `ResponseParser.XmlMissing` | main.py:242-246 | when either the opening or the closing tag does not occur in the reply, the result is `''` |
| `ResponseParser.XmlSpan` | main.py:242-248 | only the first occurrence of each tag matters. If the first closing tag starts before the first opening tag's content does, the result is `''`. Otherwise it is the stripped text strictly between the two tags |
| `ResponseParser.XmlFirst` | main.py:242-248 | given the first positions of the two tags, the result is the stripped clamped slice between the end of the opening tag and the start of the closing tag |
| `ResponseParser.XmlIsPiece` | main.py:247-248 | the result is always a substring of the reply, for every reply |
| `ResponseParser.XmlLaterTextIgnored` | main.py:242-243 | once both tags occur, appending any text to the reply, including further tags, leaves the result unchanged |
| `ResponseParser.XmlEmbedded` | main.py:239-249 | round trip: prose without `<`, then `<name>value</name>`, then anything, gives back `value` stripped, for any `value` without `<` and any tag name without `<` or `/` |
| `ResponseParser.ArrayText` | main.py:223-230 | the decoder is skipped exactly when the reply lacks a `[` or a `]`. The text handed to the decoder never contains a line break |
| `ResponseParser.ArraySpan` | main.py:225-230 | the decoder's input is the cleaned reply from the first `[` through the last `]` inclusive |
| `ResponseParser.ArrayEmbedded` | main.py:221-230 | round trip: with no `[` before the array and no `]` after it, the decoder receives exactly `[`, the body with line breaks turned into spaces, and `]` |
| `ResponseParser.ArrayReversed` | main.py:225-230 | when the last `]` precedes the first `[`, the decoder receives the empty string rather than an error |
| `ResponseParser.ParseJson` | main.py:221-237 | a missing bracket gives `[]` instead of an error. A slice the decoder rejects with `JSONDecodeError` gives `[]`. A slice the decoder accepts is returned as decoded, and a non-empty result is always what the decoder made of the cut-out slice |
| `ResponseParser.ParseJsonEmbedded` | main.py:221-233 | round trip: with no `[` in the prose before the array and no `]` in the prose after it, the array is returned as decoded whenever the decoder accepts it with its line breaks turned into spaces |
| `ResponseParser.ParseJsonReversed` | main.py:228-237 | with the brackets the wrong way round and a decoder that rejects the empty string, the result is `[]` |
| `Records.Annotate` | main.py:52-53 | annotation adds or overwrites exactly the keys `grade` and `skill`, with the texts extracted from the same reply. Every other key keeps its value |
| `Records.AnnotatedPieces` | main.py:148-149 | both annotated texts are trimmed substrings of the reply |
| `Records.AnnotateTwice` | main.py:52-53 | annotating again overwrites the earlier annotation completely: only the last reply counts |
| `Records.GradeOf` | main.py:258 | a record without a `grade` key is ungradable (`KeyError`). An integer grade is read as itself |
| `Records.GradeReadsBack` | main.py:41-53 | a reply in the requested format, `<grade>` then an integer with any surrounding whitespace then `</grade>`, yields a record whose grade `int` reads back as that integer |
| `Records.GradeMissing` | main.py:52 | a reply without the grade tags stores `''` as the grade, which `int` rejects |
| `QualityScore.CalculateQualityScore` | main.py:253-259 | for a non-empty, gradable list, `total` is five per record and `points` is the sum of the grades |
| `QualityScore.SumBounds` | main.py:256-258 | with every grade in 0..5, `0 <= points <= total` |
| `QualityScore.SumTop` | main.py:253-259 | with every grade in 0..5, `points == total` exactly when every grade is 5 |
| `QualityScore.Score` | main.py:259 | the displayed ratio `points/total` lies in [0, 1] and equals 1 exactly when every grade is 5 |
| `PyStr.FindSpec` | main.py:242-243 | `find` returns -1 exactly when the pattern does not occur, and otherwise its lowest occurrence |
| `PyStr.RFindSpec` | main.py:226 | `rfind` returns -1 exactly when the pattern does not occur, and otherwise its highest occurrence |
| `PyStr.ReplaceRemoves` | main.py:223 | after `replace('\n', ' ')` no line break is left |
| `PyStr.ReplaceKeepsOccurrences` | main.py:223-226 | the replacement does not move or create brackets: a pattern without `\n` or space occurs after replacing exactly where it occurred before |
| `PyStr.StripUnique` | main.py:248 | `strip` is the unique cut of the string that removes only whitespace, only from the two ends, and leaves no whitespace at either end |
| `PyStr.StripIdempotent` | main.py:248 | stripping twice is stripping once |
| `PyStr.StripPadded` | main.py:248 | whitespace placed around trimmed text is removed again exactly |
| `PyStr.ParseInt` | main.py:258 | `int` of a blank string, or of a string without any decimal digit, raises |
| `PyStr.ParseIntShow` | main.py:258 | `int(str(i)) == i`, also with whitespace that `int` skips (ASCII space, `\t`, `\n`, `\v`, `\f`, `\r`, and non-ASCII whitespace) around the number |
| `PyStr.StripRemovesSeparator` | main.py:248 | `strip` does remove a U+001C..U+001F separator placed before a number |
| `PyStr.IntRejectsSeparator` | main.py:258 | `int` raises on a number preceded by one of U+001C..U+001F, characters that `strip` would remove |
| `Assessment.AssessShared` | main.py:351-363 | as written: both gradings annotate the same records in place, so the candidate and interviewer views are one list, and each record shows the annotation of the grading whose pair of writes (`grade`, then `skill`) comes last, each pair taken as one step |
| `Assessment.SharedGradeLost` | main.py:351-363 | as written: with candidate reply `<grade>5</grade>` and interviewer reply `<grade>1</grade>`, the candidate view shows grade `1` when the interviewer grading finishes last |
| `Assessment.AssessSeparate` | main.py:351-363 | corrected: each view holds the grade and skill read from its own grading's reply |
| `Assessment.SeparateViewsIndependent` | main.py:351-363 | corrected: the candidate view does not depend on the interviewer replies, and the interviewer view does not depend on the candidate replies |
| `Assessment.SeparateGradeKept` | main.py:351-363 | corrected: the replies of the counterexample show grade `5` in the candidate view and `1` in the interviewer view |

## Left out

- The user interface, the session state and the rendering of results (Streamlit) are not modelled. They hold no logic that the parsed data depends on.
- The hosted transcription and language-model calls are left out. The replies they return are the parameters of the model.
- The retry decorator is left out. The `except RetryError` branches (grade `0`, skill `'unknown'`, or `[]`) are dead code: the decorator wraps the whole function, outside its `try`, and re-raises the last exception rather than a `RetryError`. The `'429' in e` back-off is broken: `in` on an exception object raises `TypeError`, which the decorator then retries. `QualityScore.InRange` still admits a grade of 0.
- `get_questions` is not modelled. When `parse_json` gives an empty list it raises `ValueError` (main.py:93). Its handler evaluates `'429' in e` (main.py:102), which raises `TypeError` instead. After ten attempts the decorator re-raises that error out of `get_questions`, and the run stops at main.py:349. So the lists that reach `calculateQualityScore` (main.py:397, main.py:407) are never empty, and its callers meet the `|arr| > 0` precondition of `QualityScore.CalculateQualityScore`.
- The thread pools are left out as concurrency. Their observable outcome is modelled in `Assessment`: both gradings write into the same record objects, so both views show the same annotation.
- `Assessment.AssessShared`: treats each grading's `grade` and `skill` writes to a record as one step. The schedule candidate `grade`, interviewer `grade`, interviewer `skill`, candidate `skill` leaves the interviewer's grade together with the candidate's skill in the record. That mixed outcome is not modelled.
- `json.loads` is a parameter of `ParseJson`. The JSON grammar is not modelled; `None` stands for `JSONDecodeError`.
- `ResponseParser.ParseJson`: other exceptions of `json.loads` are not modelled. They are not caught at main.py:234 and propagate out of `parse_json`, for example a `RecursionError` on very deeply nested arrays, or (in releases from September 2022 on) a `ValueError` for an integer literal of more than 4300 digits.
- The temporary file used for uploads is left out. It is I/O only.
- The float division in `calculateQualityScore` and its display as a percentage are not modelled as floating point. The score is kept as the exact pair `(points, total)`, and `QualityScore.Score` states its bounds over the reals.
- `PyStr.IsSpace`: the whitespace set of `str.strip` is approximated. It is written as the code-point ranges of CPython's `str.isspace` and is not derived from the Unicode character database.
- `PyStr.ParseInt`: weaker than Python's `int`. Underscore digit separators and non-ASCII decimal digits are not accepted. The limit of 4300 digits that Python places on `int` of a string is not modelled. It is configurable, and it is absent from releases before September 2022.
- `PyStr.ParseIntShow`: the round trip ignores the same digit limit. In releases from September 2022 on, `str` and `int` raise for integers of more than 4300 digits.
- `Records.GradeOf`: weaker than `int(q_a['grade'])`. Float and boolean grade values, which `int` would truncate or convert, are treated as ungradable.
- `QualityScore.CalculateQualityScore`: an empty list and an ungradable record are preconditions. The source raises in both cases rather than returning a value.

## Findings

| source | as written | input that shows it | evidently intended | confidence | as-written member | corrected member |
|---|---|---|---|---|---|---|
| main.py:351-363 | `candidate_quality_assessment` and `interviewer_quality_assessment` receive the same `q_and_a_arr`. Their workers (main.py:52-53, main.py:148-149) write `grade` and `skill` into the same dicts, so both views are one list | candidate reply `<grade>5</grade>`, interviewer reply `<grade>1</grade>`, with the interviewer grading finishing last: the candidate assessment shows grade 1, and both quality scores are computed from the same grades | each assessment keeps its own grades and skills (copies of the records per grading) | high; not executed | `Assessment.SharedGradeLost` | `Assessment.SeparateGradeKept` |
