# Admission survey engine and ingestion rules, in Dafny

This project models the core of a small admission-records application. The core has four parts:

- **The survey engine.** It evaluates and applies question rules, runs the render-time rule loop,
  validates every answer (type checks, rule errors and the duplicate-drug cross-field check) and
  produces the export form of the answers. It keeps two maps keyed by question sequence number:
  the answers and the current error messages.
- **The date, zip and admission-id helpers.** These are `validate_date` with its `DATE_PATTERN`,
  `format_date`, `validate_zip` and `generate_admission_id`.
- **The question bank** (`ADMISSION_SURVEY_QUESTIONS`) and `get_question`.
- **The table rules of the ingestion layer.** These cover header normalisation through
  `FIELD_MAPPING`, date columns, the full-name split, `handle_missing_fields` and
  `extract_admission_data`. A table is a list of column names plus a list of rows, and each row is a
  map from column name to cell text.

## Modules

| file | module | contents |
|---|---|---|
| `wrappers.dfy` | `Wrappers` | `Option` |
| `strings.dfy` | `Strings` | the Python string behaviour the core relies on: `strip`, `lower`/`upper`, `split`, `join`, `int()`, `str(int)`, `zfill` and digit filtering |
| `data_models.dfy` | `DataModels` | calendar dates, the date pattern, `strptime("%m/%d/%Y")`, date formatting, zip normalisation and admission ids |
| `survey_config.dfy` | `SurveyConfig` | the question datatypes, the bank and the first-match lookup |
| `survey_rules.dfy` | `SurveyRules` | the engine's pure logic and the functions that specify its methods |
| `survey_engine.dfy` | `Survey` | the `SurveyEngine` class; its methods update `answers` and `errors` in loops |
| `config.dfy` | `Config` | the provider ids, `REQUIRED_CLIENT_FIELDS` and `FIELD_MAPPING` |
| `data_processing.dfy` | `DataProcessing` | the table rules as functions, plus a `DataFrame` class whose methods update a table in place |

Some modelling choices:

- Rule conditions are Python expression text in the source, passed to `eval`. Here they are a
  closed datatype `Condition`:
  - `Always`: a condition without `answers.get`;
  - an answer equals a literal;
  - an answer differs from a literal;
  - an answer is empty;
  - some dependency's answer equals a literal;
  - the candidate value equals an answer.

  A missing answer reads as `""`.
- A rule without `"dependencies"` has `dependencies == None`, and a rule without `"action"` has
  `action == None`.
- The current date that `generate_admission_id` reads from the clock is the parameter `today`.
- `extract_admission_data` builds ids with `.apply(generate_admission_id)` over the client-id column.
  `FillAdmissionId` takes that per-row function as its parameter `generate`. `ExtractAdmissionData`
  passes `AdmissionIdGenerator(today)`, which is `generate_admission_id` with the client id as its
  only argument, as in the source.
- Python integers are unbounded, so Dafny's `int` matches them in arithmetic and comparisons. The
  conversions between text and integers (`int()` and `str()`) are modelled without CPython's limit
  on the number of decimal digits (see "Left out").
- These Python parsing details are modelled explicitly:
  - `int()` ignores surrounding whitespace and accepts a sign and single underscores between digits.
  - `$` in `DATE_PATTERN` also matches before one final `"\n"`.
  - `strptime`'s `%d` accepts a space-padded day.
  - The `%-m` fallback in `format_date` is a directive `strptime` rejects, so that branch always
    yields `""`.

Some consequences of the source that the model proves:

- `ProcessTableAdmissionsEmpty`: the pipeline `normalize_dataframe` then `extract_admission_data`
  always yields an empty admission table. Every header is lower-cased before `FIELD_MAPPING` is
  applied, and no mapping target is `AdmissionDate`, so no normalised table has an `AdmissionDate`
  column. For the same reason the `AdmissionDate` date rule never applies and neither does the
  `ClientFullName` split (`NormalizeSkipsDeadSteps`).
- `StandardHeaderLowered`: a header already spelled `ProviderClientId` becomes `providerclientid`.
- `AdmissionIdNewlineFallback`: a date followed by a newline passes `validate_date` but not
  `strptime`. `generate_admission_id` then falls back to today's date.
- `GenerateAdmissionId`: under the ASCII case mapping of the model, the untruncated id is `ADM`
  (3 characters) plus at most 4 + 2 + 6 more characters, so it never exceeds 15 and the truncation
  never changes it. Python's full case mapping can lengthen the initials (see "Left out").

## Model

| member | source | states |
|---|---|---|
| Strings.Strip | src/data_models.py:50 | `str.strip()`: the result has no surrounding whitespace, is no longer than the input, and is empty exactly when the input is all whitespace |
| Strings.StripExact | src/data_models.py:24 | stripping whitespace from around a trimmed core gives back exactly that core |
| Strings.Lower | src/utils/data_processing.py:18 | `str.lower()`: same length, each character is lowered, and no upper-case letter remains |
| Strings.Upper | src/data_models.py:105 | `str.upper()`: same length, each character is raised, and no lower-case letter remains |
| Strings.SplitOn | src/data_models.py:59 | `str.split('/')`: at least one part, and no part contains the separator |
| Strings.JoinSplitOn | src/data_models.py:59 | joining the parts of a split with the separator gives back the string |
| Strings.SplitOnJoin | src/data_models.py:59 | splitting a join of separator-free parts gives back the parts |
| Strings.SplitWords | src/utils/data_processing.py:57 | `str.split()` without an argument: every part is a non-empty run without whitespace |
| Strings.SplitWordsBlank | src/utils/data_processing.py:57 | a blank string has no words |
| Strings.SplitWordsWord | src/utils/data_processing.py:57 | a single word splits into itself |
| Strings.SplitWordsBlankPrefix | src/utils/data_processing.py:57 | leading whitespace adds no word |
| Strings.SplitWordsBlankSuffix | src/utils/data_processing.py:57 | trailing whitespace adds no word |
| Strings.SplitWordsWordSep | src/utils/data_processing.py:57 | a word followed by a non-empty run of whitespace is split off as the first word, and the rest splits on its own |
| Strings.SplitWordsTrimLeft | src/utils/data_processing.py:57 | removing the leading whitespace changes no word |
| Strings.SplitWordsTrimRight | src/utils/data_processing.py:57 | removing the trailing whitespace changes no word |
| Strings.SplitWordsStrip | src/utils/data_processing.py:57 | `s.strip().split() == s.split()` |
| Strings.SplitWordsTwoWords | src/utils/data_processing.py:57 | two words with any whitespace before, between and after them split into exactly those two words |
| Strings.SplitWordsJoin | src/utils/data_processing.py:57-59 | `' '.join(words).split()` gives back the words |
| Strings.JoinWithAppend | src/utils/data_processing.py:59 | joining `parts + [last]` is joining `parts` and then appending the separator and `last` |
| Strings.JoinWithEnds | src/utils/data_processing.py:59 | `sep.join(parts)` of a non-empty list starts with the first part and ends with the last |
| Strings.FixedDigits | src/data_models.py:26 | zero-padded decimal output: exactly `width` digits |
| Strings.FixedDigitsValue | src/data_models.py:26 | a padded number that fits its width reads back as the same number |
| Strings.NatToString | src/utils/survey_engine.py:402 | `str(n)` for a natural number: at least one decimal digit, with a leading `0` only for 0 itself |
| Strings.IntToString | src/utils/survey_engine.py:402 | `str(i)`: non-empty, and starting with `-` exactly when `i` is negative |
| Strings.NatToStringValue | src/utils/survey_engine.py:402 | `str(n)` for a natural number reads back as `n` |
| Strings.DigitsValueBound | src/data_models.py:59 | a run of `k` digits denotes a number below `10^k` |
| Strings.ParseIntBlankAndSign | src/utils/survey_engine.py:341 | `int()` of a blank string raises `ValueError`, and a negative result comes only from text whose stripped form starts with `-` |
| Strings.ParseIntDigits | src/utils/survey_engine.py:162 | `int()` of a digit string is its decimal value |
| Strings.ParseIntNegative | src/utils/survey_engine.py:341 | `int()` of `-` followed by digits is the negated value |
| Strings.ParseIntToString | src/utils/survey_engine.py:341 | `int(str(i)) == i` for every integer |
| Strings.ZFill | src/utils/survey_engine.py:403 | `str.zfill(width)`: the result's length is the larger of `width` and the input's length, so it never truncates |
| Strings.ZFillValue | src/utils/survey_engine.py:403 | zero-filling digits keeps them digits with the same integer value |
| Strings.ZFillIdempotent | src/utils/survey_engine.py:403 | zero-filling twice to the same width is zero-filling once |
| Strings.KeepDigits | src/data_models.py:80 | `re.sub(r'\D', '', s)`: only digits remain, the result is no longer than `s`, and a digit string is kept whole; the three lemmas below fix the result for every input |
| Strings.KeepDigitsAppend | src/data_models.py:80 | the filter distributes over concatenation: the digits of each part are kept, in order |
| Strings.KeepDigitsChar | src/data_models.py:80 | one character is kept exactly when it is a digit |
| Strings.KeepDigitsDropsSeparator | src/data_models.py:80 | a non-digit between two digit strings is dropped, as the hyphen of `12345-6789` is |
| DataModels.WithoutFinalNewline | src/data_models.py:8 | the text `$` anchors on: the string itself, or the string without one final newline |
| DataModels.IsCalendarDate | src/data_models.py:61 | `datetime(year, month, day)` accepts the date: the day is at most 31, and February 29 only in a leap year |
| DataModels.MatchesDatePattern | src/data_models.py:8 | `re.match(DATE_PATTERN, s)`: the text before the optional final newline is 8 to 10 characters and begins and ends with a digit |
| DataModels.DatePatternShape | src/data_models.py:8 | a month field, a day field and four year digits joined by slashes are 8 to 10 characters that begin and end with a digit |
| DataModels.PatternFieldValues | src/data_models.py:8 | the pattern's month field reads 1 to 12, its day field at most 31 (the pattern admits day 0) and its year at most 9999 |
| DataModels.PatternDate | src/data_models.py:59 | `map(int, date_str.split('/'))` on a pattern match: month 1 to 12, day 0 to 31, year 0 to 9999 |
| DataModels.ValidateDate | src/data_models.py:46-64 | a non-blank valid date is 8 to 11 characters long and starts with a digit |
| DataModels.ParseMonthDayYear | src/data_models.py:24 | `strptime(s, "%m/%d/%Y")` succeeds only with a real calendar date |
| DataModels.Canonical | src/data_models.py:26 | `strftime("%m/%d/%Y")` is 10 characters |
| DataModels.YearMonthDay6 | src/data_models.py:112 | `strftime("%y%m%d")` is 6 digits |
| DataModels.FormatDate | src/data_models.py:20-33 | `format_date` gives `""` or a 10-character string |
| DataModels.CanonicalSplit | src/data_models.py:59 | splitting a canonical date on `/` gives its padded month, day and year |
| DataModels.SlashedFields | src/data_models.py:59 | `m/d/y` with slash-free fields splits into exactly `[m, d, y]` |
| DataModels.CanonicalParses | src/data_models.py:8 | a canonical date matches the pattern, names the same date, validates and parses back to the same date |
| DataModels.FormatDateCanonical | src/data_models.py:24-26 | formatting a canonical date leaves it unchanged |
| DataModels.FormatDateIsCanonical | src/data_models.py:24-26 | a non-empty `format_date` result is the canonical form of a calendar date |
| DataModels.FormatDateIdempotent | src/data_models.py:20-33 | `format_date` applied twice equals applied once |
| DataModels.FormatDateValidates | src/data_models.py:46-64 | every `format_date` result passes `validate_date` |
| DataModels.ValidDateParses | src/data_models.py:54-64 | a non-blank valid date, without its optional final newline, is trimmed and parses to the date the pattern names |
| DataModels.ValidDateFormats | src/data_models.py:24-26 | a non-blank valid date formats to the canonical form of the date it names, so it is never lost |
| DataModels.ValidateSlashed | src/data_models.py:49-64 | `m/d/y` is non-blank, and valid exactly when the fields match the pattern and name a real date |
| DataModels.BlankDateValid | src/data_models.py:49-51 | the empty string and whitespace-only strings are valid dates |
| DataModels.SingleDigitFieldsValid | src/data_models.py:8 | `m/d/yyyy` with one-digit month and day is valid and names `Date(y, m, d)` |
| DataModels.SingleDigitFieldsFormat | src/data_models.py:24-26 | `m/d/yyyy` formats to the zero-padded `mm/dd/yyyy` |
| DataModels.LeapDayValid | src/data_models.py:58-62 | `2/29/yyyy` is valid exactly in leap years |
| DataModels.MonthThirteenRefused | src/data_models.py:8 | a month of 13 is refused |
| DataModels.DayThirtyTwoRefused | src/data_models.py:8 | a day of 32 is refused |
| DataModels.NoSlashRefused | src/data_models.py:54-55 | a non-blank string with no slash, such as an ISO date, is refused |
| DataModels.ValidateZip | src/data_models.py:77-86 | the result is `""` or 9 digits; it is non-empty exactly when 5 or 9 digits remain; it holds those digits followed by zeros |
| DataModels.ValidateZipIdempotent | src/data_models.py:77-86 | normalising a zip code twice equals normalising it once |
| DataModels.ValidateZipPlusFour | src/data_models.py:80-84 | a ZIP+4 code `ddddd-dddd` normalises to its nine digits |
| DataModels.ValidateZipFive | src/data_models.py:80-82 | five digits gain `0000` |
| DataModels.LastFour | src/data_models.py:122 | `str(client_id)[-4:]`: the last `min(4, length)` characters |
| DataModels.Initials | src/data_models.py:103-105 | non-empty exactly when both names are non-empty, and then the upper-cased first letters |
| DataModels.AdmissionStamp | src/data_models.py:108-118 | the date part is always 6 characters |
| DataModels.Truncate | src/data_models.py:126-127 | `s[:n]`: the first `min(n, len(s))` characters of `s` |
| DataModels.GenerateAdmissionId | src/data_models.py:102-129 | starts with `ADM`, is at most 15 characters, and, with ASCII upper-casing of the initials, is `ADM` + last four of the id + initials + date part with nothing cut |
| DataModels.AdmissionIdUsesAdmissionDate | src/data_models.py:108-112 | a valid admission date supplies the date part, as its `yymmdd` |
| DataModels.NewlineStillValid | src/data_models.py:8 | a valid date followed by a newline is still valid |
| DataModels.NewlineRefusedByStrptime | src/data_models.py:24 | `strptime` refuses a pattern-matching date followed by a newline |
| DataModels.AdmissionIdNewlineFallback | src/data_models.py:108-115 | such a date passes `validate_date`, yet the id uses today's date |
| SurveyConfig.FindQuestion | src/survey_config.py:67-70 | a question found has the sequence number asked for and comes from the list; none is found exactly when no question has that number |
| SurveyConfig.FindQuestionFirst | src/survey_config.py:67-69 | with several matches, the first in list order is found |
| SurveyConfig.FindQuestionDistinct | src/survey_config.py:67-69 | with distinct numbers, each question is found under its own number |
| SurveyConfig.GetQuestion | src/survey_config.py:57-70 | `get_question` on the bank: a matching question from the bank, or None exactly when the bank has none |
| SurveyConfig.BankNumbersDistinct | src/survey_config.py:9-51 | the bank's sequence numbers are pairwise distinct |
| SurveyConfig.GetQuestionExamples | src/survey_config.py:17-25 | `"19"` is found with default `"000"` and range 0 to 999; `"73"` is not found |
| SurveyRules.AnswerOr | src/utils/survey_engine.py:118 | `answers.get(key, default)` |
| SurveyRules.HoldsRelations | src/utils/survey_engine.py:42-58 | a `!=` condition is the negation of the matching `==` one, an empty-answer test is equality with `""`, and only the dependency condition reads `dependencies` |
| SurveyRules.EvaluateRule | src/utils/survey_engine.py:35-58 | a rule without dependencies never fires; a rule with dependencies and a condition without `answers.get` always fires |
| SurveyRules.EvaluateRuleLocal | src/utils/survey_engine.py:50-51 | whether a rule fires depends only on the answers its condition reads |
| SurveyRules.ApplyRuleAction | src/utils/survey_engine.py:72-90 | only `set_to_blank` (to `""`) and `set_value '0'` (to `"0"`) change the value; only `invalid` reports invalid, with the fixed message and the value kept; otherwise the result is valid with no message |
| SurveyRules.RenderPass | src/utils/survey_engine.py:114-132 | a disabled field has value `""`; without `set_to_blank` rules the field is never disabled; without `invalid` rules no error is recorded |
| SurveyRules.RenderPassAppend | src/utils/survey_engine.py:122-124 | rules apply in list order, each to the value the previous one left, up to the first stop |
| SurveyRules.RenderStopsAtBlank | src/utils/survey_engine.py:130-132 | once a fired `set_to_blank` has stopped the loop, later rules change nothing and the value is `""` |
| SurveyRules.RenderSkipsUnfired | src/utils/survey_engine.py:123 | a rule that does not fire has no effect |
| SurveyRules.RenderDisabledWitness | src/utils/survey_engine.py:122-132 | the field is disabled exactly when some rule is a fired `set_to_blank`; every earlier rule passed without stopping |
| SurveyRules.TypeError | src/utils/survey_engine.py:331-345 | only non-empty dates and numbers are checked; a date errors exactly when `validate_date` fails; a number errors exactly when `int()` fails or the value is outside the inclusive range, with min 0 and max 999 as defaults |
| SurveyRules.MinBound | src/utils/survey_engine.py:337 | `valid_values.get("min", 0)`: the given minimum, or 0 when there is none |
| SurveyRules.MaxBound | src/utils/survey_engine.py:338 | `valid_values.get("max", 999)`: the given maximum, or 999 when there is none |
| SurveyRules.NumericInRange | src/utils/survey_engine.py:341-343 | a number written out errors exactly when it lies outside `[min, max]` |
| SurveyRules.RuleFold | src/utils/survey_engine.py:320-326 | the rule pass touches only the question's own key and never removes an error already there |
| SurveyRules.RuleFoldMeaning | src/utils/survey_engine.py:320-326 | every rule is checked against the unchanged answer; the key has an error exactly when some fired rule is `invalid`, and later messages overwrite earlier ones |
| SurveyRules.QuestionError | src/utils/survey_engine.py:320-345 | a question has no error exactly when it has no type error and no fired `invalid` rule |
| SurveyRules.QuestionStep | src/utils/survey_engine.py:315-345 | one question touches only its own key, and a type error always ends up as that key's message |
| SurveyRules.QuestionStepMeaning | src/utils/survey_engine.py:315-345 | one question's pass sets only that question's key, and a type error overwrites a rule error |
| SurveyRules.ValidatePass | src/utils/survey_engine.py:315-345 | the question loop never removes an error |
| SurveyRules.ValidatePassErrorKeys | src/utils/survey_engine.py:312-345 | from an empty map, a key ends with an error exactly when some question with that number has one |
| SurveyRules.ValidatePassKeys | src/utils/survey_engine.py:312-345 | after the pass, a key has an error exactly when it had one before or some question with that number has an error |
| SurveyRules.ValidatePassValue | src/utils/survey_engine.py:315-345 | with distinct numbers, each failing question's key holds that question's own message |
| SurveyRules.CrossField | src/utils/survey_engine.py:357-368 | `"74"` gets an error exactly when `"73"` and `"74"` are equal and non-empty; `"75"` gets the primary message when it equals `"73"`, else the secondary message when it equals `"74"`; all other keys are untouched |
| SurveyRules.ValidationErrors | src/utils/survey_engine.py:305-350 | outside the cross-field keys `"74"` and `"75"`, a key has an error exactly when some question with that number has one |
| SurveyRules.ValidationAccepts | src/utils/survey_engine.py:305-350 | the error map is empty exactly when no question has an error and no two drug answers clash |
| SurveyRules.FormatAnswer | src/utils/survey_engine.py:393-407 | non-empty dates become `format_date(value)`; non-empty numbers whose `valid_values` is set are zero-filled to `len(str(max))`; a number is never shortened; everything else passes through |
| SurveyRules.FormatAnswerIdempotent | src/utils/survey_engine.py:393-407 | formatting an export value again changes nothing |
| SurveyRules.FormatNumericKeepsValue | src/utils/survey_engine.py:403 | padding a digit answer keeps its integer value |
| SurveyRules.FormattedAnswers | src/utils/survey_engine.py:379-391 | the keys are exactly the answered numbers that some question has |
| SurveyRules.FormattedAnswerOf | src/utils/survey_engine.py:383-407 | each key holds its answer formatted by the first question with that number |
| SurveyRules.BankDefaultsValid | src/survey_config.py:17-51 | every bank question is well typed, and every default passes its type check |
| SurveyRules.ZeroDefaultValid | src/survey_config.py:18-25 | question `"19"` is well typed and its default `"000"` passes its type check |
| SurveyRules.BankBoundsOrdered | src/survey_config.py:22-49 | every numeric bank question has `min <= max` |
| Survey.SurveyEngine.constructor | src/utils/survey_engine.py:20-22 | the engine starts with the given questions, no answers and no errors |
| Survey.SurveyEngine.ApplyRenderRules | src/utils/survey_engine.py:115-132 | the loop's value and disabled flag are those of the render pass; an invalid rule records the fixed message under the question's key |
| Survey.SurveyEngine.RenderQuestion | src/utils/survey_engine.py:114-166 | the rule loop, then the type check of the entered value, then `answers[seq_num] = value` |
| Survey.SurveyEngine.CheckEntered | src/utils/survey_engine.py:143-166 | the error map gains exactly the value's type error, if it has one |
| Survey.SurveyEngine.ValidateAll | src/utils/survey_engine.py:305-350 | the error map is rebuilt from empty as the validation errors of the answers, and the result is true exactly when that map is empty |
| Survey.SurveyEngine.ValidateCrossField | src/utils/survey_engine.py:352-368 | the error map becomes its cross-field update |
| Survey.SurveyEngine.LookupQuestion | src/utils/survey_engine.py:383-387 | the linear search finds the first question with the number |
| Survey.SurveyEngine.GetFormattedAnswers | src/utils/survey_engine.py:379-409 | the loop over the answers builds exactly the formatted-answers map |
| Config.FieldMappingTargets | src/config.py:18-45 | every mapping target is a required client field |
| Config.FieldMappingKeyLengths | src/config.py:18-45 | no header the mapping renames is longer than 13 characters |
| DataProcessing.SetColumn | src/utils/data_processing.py:82 | `df[col] = value`: the column is added at the end if it is new, and every row gets the value; well-formedness is kept |
| DataProcessing.NormalizeColumnName | src/utils/data_processing.py:18-21 | the stripped, lowered header, renamed when the mapping has it |
| DataProcessing.NormalizedNameShape | src/utils/data_processing.py:18-21 | a normalised header is a mapping target or has no upper-case letter |
| DataProcessing.RequiredFieldLengths | src/config.py:18 | no required client field has the length of an admission column name |
| DataProcessing.NormalizedNameNotAdmission | src/utils/data_processing.py:18-21 | a normalised header is never `ClientFullName`, `AdmissionDate`, `ProviderAdmissionId` or `AdmissionType` |
| DataProcessing.StandardHeaderLowered | src/utils/data_processing.py:18 | the header `ProviderClientId` becomes `providerclientid` |
| DataProcessing.RenameRow | src/utils/data_processing.py:21 | a row's last column reappears under its new name with its value, so of two columns renamed alike the later wins |
| DataProcessing.RenameRowKeys | src/utils/data_processing.py:21 | the renamed row has a cell exactly under the new name of each column it had |
| DataProcessing.RenameColumns | src/utils/data_processing.py:18-21 | the columns are the normalised headers, and each row is renamed with them |
| DataProcessing.RenameColumnsWellFormed | src/utils/data_processing.py:18-21 | renaming keeps each row's cells exactly under the table's columns |
| DataProcessing.RenamedColumnsExclude | src/utils/data_processing.py:18-21 | after renaming no column is one of the four admission names |
| DataProcessing.FormatDateColumn | src/utils/data_processing.py:40-43 | when the column exists, each non-empty cell becomes `format_date` of the cell and the others become `""`; otherwise the table is unchanged |
| DataProcessing.FormattedCellsValid | src/utils/data_processing.py:43 | a formatted date cell is `""` or a 10-character valid date |
| DataProcessing.FormatDateColumnIdempotent | src/utils/data_processing.py:40-43 | formatting a date column a second time changes nothing |
| DataProcessing.NameParts | src/utils/data_processing.py:57 | `ClientFullName.strip().split()` gives non-empty words without whitespace |
| DataProcessing.NamePartsSplit | src/utils/data_processing.py:57 | the parts are exactly the words of the full name (`Strings.SplitWords` fixes them for blank names, single words and words separated by whitespace) |
| DataProcessing.SplitNameRow | src/utils/data_processing.py:55-62 | applies only to a row with a full name and a missing first or last name. With several words, `FirstName` is all but the last joined by spaces and `LastName` is the last; with one word only `LastName` is set; no other cell changes |
| DataProcessing.SplitNameKeepsWords | src/utils/data_processing.py:58-60 | the new first and last names re-split into the full name's words |
| DataProcessing.SplitNameKeepsNamedRows | src/utils/data_processing.py:55 | a row with both names present is unchanged |
| DataProcessing.SplitNameTwoWords | src/utils/data_processing.py:55-60 | in a row missing a name, a full name of two words with any whitespace around them puts the first word in `FirstName` and the second in `LastName` |
| DataProcessing.PrepareNameColumn | src/utils/data_processing.py:48-51 | the name column exists afterwards, and one with some non-empty cell is kept |
| DataProcessing.ColumnBlank | src/utils/data_processing.py:48 | `df[col].eq('').all()` holds for a table without rows and for a column that no row has |
| DataProcessing.SplitFullNames | src/utils/data_processing.py:46-62 | without a `ClientFullName` column, or without rows, the table is unchanged |
| DataProcessing.SplitFullNamesRows | src/utils/data_processing.py:54-62 | the split keeps the row count and changes only `FirstName` and `LastName` cells |
| DataProcessing.NormalizeSkipsDeadSteps | src/utils/data_processing.py:40-46 | after renaming there is no `AdmissionDate` or `ClientFullName` column, so normalisation reduces to renaming plus the `DateofBirth` rule |
| DataProcessing.NormalizeTable | src/utils/data_processing.py:7-64 | the columns are the normalised headers, the row count is kept, and no `AdmissionDate` or `ClientFullName` column remains |
| DataProcessing.WithRequiredFields | src/utils/data_processing.py:77-84 | every listed field becomes a column; existing columns keep their order in front; the row count is unchanged; no other column appears |
| DataProcessing.WithRequiredFieldsCells | src/utils/data_processing.py:80-82 | in a well-formed table, existing cells keep their values, added cells are `""`, and the table stays well formed |
| DataProcessing.WithRequiredFieldsPresent | src/utils/data_processing.py:81 | a table that has every field is unchanged |
| DataProcessing.WithRequiredFieldsIdempotent | src/utils/data_processing.py:77-84 | applying `handle_missing_fields` twice equals applying it once |
| DataProcessing.SelectColumns | src/utils/data_processing.py:111 | `df[cols]`: exactly the listed cells of each row, with their values |
| DataProcessing.AdmissionColumns | src/utils/data_processing.py:102-108 | the two key columns, plus `ProviderAdmissionId` and `AdmissionType` when present |
| DataProcessing.WithProviderColumns | src/utils/data_processing.py:114-116 | every row gains the provider and location constants, and the columns gain those two names |
| DataProcessing.FillAdmissionId | src/utils/data_processing.py:118-121 | a table without `ProviderAdmissionId` gets, on every row, the id that `generate` makes from the row's client id; a table with that column is unchanged |
| DataProcessing.AdmissionIdGenerator | src/utils/data_processing.py:118-121 | the per-row generator passes no names, so there are no initials and no case mapping is involved: every id it makes starts with `ADM` and is 9 to 13 characters long (at most four client-id characters and the 6-character date part) |
| DataProcessing.FillAdmissionType | src/utils/data_processing.py:123-125 | a table without `AdmissionType` gets `"New"` on every row; one with it is unchanged |
| DataProcessing.ExtractAdmissionData | src/utils/data_processing.py:97-127 | the result is empty unless both `ProviderClientId` and `AdmissionDate` are columns, and otherwise has one row per input row |
| DataProcessing.ExtractKeepsKeys | src/utils/data_processing.py:100-111 | each admission row copies the client id and admission date |
| DataProcessing.ExtractSetsProvider | src/utils/data_processing.py:114-116 | each admission row carries the provider and location constants |
| DataProcessing.ExtractAdmissionId | src/utils/data_processing.py:105-121 | the admission id is the row's own when that column exists, and a generated one otherwise |
| DataProcessing.ExtractAdmissionType | src/utils/data_processing.py:107-125 | the admission type is the row's own when that column exists, and `"New"` otherwise |
| DataProcessing.ProcessTable | src/utils/data_processing.py:141-147 | the client table has every required client field |
| DataProcessing.ProcessTableAdmissionsEmpty | src/utils/data_processing.py:141-147 | the admission table of the pipeline is always empty |
| DataProcessing.DataFrame.constructor | src/utils/data_processing.py:140 | a frame holding the given table |
| DataProcessing.DataFrame.SetColumnInPlace | src/utils/data_processing.py:82 | the frame becomes `SetColumn` of its old table |
| DataProcessing.DataFrame.Normalize | src/utils/data_processing.py:7-64 | the frame becomes the normalised table of its old contents |
| DataProcessing.DataFrame.PrepareNameColumnInPlace | src/utils/data_processing.py:48-51 | the frame becomes its old table with the name column prepared |
| DataProcessing.DataFrame.SplitFullNamesInPlace | src/utils/data_processing.py:46-62 | the row loop writes each row's split, so the frame becomes the split of its old table |
| DataProcessing.DataFrame.SplitNameRowsInPlace | src/utils/data_processing.py:54-62 | the row loop keeps the row count and turns each row into its split |
| DataProcessing.DataFrame.SplitNameAt | src/utils/data_processing.py:55-62 | row `idx` becomes its split, and the other rows are unchanged |
| DataProcessing.DataFrame.HandleMissingFields | src/utils/data_processing.py:77-84 | the frame gains the listed fields, by default `REQUIRED_CLIENT_FIELDS` |
| DataProcessing.DataFrame.AddMissingFields | src/utils/data_processing.py:80-82 | the field loop leaves the frame equal to the fill of its old table |

## Left out

- The Streamlit widgets and layout are not modelled. This covers the `text_input`, `selectbox` and `radio` branches of `render_question` and all of `render_survey_form`. `RenderQuestion` takes the widget's returned value as the parameter `entered`.
- The `eval` of condition text is not modelled: the `"value"` substitution, the sandboxed globals and the swallowed exceptions. The closed `Condition` datatype stands in for the condition strings. A condition outside that set, or one that raises, is not modelled.
- A rule that has `"dependencies"` but no `"condition"` raises `KeyError` in the source. The model's `Rule` always has a condition.
- A numeric question whose `valid_values` is a non-empty list of codes raises on `.get`. `WellTyped` excludes such questions, so the engine methods require `Valid()`.
- The clock read by `generate_admission_id` is the parameter `today`.
- The `print` of evaluation errors is left out.
- Reading CSV and TSV text, `fillna`, `astype(str)` and the `float` coercion of id columns are not modelled. Tables arrive as strings already, with `""` for missing cells.
- Unicode behaviour is ASCII only for digit classes, `\D` and case mapping. Whitespace is Python's full `str.isspace` set (`Strings.IsSpace`).
- Dictionary iteration order is not modelled. `errors` and the formatted answers are maps. Only the last-writer-wins order of overwrites, which the source's loops fix, matters here.
- pandas can hold two columns renamed to the same name. In the model a row is a map, so such columns merge and the later one's cells win (`DataProcessing.RenameRow`). On a frame with rows, the source does not get past two such duplicates: a duplicated `DateofBirth` raises `ValueError` at src/utils/data_processing.py:43, and a duplicated id column (headers `ID` and `Client ID`, say) raises the same way at src/utils/data_processing.py:31. There `.apply` runs over a sub-frame, so the lambda gets a whole column and its truth test fails. In those two cases the model's merge stands in for that exception.
- `"rules": None` is modelled as an empty rule list, which the source treats the same way.
- `src/components/*.py` and `streamlit_app.py` are user-interface code and are not modelled. That includes `data_export.py` and the `GENDER_OPTIONS` constant it uses.
- DataModels.MonthThirteenRefused: stated only for years without a final newline, and DataModels.DayThirtyTwoRefused likewise. Such a newline changes which text the pattern sees.
- DataModels.ValidDateFormats: stated only for non-blank input. A blank string is a valid date that formats to `""`.
- DataModels.AdmissionIdUsesAdmissionDate: stated only for dates without a final newline. With one, `DataModels.AdmissionIdNewlineFallback` shows the date part is today's.
- DataProcessing.WithRequiredFieldsCells and the `Extract` lemmas are stated only for well-formed tables, where every row has exactly the table's columns. That is always so for a pandas frame.
- DataModels.FormatDate: `strftime("%Y")` is modelled as four zero-padded digits. Some C libraries print years below 1000 without padding.
- DataModels.GenerateAdmissionId: the length bound and "nothing cut" hold only under the ASCII case mapping of `Strings.Upper`. In Python `'ß'.upper() == 'SS'`, so the initials can be 3 or 4 characters, the id can reach 17 characters, and the cut to 15 (src/data_models.py:126-127) then removes date digits. `DataModels.Truncate` models that cut.
- DataProcessing.DataFrame.Normalize: aliasing is not modelled. `normalize_dataframe` lower-cases the header list of the caller's own frame in place (src/utils/data_processing.py:18) and then works on a renamed copy (src/utils/data_processing.py:21), so the caller keeps a frame with stripped, lower-case headers. The model has one `DataFrame` object, which ends with the normalised table.
- SurveyRules.TypeError: CPython's limit on digits in integer-string conversion is not modelled. Since Python 3.11 (and the 3.7.14, 3.8.14, 3.9.14 and 3.10.7 security releases), `int()` of text with more than 4300 digits raises `ValueError` by default, and so does `str()` of such an integer. The limit is a runtime setting (`sys.set_int_max_str_digits`, `PYTHONINTMAXSTRDIGITS`) and older versions have none. So for a numeric answer of more than 4300 digits, `validate_all` (src/utils/survey_engine.py:341-345) and the render check (src/utils/survey_engine.py:160-166) record "Please enter a valid number", where the model gives the range message. The members below inherit the same gap.
- SurveyRules.NumericInRange: its range message for a written-out number holds only up to the same 4300-digit limit.
- Strings.ParseIntDigits: "`int()` of a digit string is its decimal value" holds only for at most 4300 digits under that limit; above it `int()` raises.
- Strings.ParseIntNegative: likewise for `-` followed by more than 4300 digits.
- Strings.ParseIntToString: the round trip `int(str(i)) == i` holds under that limit only for integers of at most 4300 digits; above it `str(i)` itself raises.
