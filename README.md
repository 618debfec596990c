# AI Text Summarizer: request shaping and post-processing, in Dafny

The application is a Streamlit page. The user pastes a text, picks a tone
("Formal", "Casual" or "Bullet Points") and a length preset ("Brief", "Medium"
or "Detailed"), and clicks "Generate Summary". The text goes to a pre-trained
summarization pipeline (`facebook/bart-large-cnn`). The page then shows the
summary in the chosen tone, with three statistics: the input's length, the
summary's length and the reduction percentage.

This project models the logic between the page and the model:

- `StrOps` (`str_ops.dfy`) models the Python string built-ins the formatter
  uses, over ASCII: `isspace`, `strip`, `lower`, `capitalize`, `split` on one
  character, `join` and `replace`. It proves that split and join are inverses.
- `ToneFormat` (`tone_format.dfy`) models `format_summary`:
  - "Bullet Points" turns every `". "` into `".\n"`, splits on line feeds,
    strips each piece, drops the blank ones and puts the bullet marker in
    front of each.
  - "Casual" puts one of four lead-in phrases in front of the lower-cased,
    capitalized summary. The random choice becomes a parameter `pick`.
  - Every other tone returns the summary unchanged.
- `LengthPresets` (`length_presets.dfy`) models the `length_params` table.
- `SummaryStats` (`stats.dfy`) models the character counts and
  `round((1 - F/L) * 100)`, with Python's ties-to-even rounding, computed on
  the exact rational.
- `Orchestrator` (`orchestrator.dfy`) models the request itself:
  - It rejects blank input before any model call.
  - It looks up the preset; an unknown name raises `KeyError`, which is caught.
  - It calls the model once with the whole text, the preset's bounds and
    `do_sample=False`, then formats the summary and computes the statistics.
  - Every exception becomes an `"Error: <message>"` outcome with no statistics.
  - The pipeline is a `Summarizer` object. It holds a fixed reply function and
    a ghost log of the calls made on it, so "the model is not called" can be
    stated and proved.

The bullet marker is modelled exactly as `app.py` writes it. The file stores
the three characters U+00E2 U+20AC U+00A2, which is U+2022 (•) encoded as
UTF-8, decoded as Windows-1252 and saved again. The page therefore shows
"â€¢ " where a "•" was evidently meant. None of the proofs depend on which
marker it is, apart from the marker containing no line feed.

Three behaviours of `format_summary` and `main` are easy to miss:

- The bullet tone also splits at line feeds already in the summary, not only
  at `". "` (app.py:21).
- An empty or blank summary in the bullet tone gives the empty text
  (app.py:21-22).
- Tone and length are free strings. An unknown tone is the identity
  (app.py:27), and an unknown length raises a `KeyError` that is caught and
  shown as an error (app.py:94, 132-133).

## Model

| member | source | states |
|---|---|---|
| `StrOps.LeadingSpace` | app.py:21 | the count is the longest all-whitespace prefix: those characters are whitespace and the next one is not |
| `StrOps.TrailingSpace` | app.py:21 | the count is the longest all-whitespace suffix: those characters are whitespace and the one before is not |
| `StrOps.Strip` | app.py:21 | `strip()` is empty exactly when the text is all whitespace; otherwise it starts and ends with non-whitespace, and it is the slice starting after the leading whitespace |
| `StrOps.StripIsSlice` | app.py:21 | what `strip()` keeps is one contiguous slice of the text, with only whitespace before it and after it |
| `StrOps.FirstIndex` | app.py:21 | the index found holds the separator, and no earlier position does |
| `StrOps.Split` | app.py:21 | `split('\n')` gives at least one piece, and no piece contains the separator |
| `StrOps.JoinSplit` | app.py:21-22 | joining the pieces of a split with the separator gives back the original string |
| `StrOps.SplitAfterPiece` | app.py:21 | a separator-free prefix followed by the separator splits off as the first piece |
| `StrOps.SplitJoin` | app.py:21-22 | splitting a `'\n'.join` of line-feed-free lines gives back exactly those lines |
| `StrOps.SplitAllSpace` | app.py:21 | every piece of an all-whitespace string is all whitespace |
| `StrOps.SplitAround` | app.py:21 | splitting a text at one separator gives the pieces of the part before it followed by the pieces of the part after it |
| `StrOps.SplitPiecesEndWith` | app.py:21 | if every separator is preceded by a given character, every piece except the last is non-empty and ends with that character |
| `ToneFormat.FormatSummary` | app.py:18-27 | any tone other than "Bullet Points" and "Casual" (including "Formal") returns the summary unchanged |
| `ToneFormat.Kept` | app.py:21 | a piece contributes at most one sentence, and that sentence has no whitespace at either end |
| `ToneFormat.Sentences` | app.py:21 | the comprehension keeps at most one sentence per piece, each non-empty with no whitespace at either end |
| `ToneFormat.BreakSentencesAt` | app.py:21 | `replace('. ', '.\n')` keeps the length and changes exactly the spaces that follow a period, each into a line feed |
| `ToneFormat.SentencesAppend` | app.py:21 | the comprehension works piece by piece, so the sentences of concatenated pieces are the concatenated sentences (order is kept) |
| `ToneFormat.SentencesNoLineFeed` | app.py:21 | pieces without line feeds give sentences without line feeds |
| `ToneFormat.SentencesOfOne` | app.py:21 | one piece gives its stripped text as a sentence, or nothing if the piece is blank |
| `ToneFormat.SentencesOfBlank` | app.py:21 | blank pieces give no sentences |
| `ToneFormat.BulletLines` | app.py:21-22 | the bullet text is empty exactly when there are no sentences; otherwise splitting it on line feeds gives the bulleted sentences, one line each, in order |
| `ToneFormat.BulletLineForm` | app.py:21-22 | every line of a non-empty bullet text is the marker followed by a non-empty text that strips to itself and has no line feed |
| `ToneFormat.BlankBullets` | app.py:21-22 | an empty or all-whitespace summary formats to the empty text |
| `ToneFormat.SingleBullet` | app.py:21-22 | a summary with some non-whitespace but no `". "` and no line feed becomes exactly one line: the marker and the stripped summary |
| `ToneFormat.StripKeepsLast` | app.py:21 | stripping keeps a final non-whitespace character (such as a period) in last place |
| `ToneFormat.PeriodsKept` | app.py:21 | in a text without line feeds (one line of a summary), every piece except the last ends at a `". "`, so its sentence is non-empty and ends with its period |
| `ToneFormat.PiecesAcrossLineFeed` | app.py:21 | no `". "` straddles a line feed, so the pieces of a text with a line feed are those of the part before it followed by those of the part after it |
| `ToneFormat.PiecesByLine` | app.py:21 | for every summary, the pieces are those of each of its lines in turn |
| `ToneFormat.PeriodsKeptByLine` | app.py:21 | for every summary, line feeds included: within each line, every piece except the line's last gives a non-empty sentence ending with its period |
| `ToneFormat.PeriodOnlyAtEnd` | app.py:21 | text with a period only at its end contains no `". "` |
| `ToneFormat.BreakBetween` | app.py:21 | in "x. y" only the space after the period becomes a line feed |
| `ToneFormat.PiecesOfTwo` | app.py:21 | "x. y" with no other `". "` and no line feed breaks into exactly the two pieces x and y |
| `ToneFormat.StripTrimmed` | app.py:21 | text with no whitespace at either end strips to itself |
| `ToneFormat.SentencesOfTwo` | app.py:21 | two trimmed pieces are kept as two sentences, in order |
| `ToneFormat.TwoSentences` | app.py:21-22 | two trimmed sentences joined by `". "` become two bullet lines, in order, each keeping its text and the first keeping its period |
| `ToneFormat.BulletExample` | app.py:21-22 | "A dog ran. It was fast." formats to the marker + "A dog ran.", a line feed, and the marker + "It was fast." |
| `ToneFormat.CasualShape` | app.py:25-26 | the casual text is the picked lead-in plus a body of the summary's length that equals the summary up to case: the first character is not lower-case and the rest are not upper-case |
| `ToneFormat.CasualIntroUnique` | app.py:25-26 | of the four lead-ins, the casual text starts with exactly one: the one picked |
| `LengthPresets.Preset` | app.py:81-85 | a preset exists exactly for "Brief", "Medium" and "Detailed", and every preset's min_length is below its max_length |
| `LengthPresets.PresetValues` | app.py:81-85 | Brief is (20, 50), Medium is (50, 130) and Detailed is (100, 250) |
| `SummaryStats.RoundHalfEven` | app.py:121 | `round(n/d)` is within one half of n/d, and is even when n/d lies exactly halfway |
| `SummaryStats.RoundUnique` | app.py:121 | those two conditions determine the rounded value uniquely |
| `SummaryStats.RoundMonotone` | app.py:121 | rounding preserves order |
| `SummaryStats.ComputeStats` | app.py:117-121 | the statistics are the input's character count, the formatted summary's character count, and a reduction that is the integer nearest to 100 * (L - F) / L (the even one on a tie), hence at most 100 |
| `SummaryStats.ReductionEndpoints` | app.py:121 | the reduction is 0 when the summary is as long as the input, and 100 when the summary is empty |
| `SummaryStats.ReductionMonotone` | app.py:121 | a longer summary never gives a larger reduction |
| `SummaryStats.ReductionAtMost100` | app.py:121 | the reduction is never above 100 |
| `SummaryStats.ReductionSign` | app.py:121 | the reduction is at least 0 when the summary is no longer than the input; it is at most 0 when the summary is longer, and negative (not clamped) once the excess is over half a percent of the input |
| `SummaryStats.ReductionExample` | app.py:121 | 120 characters out of 500 is a reduction of 76 |
| `Orchestrator.Summarizer.constructor` | app.py:14-16 | a freshly loaded pipeline has the given reply function and has not been called |
| `Orchestrator.Summarizer.Invoke` | app.py:95-100 | a call is logged, and its reply is the model's reply to exactly those arguments |
| `Orchestrator.Process` | app.py:88-133 | a request makes exactly the calls of `CallsFor` on the summarizer and yields `Respond`: blank input gives EmptyInput, an unknown preset or a raised exception gives a Failure, otherwise the formatted summary with its statistics |
| `Orchestrator.BlankInputRejected` | app.py:89-90 | blank input is rejected with "Please enter some text to summarize." and makes no model call |
| `Orchestrator.OneCallWithPreset` | app.py:94-100 | non-blank input with a known preset makes exactly one call: the whole unmodified text, the table's min/max, and `do_sample=False` |
| `Orchestrator.FailureCases` | app.py:93-133 | a request fails exactly when the input is not blank and the preset is unknown or the model raised; the message is "Error: " followed by the exception's text |
| `Orchestrator.SuccessShape` | app.py:102-122 | a successful request shows the model's summary formatted in the chosen tone, with the input length, the formatted length and the reduction derived from them (at most 100) |
| `Orchestrator.EndToEndExample` | app.py:94-122 | a 500-character input with Medium, Formal and a 120-character model answer gives lengths 500 and 120 and a reduction of 76 |

## Left out

- Everything Streamlit does is not modelled, because it is presentation and
  I/O. This covers the page configuration, columns, selectboxes, the spinner,
  metrics and the download button. It also covers the `'\n'` to `'<br>'`
  substitution used to display bullets (app.py:110) and the footer.
- Exceptions raised by the display calls inside the `try` block
  (app.py:106-130) are not modelled, because those calls are not modelled.
  Such an exception would also be shown as an "Error: ..." message.
- Model loading and its caching through `@st.cache_resource` (app.py:13-16)
  are not modelled. Loading once is a property of the Streamlit library,
  not of this code. `Summarizer.constructor` only stands for a loaded pipeline.
- The summarization model is not modelled. It is an arbitrary function from
  the call's arguments to a summary or an exception. This also covers reading
  `result[0]['summary_text']` (app.py:102) and any exception that step raises.
- `random.choice` (app.py:26) is not modelled. The chosen lead-in is the
  parameter `pick`.
- SummaryStats.RoundHalfEven: rounds the exact rational 100 * (L - F) / L.
  `ComputeStats` states the ties-to-even rounding of that rational, and
  `RoundUnique` and `ReductionExample` pin exact values. The source rounds a
  double-precision value, so on an exact tie its result may differ from the
  model's by one. The bounds, endpoints, monotonicity and sign
  (`ReductionAtMost100`, `ReductionEndpoints`, `ReductionMonotone`,
  `ReductionSign`) hold for both.
- Whitespace, `lower` and `capitalize` are modelled over ASCII only; Unicode
  whitespace and case mapping are not modelled. Whitespace follows
  `str.isspace` on ASCII: tab through carriage return, 0x1C-0x1F and space.
- Orchestrator.KeyErrorText: quotes the preset name in single quotes. It does
  not model `repr`'s other quoting and escaping, which applies only to names
  containing quotes, backslashes or non-printable characters. The page only
  ever passes one of the three preset names.
- `warnings.filterwarnings('ignore')` (app.py:4) is not modelled, because it
  is environment configuration.
