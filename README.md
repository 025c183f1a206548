# AI study assistant: notes retrieval, MCQ parsing and the quiz session, in Dafny

This project models the logic under the study assistant's Streamlit front end.

- **Notes retrieval.** `split_into_chunks` cuts the uploaded notes into overlapping windows. `keyword_score` scores a window against a question by shared word tokens. `pick_relevant_chunks` keeps the best windows in stable score order. `build_notes_prompt` places them, and then the question, inside a fixed instruction.
- **The MCQ parser.** `parse_mcq_text` reads the model's reply as `{question, options, answer}` records.
- **The quiz session.** Four session fields (`generated_mcqs`, `current_mcq_index`, `mcq_score`, `mcq_show_feedback`) are updated by the quiz area's buttons: Create Quiz, Submit Answer, Next and Restart Quiz.

The helpers exist twice, in `core/text_utils.py` and in `app2.py`. The quiz session also exists twice, in `features/quiz_generator.py` and in `app2.py`. Code that is the same in both copies is modelled once. Module `App2` holds what differs, and the notes tab's call into the helpers:

- the chunker's `if`-clamp;
- the extra prompt sentence;
- the notes tab's `pick_relevant_chunks(notes_text, question, top_k=3)` followed by `build_notes_prompt` (app2.py:269-270).

The two Restart buttons are modelled as two operations.

Modules:

- `PyStr`: the Python string operations the code relies on.
  - `strip()` with Python's whitespace set.
  - `lower()`.
  - `sep.join`.
  - `str.split` / `re.split` as `SplitWhere`, which is parameterised by the separator matched at each position.
- `Chunking`: `split_into_chunks`, both as the source's `while` loop (a method) and as the function that specifies it.
- `Scoring`: `keyword_score`, with `re.findall(r"\w+", ...)` written out as `Words`.
- `Selection`: Python's stable `sorted(..., reverse=True)`, given as an insertion sort, and `pick_relevant_chunks`.
- `Prompt`: `build_notes_prompt` and the layout of the prompt it returns.
- `McqParser`: `parse_mcq_text`.
  - The nested `for` loops are methods (`ParseMcqText`, `ParseBlockLines`).
  - Each method is proved equal to a fold (`McqsOf`, `ParseBlock`), and the lemmas are about those folds.
  - The `IndexError` of the answer lookup is the error case of a `Result`.
- `McqExamples`: two replies worked through the parser.
- `QuizSession`: the session fields.
  - First as a `QuizState` value, with one function per button and the invariant every button keeps.
  - Then as the class `QuizSession`, whose methods update its fields in place and are proved to perform those functions.
  - `Run` drives a session through any sequence of clicks.
- `App2`: the single-file app's chunker loop and prompt, and the prompt its notes tab builds from the three best chunks.

Behaviours of the code that a reader might not expect, and that the model keeps:

- **The first question keeps its marker.** The split pattern `\nQ\d+\.` needs a newline before the marker. So a reply that opens with `Q1. What ...` keeps `Q1.` in its first question (`McqParser.FirstQuestionKeepsLeadingText`, `McqExamples.WellFormedReply`).
- **Text without markers gives one record.** Non-blank text with no marker at all is parsed as one question, not as an empty result.
- **Non-blank text can still give no records.** `parse_mcq_text` returns `[]` exactly when every piece between markers is blank. That includes non-blank text such as `"\nQ1."`, which is all marker (`McqParser.LoneMarkerHasNoMcqs`).
- **Rendering past the end is a Completed screen.** Rendering reads `generated_mcqs[current_mcq_index]` with no bound check. Once Next has moved past the last question, a rerun would raise `IndexError` there. The model's `ViewOf` shows that state as `Completed(score, total)`. Neither Submit nor Next is offered in it; Create Quiz and both Restarts still are.

## Model

| member | source | states |
|---|---|---|
| Chunking.SplitIntoChunks | core/text_utils.py:4-14 | The `while` loop returns exactly `Chunks(text, max_chars, overlap)`: the windows of the stripped text, each starting `max_chars - overlap` after the previous one, until one reaches the end. |
| Chunking.ChunksEmptyIffBlank | core/text_utils.py:5-7 | The chunk list is empty if and only if the text is empty or whitespace-only. |
| Chunking.ChunkLayout | core/text_utils.py:9-12 | Chunk `i` is the slice of the STRIPPED text at `ChunkStart(i)` (0 for the first). No chunk is longer than `max_chars`. Every chunk but the last is exactly `max_chars` long and stops short of the end of the stripped text. With `overlap >= 0`, the last chunk ends at the end of the stripped text. |
| Chunking.ConsecutiveChunksOverlap | core/text_utils.py:9-13 | With `0 <= overlap`, the last `overlap` characters of a chunk are the first `overlap` characters of the next. |
| Chunking.ChunksRebuildStrippedText | core/text_utils.py:9-13 | With `0 <= overlap < max_chars`, the first chunk followed by every later chunk minus its first `overlap` characters is the stripped text: the chunks cover it with no gap. |
| App2.SplitIntoChunksApp2 | app2.py:108-124 | The single-file app's loop, which clamps a negative next start to 0 with an `if`, returns exactly the same chunks as the text utilities' `split_into_chunks`. |
| Scoring.Words | core/text_utils.py:17-18 | `re.findall(r"\w+", s)` returns non-empty tokens made only of word characters. |
| Scoring.KeywordScore | core/text_utils.py:16-19 | `keyword_score(chunk, question)`: the number of `\w+` tokens of the lower-cased chunk, counted with repetition, that are in the set of tokens of the lower-cased question. The result is at least 0 and at most the chunk's token count. |
| Scoring.KeywordScoreBounds | core/text_utils.py:16-19 | The score is at least 0 and at most the number of word tokens in the chunk. It is 0 when the question has no word tokens. |
| Scoring.KeywordScoreIgnoresCase | core/text_utils.py:17-18 | Lower-casing either argument does not change the score. |
| Scoring.KeywordScoreAdditive | core/text_utils.py:19 | The score of two texts joined by a space is the sum of their scores: every matching chunk token counts, with repetition. |
| Scoring.KeywordScoreCountsRepetition | app2.py:126-131 | A chunk repeated twice scores twice as much: tokens are counted with repetition against the set of question tokens. |
| Scoring.TokensRoundTrip | core/text_utils.py:17-18 | Tokens re-joined with single spaces tokenise back to the same tokens. |
| Selection.SortByKeyDesc | core/text_utils.py:25 | `sorted(s, key=key, reverse=True)` as an insertion sort that puts each element before the first one whose key is not larger, so equal keys keep their input order. The result has as many elements as `s`. |
| Selection.SortByKeyDescFacts | core/text_utils.py:25 | The sort returns the keys in non-increasing order and is a permutation of its input. It is stable: it keeps the elements of each key in their original order. |
| Selection.StableSortIsUnique | core/text_utils.py:25 | A sequence that is sorted by non-increasing key and keeps the per-key order of the input is that sort's result. So the insertion sort is exactly Python's stable `sorted(..., reverse=True)`. |
| Selection.PrefixTo | core/text_utils.py:26 | `s[:k]` is a prefix of `s` of length `min(k, len(s))` for `k >= 0`, and of length `max(0, len(s) + k)` for a negative `k`. |
| Selection.PickRelevantChunks | core/text_utils.py:21-26 | `[]` when the notes have no chunks, otherwise `ranked[:top_k]` of the chunks sorted by score. It holds `min(top_k, #chunks)` chunks for `top_k >= 0` and `max(0, #chunks + top_k)` for a negative `top_k`, as Python's slice does. |
| Selection.PickRelevantChunksSpec | core/text_utils.py:21-26 | With no chunks the result is `[]`. For `top_k >= 0` it has `min(top_k, #chunks)` elements. It is a sub-multiset of the chunks, in non-increasing score order. Ties keep their order in the notes. No chunk left out scores higher than a chunk taken. |
| App2.NotesTabPicksThree | app2.py:133-138 | With `top_k=3`, as the notes tab calls it, the selection has `min(3, #chunks)` chunks of the notes, best score first. None of them scores below a chunk left out. |
| Prompt.JoinKeepsParts | core/text_utils.py:29 | In `"\n\n---\n\n".join(chunks)`, every chunk stands unchanged at its offset. A separator follows every chunk but the last. The last chunk ends the string. |
| Prompt.JoinLength | core/text_utils.py:29 | A join of `k` chunks has the chunks' characters plus exactly `k - 1` separators. |
| Prompt.BuildNotesPrompt | core/text_utils.py:28-40 | `build_notes_prompt(context_chunks, question)`: the template's head, the chunks joined by `"\n\n---\n\n"`, `"\n\nQuestion: "`, the question and `"\n\nAnswer:\n"`. The prompt opens with the head and ends with the answer cue. |
| Prompt.PromptLayout | core/text_utils.py:28-40 | The prompt opens with the role line and the grounding instruction. The joined context comes right after the head. The question comes verbatim after `"\n\nQuestion: "`. The prompt ends with `"\n\nAnswer:\n"`. |
| Prompt.PromptKeepsChunk | core/text_utils.py:29-35 | Chunk `i` stands unchanged in the prompt, after the head and after `i` earlier chunks and separators. |
| Prompt.RenderKeepsPart | core/text_utils.py:29-35 | Whatever the head before the context, chunk `i` of the joined context stands unchanged in the prompt, `|head|` characters further on than in the context. |
| Prompt.PromptWithoutChunks | core/text_utils.py:28-40 | With no chunks the context is empty, but the instruction, the question and the answer cue are all still there. |
| App2.BuildNotesPromptApp2 | app2.py:140-153 | The single-file app's `build_notes_prompt`: the same template with the longer head. The prompt opens with that head and ends with the answer cue. |
| App2.PromptDiffersBySentence | app2.py:140-153 | The single-file app's prompt equals the text utilities' prompt with " Keep the explanation simple and student‑friendly." inserted right after the instruction, and nothing else changed. |
| App2.PromptApp2KeepsChunk | app2.py:141-147 | Chunk `i` stands unchanged in the single-file app's prompt, after its longer head and after `i` earlier chunks and separators. |
| App2.NotesTabPrompt | app2.py:269-270 | The prompt the notes tab sends: the single-file app's prompt built on `pick_relevant_chunks(notes_text, question, top_k=3)`. |
| App2.NotesTabPromptHoldsPicked | app2.py:269-270 | Each chunk the notes tab picks with `top_k=3` is a chunk of the notes, and it stands unchanged in the prompt sent for the question, after the head and the earlier picked chunks. |
| App2.PickedChunkInPrompt | app2.py:141-147 | A chunk taken from the notes' chunks is one of them and stands unchanged in the single-file app's prompt built on the selection. |
| PyStr.StripIsTrimmedSlice | core/text_utils.py:5 | `s.strip()` is a contiguous slice of `s`, and only whitespace stands before and after it. The result is empty, or it neither starts nor ends with whitespace. |
| PyStr.SplitLinesRoundTrip | core/text_utils.py:49 | No piece of `block.split("\n")` holds a newline, and joining the pieces with newlines gives the block back. |
| PyStr.SplitLinesOfJoin | core/text_utils.py:49 | Lines that hold no newline, joined with newlines and split again, come back unchanged. |
| McqParser.DigitRun | core/text_utils.py:44 | The greedy `\d+` of the marker: the run it measures is all digits, and the character after it, if any, is not a digit. |
| McqParser.MarkerAt | core/text_utils.py:44 | The length of the `\nQ\d+\.` match at the start of a string, 0 when none starts there. A match is at least 4 characters: a newline, `Q`, only digits, and a final dot. |
| McqParser.MarkerAtFindsMarker | core/text_utils.py:44 | Every `\nQ`, digit run, dot at the start of a string is matched in full, so no marker is missed. |
| McqParser.SplitOnMarkers | core/text_utils.py:44 | `re.split(r"\nQ\d+\.", mcq_text)`: the text cut at the markers found from left to right, each match removed. |
| McqParser.IsOptionLine | core/text_utils.py:54 | `re.match(r"[ABCD]\)", line)`: the line starts with one of `A` to `D` followed by `)`. |
| McqParser.OptionText | core/text_utils.py:55 | `line[3:].strip()`: empty for a line of at most three characters, never longer than the line minus three, and neither starting nor ending with whitespace. |
| McqParser.AnswerLetter | core/text_utils.py:57 | `line.split("Answer:")[1].strip()`: the text between the leading tag and any second tag, stripped, so it neither starts nor ends with whitespace. |
| McqParser.LetterIndex | core/text_utils.py:58-59 | `{"A": 0, "B": 1, "C": 2, "D": 3}.get(letter, 0)`: an index below 4, positive exactly for `"B"`, `"C"` and `"D"`, and then the position of that letter in `ABCD`. |
| McqParser.ParseMcqText | core/text_utils.py:42-61 | The outer loop returns exactly `McqsOf(text)`: the fold over the pieces of `re.split(r"\nQ\d+\.", text)`, which skips blank pieces and stops at the first `IndexError`. |
| McqParser.ParseBlockLines | core/text_utils.py:49-60 | The inner loop over one stripped piece returns exactly `ParseBlock(block)`, or its error. |
| McqParser.ParseBlocksElementwise | core/text_utils.py:45-60 | There is one record per non-blank piece, in order, and each record is that piece's own record. Parsing fails exactly when some non-blank piece fails. |
| McqParser.ScanLinesOptions | core/text_utils.py:53-55 | The options are the texts of the lines (stripped) that start with `A)` to `D)`, in order, each with its first 3 characters dropped and then stripped. Their number is not limited. |
| McqParser.ScanLinesFailsIff | core/text_utils.py:56-59 | The lookup raises exactly when some `Answer:` line's letter index (`A` 0 … `D` 3, anything else 0) is at least the number of options listed above that line. |
| McqParser.ScanLinesAnswer | core/text_utils.py:56-59 | The answer is `None` if and only if there is no `Answer:` line. Otherwise it is the option that the LAST `Answer:` line names among the options above it. |
| McqParser.ScanLinesAnswerIsOption | core/text_utils.py:59 | A kept answer is always one of the options collected. |
| McqParser.ParseBlockFacts | core/text_utils.py:49-59 | A piece's record has the stripped first line as its question and the option texts as its options. Its answer is as above, and always among the options. The piece fails exactly on an out-of-range `Answer:` line. |
| McqParser.McqRecordsWellFormed | app2.py:155-175 | Every record returned has a non-empty question, and an answer (when present) that is one of its options. |
| McqParser.McqsEmptyIffAllPiecesBlank | core/text_utils.py:44-48 | The result is `[]` exactly when every piece between markers is blank. |
| McqParser.BlankTextHasNoMcqs | core/text_utils.py:44-48 | Empty or whitespace-only text parses to `[]`. |
| McqParser.LoneMarkerHasNoMcqs | core/text_utils.py:44-48 | The non-blank text `"\nQ1."` also parses to `[]`. |
| McqParser.TextWithoutMarkersIsOneQuestion | core/text_utils.py:44-60 | Non-blank text without a marker gives exactly one record, that of the whole stripped text, or that record's error. |
| McqParser.FirstQuestionKeepsLeadingText | core/text_utils.py:44-50 | Text that opens with non-whitespace characters (such as `Q1.`) keeps them at the start of its first question. |
| McqExamples.WellFormedReply | core/text_utils.py:42-61 | `"Q1. Pick one\nA) x\nB) y\nAnswer: B"` gives the single record `("Q1. Pick one", ["x", "y"], "y")`. |
| McqExamples.AnswerBeforeOptionsFails | app2.py:170-173 | `"Q1. Pick one\nAnswer: B"` raises `IndexError`: index 1 among 0 options. |
| QuizSession.InitialState | core/session_utils.py:13-16 | The initial values `[]`, `0`, `0`, `False` satisfy the invariant. They show no quiz and offer neither Submit nor Next. |
| QuizSession.QuizSession.constructor | app2.py:55-62 | A new session holds the initial values and is valid. |
| QuizSession.GenerateKeepsInvariant | features/quiz_generator.py:33-41 | Create Quiz keeps the invariant. A non-empty parse replaces the questions and starts at question 1 of `n` with score 0 and Submit offered. An empty parse, or a parse that raises, leaves all four fields unchanged. |
| QuizSession.QuizSession.Generate | app2.py:355-362 | It updates the fields as `Generated` says. It reports `Started(n)` for a non-empty parse, `NothingParsed` for an empty one, and `ParseRaised(e)` when the parser raises. |
| QuizSession.SubmitKeepsInvariant | features/quiz_generator.py:50-54 | Submit keeps the invariant. It adds one point exactly when the choice equals the answer by value. It changes neither the index nor the question shown. Afterwards Submit is no longer offered and Next is, so no question is scored twice. |
| QuizSession.QuizSession.SubmitAnswer | app2.py:373-377 | It performs `Submitted` in place, keeps the invariant, and reports whether `user_choice == q["answer"]`. |
| QuizSession.CorrectChoiceScores | features/quiz_generator.py:49-54 | Each case of a question's answer: an existing answer is one of the radio's choices and choosing it scores. Without an answer, no choice scores when there are options. The only choice, `None`, scores when there are no options. |
| QuizSession.NextKeepsInvariant | features/quiz_generator.py:60-64 | Next keeps the invariant and the score, adds exactly 1 to the index and clears the feedback. It shows the next question, or the final score once the last question is passed. |
| QuizSession.QuizSession.NextQuestion | app2.py:383-387 | It performs `Advanced` in place and reports completion exactly when the index has reached `len(generated_mcqs)`. |
| QuizSession.CompletedScoreWithinTotal | features/quiz_generator.py:63-64 | When the quiz is complete, the score shown is between 0 and the number of questions, and the index equals that number. |
| QuizSession.RestartsKeepInvariant | features/quiz_generator.py:65-66 | Both restarts keep the invariant and show no quiz. Clearing only the questions equals the full reset exactly when the index, score and feedback are already reset. |
| QuizSession.QuizSession.RestartQuestionsOnly | features/quiz_generator.py:65-66 | It clears `generated_mcqs` and leaves the index, the score and the feedback as they were. |
| QuizSession.QuizSession.RestartAll | app2.py:388-392 | It resets all four fields to `[]`, `0`, `0`, `False`. |
| QuizSession.RestartsLookAlike | features/quiz_generator.py:44-66 | After either Restart, every sequence of later clicks shows the same screens: nothing reads the leftover index, score or feedback before Create Quiz overwrites them. |
| QuizSession.StepKeepsInvariant | app2.py:355-392 | Every button that is offered keeps the invariant. |
| QuizSession.RunKeepsInvariant | features/quiz_generator.py:33-66 | Every session reached from a valid one by any sequence of clicks is valid. In particular, the index never passes the end, and the score never exceeds the questions answered (`score <= index + feedback`) or, once complete, the total. |

## Left out

- The Streamlit front end: widgets, tabs, messages and reruns. The outcome of Create Quiz is returned as a value (`GenerateOutcome`), not shown. The "Restart Quiz" button sits inside Next's click branch; it is modelled as a plain operation.
- The Gemini client: the quiz prompt text, rate-limit pacing, streaming and chat sessions. The model's reply is the parameter `rawMcqs`, and the notes are the parameter `notesText`.
- PDF extraction, file persistence, configuration and the display-only tabs: these are I/O or wiring with no logic of their own.
- Full Unicode tables: `\w`, `\d` and `str.lower()` are modelled on ASCII only.
- Chunking.SplitIntoChunks: requires `0 < max_chars` and `overlap < max_chars`, which is narrower than what the source handles. Outside those sizes the source's loop spins forever only when the stripped text is longer than `max_chars`: the next start never moves forward. With `0 < max_chars <= overlap`, a text no longer than `max_chars` still comes back as one chunk, for example `split_into_chunks("abc", 8000, 9000)` returns `["abc"]`, and the requires leaves those calls out. Every caller uses the defaults 8000 and 300 (core/text_utils.py:22, app2.py:134).
- Chunking.ConsecutiveChunksOverlap: stated for `0 <= overlap` only; a negative overlap leaves gaps between chunks.
- QuizSession.QuizSession.SubmitAnswer: requires that the choice is one `st.radio` can return over the question's options (`None` when there are none), because the radio widget is not modelled.
- QuizSession.ViewOf: shows the final score at `current_mcq_index == len(generated_mcqs)`, where the source's render step would raise `IndexError`.
