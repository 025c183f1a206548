/**
 * The single-file app repeats the helpers of the text utilities. Its `keyword_score`,
 * `pick_relevant_chunks` and `parse_mcq_text` are the same code and are the members of
 * `Scoring`, `Selection` and `McqParser`; what differs is written here: the chunker's loop
 * clamps the next start with an `if` rather than `max`, and the notes prompt carries one more
 * sentence of instruction.
 */
module App2 {
  import opened PyStr
  import Chunking
  import Prompt
  import Selection

  /** `split_into_chunks` as the single-file app writes it: the next start is clamped by an `if`. */
  method SplitIntoChunksApp2(text: string, maxChars: int, overlap: int) returns (chunks: seq<string>)
    requires Chunking.ValidSizes(maxChars, overlap)
    ensures chunks == Chunking.Chunks(text, maxChars, overlap)
  {
    var t := Strip(text);
    if t == [] {
      return [];
    }
    chunks := [];
    var start := 0;
    var n := |t|;
    while start < n
      invariant 0 <= start
      invariant start < n ==> chunks + Chunking.ChunksFrom(t, start, maxChars, overlap) == Chunking.ChunksFrom(t, 0, maxChars, overlap)
      invariant start >= n ==> chunks == Chunking.ChunksFrom(t, 0, maxChars, overlap)
      decreases n - start
    {
      var end := Min(start + maxChars, n);
      var chunk := t[start..end];
      Chunking.WindowTurn(t, chunks, start, maxChars, overlap);
      chunks := chunks + [chunk];
      if end == n {
        break;
      }
      start := end - overlap;
      if start < 0 {
        start := 0;
      }
    }
  }

  /** The sentence the single-file app adds after the grounding instruction (its hyphen is U+2011). */
  const StudentFriendly := " Keep the explanation simple and student\U{2011}friendly."

  /** Everything before the context in the single-file app's prompt. */
  const HeadApp2 := Prompt.Opening + Prompt.Instruction + StudentFriendly + Prompt.ContextCue

  /** `build_notes_prompt(context_chunks, question)` of the single-file app. */
  function BuildNotesPromptApp2(contextChunks: seq<string>, question: string): (prompt: string)
    ensures Prompt.OccursAt(prompt, HeadApp2, 0)
    ensures |Prompt.AnswerCue| <= |prompt| && Prompt.OccursAt(prompt, Prompt.AnswerCue, |prompt| - |Prompt.AnswerCue|)
  {
    Prompt.RenderLayout(HeadApp2, Join(Prompt.Separator, contextChunks), question);
    Prompt.Render(HeadApp2, Join(Prompt.Separator, contextChunks), question)
  }

  /** Where the grounding instruction ends in either prompt. */
  const InstructionEnd := |Prompt.Opening + Prompt.Instruction|

  /**
   * The single-file app's prompt is the text utilities' prompt with the extra sentence put
   * right after the grounding instruction, and nothing else changed.
   */
  lemma PromptDiffersBySentence(contextChunks: seq<string>, question: string)
    ensures var p := Prompt.BuildNotesPrompt(contextChunks, question);
      && InstructionEnd <= |p|
      && BuildNotesPromptApp2(contextChunks, question) == p[..InstructionEnd] + StudentFriendly + p[InstructionEnd..]
  {
    SentenceAfterOpening(Prompt.Opening + Prompt.Instruction, StudentFriendly, Prompt.ContextCue,
                         Join(Prompt.Separator, contextChunks), question);
  }

  /** A sentence put into a head after its opening lands right after the opening in the prompt. */
  lemma SentenceAfterOpening(opening: string, sentence: string, cue: string, context: string, question: string)
    ensures var p := Prompt.Render(opening + cue, context, question);
      && |opening| <= |p|
      && Prompt.Render(opening + sentence + cue, context, question) == p[..|opening|] + sentence + p[|opening|..]
  {
    var tail := context + Prompt.QuestionCue + question + Prompt.AnswerCue;
    var p := Prompt.Render(opening + cue, context, question);
    assert p == opening + (cue + tail);
    assert p[..|opening|] == opening && p[|opening|..] == cue + tail;
    assert Prompt.Render(opening + sentence + cue, context, question) == opening + sentence + (cue + tail);
  }

  /** Chunk `i` of the context stands unchanged in the single-file app's prompt. */
  lemma PromptApp2KeepsChunk(contextChunks: seq<string>, question: string, i: nat)
    requires i < |contextChunks|
    ensures Prompt.OccursAt(BuildNotesPromptApp2(contextChunks, question), contextChunks[i],
                            |HeadApp2| + Prompt.PartOffset(contextChunks, Prompt.Separator, i))
  {
    Prompt.RenderKeepsPart(HeadApp2, contextChunks, question, i);
  }

  /** The prompt the notes tab sends for `question`: the three best chunks of the notes. */
  function NotesTabPrompt(notesText: string, question: string): string
  {
    BuildNotesPromptApp2(Selection.PickRelevantChunks(notesText, question, 3), question)
  }

  /**
   * Every chunk the notes tab picks is a chunk of the notes and stands unchanged in the prompt
   * it sends, after the head and after the earlier picked chunks and their separators.
   */
  lemma NotesTabPromptHoldsPicked(notesText: string, question: string, i: nat)
    requires i < |Selection.PickRelevantChunks(notesText, question, 3)|
    ensures var picked := Selection.PickRelevantChunks(notesText, question, 3);
      && picked[i] in Selection.NoteChunks(notesText)
      && Prompt.OccursAt(NotesTabPrompt(notesText, question), picked[i],
                         |HeadApp2| + Prompt.PartOffset(picked, Prompt.Separator, i))
  {
    var picked := Selection.PickRelevantChunks(notesText, question, 3);
    assert multiset(picked) <= multiset(Selection.NoteChunks(notesText)) by {
      NotesTabPicksThree(notesText, question);
    }
    PickedChunkInPrompt(picked, Selection.NoteChunks(notesText), question, i);
  }

  /** A chunk drawn from `chunks` is one of them and stands unchanged in the prompt built on it. */
  lemma PickedChunkInPrompt(picked: seq<string>, chunks: seq<string>, question: string, i: nat)
    requires multiset(picked) <= multiset(chunks) && i < |picked|
    ensures picked[i] in chunks
    ensures Prompt.OccursAt(BuildNotesPromptApp2(picked, question), picked[i],
                            |HeadApp2| + Prompt.PartOffset(picked, Prompt.Separator, i))
  {
    assert picked[i] in multiset(picked);
    PromptApp2KeepsChunk(picked, question, i);
  }

  /**
   * The notes tab grounds its prompt on `min(3, #chunks)` chunks of the notes, in non-increasing
   * score order, none scoring below a chunk left out.
   */
  lemma NotesTabPicksThree(notesText: string, question: string)
    ensures var picked, chunks, key := Selection.PickRelevantChunks(notesText, question, 3), Selection.NoteChunks(notesText), Selection.ScoreFor(question);
      && |picked| == Min(3, |chunks|)
      && multiset(picked) <= multiset(chunks)
      && Selection.SortedDesc(picked, key)
      && (forall x, y :: x in picked && y in multiset(chunks) - multiset(picked) ==> key(x) >= key(y))
  {
    Selection.PickRelevantChunksSpec(notesText, question, 3);
  }
}
