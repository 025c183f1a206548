/**
 * The prompt assembler: `build_notes_prompt(context_chunks, question)` joins the chunks with a
 * visible separator and places them, and then the question, inside a fixed instruction.
 */
module Prompt {
  import opened PyStr

  /** The separator between two chunks: a blank line, `---`, a blank line. */
  const Separator := "\n\n---\n\n"

  /** The grounding instruction: answer from the context only, or say the notes do not say. */
  const Instruction :=
    "Use ONLY the context below to answer the user's question. If the answer is not in the context, say \"I don't know based on the notes.\""

  /** The role line that opens the prompt, after an empty first line. */
  const Opening := "\nYou are a helpful study assistant.\n"

  /** What announces the context. */
  const ContextCue := "\n\nContext:\n"

  /** Everything before the context. */
  const Head := Opening + Instruction + ContextCue

  /** What stands between the context and the question. */
  const QuestionCue := "\n\nQuestion: "

  /** What follows the question: the cue where the answer begins. */
  const AnswerCue := "\n\nAnswer:\n"

  /** The prompt around a context string and a question. */
  function Render(head: string, context: string, question: string): string
  {
    head + context + QuestionCue + question + AnswerCue
  }

  /** `build_notes_prompt(context_chunks, question)`. */
  function BuildNotesPrompt(contextChunks: seq<string>, question: string): (prompt: string)
    ensures OccursAt(prompt, Head, 0)
    ensures |AnswerCue| <= |prompt| && OccursAt(prompt, AnswerCue, |prompt| - |AnswerCue|)
  {
    RenderLayout(Head, Join(Separator, contextChunks), question);
    Render(Head, Join(Separator, contextChunks), question)
  }

  /** `sub` stands in `s` at offset `at`. */
  ghost predicate OccursAt(s: string, sub: string, at: int)
  {
    0 <= at && at + |sub| <= |s| && s[at..at + |sub|] == sub
  }

  /** Where part `i` starts in `sep.join(parts)`: after every earlier part and its separator. */
  function PartOffset(parts: seq<string>, sep: string, i: nat): nat
    requires i <= |parts|
  {
    if i == 0 then 0 else |parts[0]| + |sep| + PartOffset(parts[1..], sep, i - 1)
  }

  /** What stands in `y` at offset `at` stands in `x + y` at offset `|x| + at`. */
  lemma OccursAfter(x: string, y: string, sub: string, at: int)
    requires OccursAt(y, sub, at)
    ensures OccursAt(x + y, sub, |x| + at)
  {
    assert (x + y)[|x| + at..|x| + at + |sub|] == y[at..at + |sub|];
  }

  /** What stands in `x` stands at the same offset in `x + y`. */
  lemma OccursBefore(x: string, y: string, sub: string, at: int)
    requires OccursAt(x, sub, at)
    ensures OccursAt(x + y, sub, at)
  {
    assert (x + y)[at..at + |sub|] == x[at..at + |sub|];
  }

  /** Every part stands unchanged in the joined string, followed by a separator unless it is the last. */
  lemma {:induction false} JoinKeepsParts(parts: seq<string>, sep: string, i: nat)
    requires i < |parts|
    ensures OccursAt(Join(sep, parts), parts[i], PartOffset(parts, sep, i))
    ensures i + 1 < |parts| ==> OccursAt(Join(sep, parts), sep, PartOffset(parts, sep, i) + |parts[i]|)
    ensures i + 1 == |parts| ==> PartOffset(parts, sep, i) + |parts[i]| == |Join(sep, parts)|
  {
    if i == 0 {
      JoinKeepsFirstPart(parts, sep);
    } else {
      var head, rest := parts[0] + sep, Join(sep, parts[1..]);
      assert Join(sep, parts) == head + rest;
      JoinKeepsParts(parts[1..], sep, i - 1);
      var o := PartOffset(parts[1..], sep, i - 1);
      assert PartOffset(parts, sep, i) == |head| + o;
      assert parts[1..][i - 1] == parts[i];
      OccursAfter(head, rest, parts[i], o);
      if i + 1 < |parts| {
        OccursAfter(head, rest, sep, o + |parts[i]|);
      }
    }
  }

  /** The first part opens the joined string, followed by a separator unless it is the only part. */
  lemma JoinKeepsFirstPart(parts: seq<string>, sep: string)
    requires parts != []
    ensures OccursAt(Join(sep, parts), parts[0], 0)
    ensures 1 < |parts| ==> OccursAt(Join(sep, parts), sep, |parts[0]|)
    ensures 1 == |parts| ==> |parts[0]| == |Join(sep, parts)|
  {
    var j := Join(sep, parts);
    if |parts| == 1 {
      assert j[0..|parts[0]|] == parts[0];
    } else {
      var rest := Join(sep, parts[1..]);
      assert j == parts[0] + sep + rest;
      FiveParts(parts[0], sep, [], [], rest);
      assert sep + [] == sep;
    }
  }

  /** `sep.join(parts)` of `k` parts holds the parts' characters and `k - 1` separators. */
  lemma {:induction false} JoinLength(parts: seq<string>, sep: string)
    requires parts != []
    ensures |Join(sep, parts)| == TotalLength(parts) + (|parts| - 1) * |sep|
  {
    if |parts| > 1 {
      JoinLength(parts[1..], sep);
    }
  }

  function TotalLength(parts: seq<string>): nat
  {
    if parts == [] then 0 else |parts[0]| + TotalLength(parts[1..])
  }

  /**
   * The prompt opens with the role line and the instruction, holds the context right after
   * the head and the question verbatim right after `"\n\nQuestion: "`, and ends with
   * `"\n\nAnswer:\n"`.
   */
  lemma PromptLayout(contextChunks: seq<string>, question: string)
    ensures var p, ctx := BuildNotesPrompt(contextChunks, question), Join(Separator, contextChunks);
      && OccursAt(p, Opening + Instruction, 0)
      && OccursAt(p, ctx, |Head|)
      && OccursAt(p, QuestionCue + question, |Head| + |ctx|)
      && |AnswerCue| <= |p| && OccursAt(p, AnswerCue, |p| - |AnswerCue|)
  {
    var ctx := Join(Separator, contextChunks);
    HeadedLayout(Opening + Instruction, ContextCue, ctx, question);
    assert BuildNotesPrompt(contextChunks, question) == Render(Opening + Instruction + ContextCue, ctx, question);
  }

  /** `RenderLayout` for a head made of an opening and a cue: the opening starts the prompt. */
  lemma HeadedLayout(opening: string, cue: string, context: string, question: string)
    ensures var p, head := Render(opening + cue, context, question), opening + cue;
      && OccursAt(p, opening, 0)
      && OccursAt(p, context, |head|)
      && OccursAt(p, QuestionCue + question, |head| + |context|)
      && |AnswerCue| <= |p| && OccursAt(p, AnswerCue, |p| - |AnswerCue|)
  {
    var p, head := Render(opening + cue, context, question), opening + cue;
    RenderLayout(head, context, question);
    assert opening[0..|opening|] == opening;
    OccursBefore(opening, cue, opening, 0);
    OccursWithin(p, head, 0, opening, 0);
  }

  /** With no chunks the context is empty, and the instruction and the question are still there. */
  lemma PromptWithoutChunks(question: string)
    ensures BuildNotesPrompt([], question) == Head + QuestionCue + question + AnswerCue
  {
    assert Join(Separator, []) == [];
    assert Head + [] == Head;
  }

  /** The prompt around any head: the head first, then the context, the question after its cue, the answer cue last. */
  lemma RenderLayout(head: string, context: string, question: string)
    ensures var p := Render(head, context, question);
      && OccursAt(p, head, 0)
      && OccursAt(p, context, |head|)
      && OccursAt(p, QuestionCue + question, |head| + |context|)
      && |AnswerCue| <= |p| && OccursAt(p, AnswerCue, |p| - |AnswerCue|)
  {
    FiveParts(head, context, QuestionCue, question, AnswerCue);
  }

  /** Where each of five pieces stands in their concatenation. */
  lemma FiveParts(a: string, b: string, c: string, d: string, e: string)
    ensures var p := a + b + c + d + e;
      && OccursAt(p, a, 0)
      && OccursAt(p, b, |a|)
      && OccursAt(p, c + d, |a| + |b|)
      && OccursAt(p, e, |p| - |e|)
  {
    var p := a + b + c + d + e;
    assert p[..|a|] == a;
    assert p[|a|..|a| + |b|] == b;
    assert p[|a| + |b|..|a| + |b| + |c + d|] == c + d;
    assert p[|p| - |e|..] == e;
  }

  /** What stands inside a piece of `s` stands in `s`, offsets added. */
  lemma OccursWithin(s: string, mid: string, at: int, sub: string, at2: int)
    requires OccursAt(s, mid, at) && OccursAt(mid, sub, at2)
    ensures OccursAt(s, sub, at + at2)
  {
    forall k | 0 <= k < |sub| ensures s[at + at2 + k] == sub[k] {
      assert s[at..at + |mid|][at2 + k] == mid[at2 + k];
    }
    assert s[at + at2..at + at2 + |sub|] == sub;
  }

  lemma RenderKeepsContext(head: string, context: string, question: string, sub: string, at: int)
    requires OccursAt(context, sub, at)
    ensures OccursAt(Render(head, context, question), sub, |head| + at)
  {
    var tail := QuestionCue + question + AnswerCue;
    assert Render(head, context, question) == head + (context + tail);
    OccursBefore(context, tail, sub, at);
    OccursAfter(head, context + tail, sub, at);
  }

  /** Chunk `i` of the context stands unchanged in the prompt, after `i` earlier chunks and separators. */
  lemma PromptKeepsChunk(contextChunks: seq<string>, question: string, i: nat)
    requires i < |contextChunks|
    ensures OccursAt(BuildNotesPrompt(contextChunks, question), contextChunks[i], |Head| + PartOffset(contextChunks, Separator, i))
  {
    RenderKeepsPart(Head, contextChunks, question, i);
  }

  /** Part `i` of the joined context stands unchanged in a prompt rendered with any head. */
  lemma RenderKeepsPart(head: string, parts: seq<string>, question: string, i: nat)
    requires i < |parts|
    ensures OccursAt(Render(head, Join(Separator, parts), question), parts[i], |head| + PartOffset(parts, Separator, i))
  {
    JoinKeepsParts(parts, Separator, i);
    RenderKeepsContext(head, Join(Separator, parts), question, parts[i], PartOffset(parts, Separator, i));
  }
}
