/**
 * Two replies worked through the parser: a well-formed question, and an `Answer:` line that
 * comes before the options, on which `parse_mcq_text` raises `IndexError`.
 */
module McqExamples {
  import opened Wrappers
  import opened PyStr
  import opened McqParser

  const WellFormedLines: seq<string> := ["Q1. Pick one", "A) x", "B) y", "Answer: B"]

  /** A string that starts and ends with non-whitespace is its own `strip()`. */
  lemma StrippedWhenSolidEnds(s: string)
    requires s != [] && !IsSpace(s[0]) && !IsSpace(s[|s| - 1])
    ensures Strip(s) == s
  {
  }

  lemma LetterOfB()
    ensures AnswerLetter("Answer: B") == "B"
  {
    var l := "Answer: B";
    assert l[..7] == AnswerTag;
    assert l[7..] == " B";
    assert AnswerTagAt(" B") == 0 && AnswerTagAt(" B"[1..]) == 0;
    SplitWithoutSeparator(" B", AnswerTagAt);
    assert StripLeft(" B") == "B";
  }

  lemma OptionLines()
    ensures IsOptionLine("A) x") && OptionText("A) x") == "x"
    ensures IsOptionLine("B) y") && OptionText("B) y") == "y"
  {
    assert DropFront("A) x", 3) == "x";
    assert DropFront("B) y", 3) == "y";
    StrippedWhenSolidEnds("x");
    StrippedWhenSolidEnds("y");
  }

  /** The option lines and the answer line of the well-formed reply, scanned. */
  lemma WellFormedScan()
    ensures ScanLines(WellFormedLines[1..]) == Ok(Scan(["x", "y"], Some("y")))
  {
    var ls := WellFormedLines[1..];
    assert ls == ["A) x", "B) y", "Answer: B"];
    StrippedWhenSolidEnds("A) x");
    StrippedWhenSolidEnds("B) y");
    StrippedWhenSolidEnds("Answer: B");
    OptionLines();
    LetterOfB();
    var one: seq<string> := ["A) x"];
    var two: seq<string> := ["A) x", "B) y"];
    assert one[..0] == [] && two[..1] == one && ls[..2] == two;
    assert ScanLines(one) == LineStep(Ok(Scan([], None)), "A) x");
    var xs: seq<string> := ["x"];
    assert [] + xs == xs && xs + ["y"] == ["x", "y"];
    assert ScanLines(one) == Ok(Scan(["x"], None));
    assert ScanLines(two) == LineStep(Ok(Scan(["x"], None)), "B) y");
    assert ScanLines(two) == Ok(Scan(["x", "y"], None));
    assert IsAnswerLine("Answer: B") && !IsOptionLine("Answer: B");
  }

  /**
   * A reply with no newline followed by `Q` and with solid ends is a single block: the result
   * is that block's record or its error.
   */
  lemma ReplyIsOneBlock(text: string)
    requires text != [] && !IsSpace(text[0]) && !IsSpace(text[|text| - 1])
    requires forall i :: 0 < i < |text| && text[i - 1] == '\n' ==> text[i] != 'Q'
    ensures McqsOf(text) == match ParseBlock(text)
                            case Ok(q) => Ok([q])
                            case Err(e) => Err(e)
  {
    NoMarkerWithoutNewlineQ(text);
    StrippedWhenSolidEnds(text);
    TextWithoutMarkersIsOneQuestion(text);
  }

  const WellFormedText := "Q1. Pick one\nA) x\nB) y\nAnswer: B"

  lemma WellFormedBlock()
    ensures ParseBlock(Join("\n", WellFormedLines)) == Ok(Mcq("Q1. Pick one", ["x", "y"], Some("y")))
  {
    SplitLinesOfJoin(WellFormedLines);
    WellFormedScan();
    StrippedWhenSolidEnds("Q1. Pick one");
  }

  lemma WellFormedTextFacts()
    ensures Join("\n", WellFormedLines) == WellFormedText
    ensures forall i :: 0 < i < |WellFormedText| && WellFormedText[i - 1] == '\n' ==> WellFormedText[i] != 'Q'
    ensures !IsSpace(WellFormedText[0]) && !IsSpace(WellFormedText[|WellFormedText| - 1])
  {
  }

  /**
   * A well-formed reply gives one record: the first line (with its `Q1.`) as the question, the
   * option texts without their `A) ` prefixes, and the option the answer letter names.
   */
  lemma WellFormedReply()
    ensures McqsOf(WellFormedText) == Ok([Mcq("Q1. Pick one", ["x", "y"], Some("y"))])
  {
    WellFormedBlock();
    WellFormedTextFacts();
    ReplyIsOneBlock(WellFormedText);
  }

  const CrashLines: seq<string> := ["Q1. Pick one", "Answer: B"]
  const CrashText := "Q1. Pick one\nAnswer: B"

  lemma CrashBlock()
    ensures ParseBlock(Join("\n", CrashLines)) == Err(AnswerIndexOutOfRange(1, 0))
  {
    SplitLinesOfJoin(CrashLines);
    LetterOfB();
    StrippedWhenSolidEnds("Answer: B");
    var rest := CrashLines[1..];
    assert rest == ["Answer: B"] && rest[..0] == [];
    assert ScanLines(rest) == Err(AnswerIndexOutOfRange(1, 0));
  }

  lemma CrashTextFacts()
    ensures Join("\n", CrashLines) == CrashText
    ensures forall i :: 0 < i < |CrashText| && CrashText[i - 1] == '\n' ==> CrashText[i] != 'Q'
    ensures !IsSpace(CrashText[0]) && !IsSpace(CrashText[|CrashText| - 1])
  {
  }

  /** An `Answer:` line before any option line: the letter `B` names index 1 of no options. */
  lemma AnswerBeforeOptionsFails()
    ensures McqsOf(CrashText) == Err(AnswerIndexOutOfRange(1, 0))
  {
    CrashBlock();
    CrashTextFacts();
    ReplyIsOneBlock(CrashText);
  }

  /** A marker needs a newline followed by `Q`; text without that pair holds none. */
  lemma NoMarkerWithoutNewlineQ(text: string)
    requires forall i :: 0 < i < |text| && text[i - 1] == '\n' ==> text[i] != 'Q'
    ensures forall i :: 0 <= i < |text| ==> MarkerAt(text[i..]) == 0
  {
    forall i | 0 <= i < |text| ensures MarkerAt(text[i..]) == 0 {
      if i + 1 < |text| {
        assert text[i..][0] == text[i] && text[i..][1] == text[i + 1];
      }
    }
  }
}
