/**
 * The quiz parser: `parse_mcq_text(mcq_text)` splits the model's text at every match of
 * `\nQ\d+\.`, and turns each non-blank piece into a `{question, options, answer}` record.
 * The first line of a piece is the question; later lines that start with `A)`..`D)` are
 * options; an `Answer:` line picks `options[{A:0, B:1, C:2, D:3}.get(letter, 0)]` among the
 * options met so far, and raises `IndexError` when there are not that many.
 */
module McqParser {
  import opened Wrappers
  import opened PyStr

  /** One parsed record; `answer` is `None` when the piece has no `Answer:` line. */
  datatype Mcq = Mcq(question: string, options: seq<string>, answer: Option<string>)

  /** The `IndexError` raised by the answer lookup: the letter's index and the options collected. */
  datatype ParseError = AnswerIndexOutOfRange(index: nat, optionCount: nat)

  datatype Result<T> = Ok(value: T) | Err(error: ParseError)

  /** One character of `\d` (ASCII digits). */
  predicate IsDigit(c: char)
  {
    '0' <= c <= '9'
  }

  /** Length of the run of digits at the start of `s`. */
  function DigitRun(s: string): (k: nat)
    ensures k <= |s|
    ensures forall i :: 0 <= i < k ==> IsDigit(s[i])
    ensures k < |s| ==> !IsDigit(s[k])
  {
    if s != [] && IsDigit(s[0]) then 1 + DigitRun(s[1..]) else 0
  }

  /**
   * Length of the match of `\nQ\d+\.` at the start of `s`, 0 when there is none. `\d+` is
   * greedy and the character after the longest digit run must be the dot: backtracking to a
   * shorter run would leave a digit, not a dot, next.
   */
  function MarkerAt(s: string): (n: nat)
    ensures n == 0 || (4 <= n <= |s| && s[0] == '\n' && s[1] == 'Q' && s[n - 1] == '.')
    ensures forall i :: 2 <= i < n - 1 ==> IsDigit(s[i])
  {
    if 2 <= |s| && s[0] == '\n' && s[1] == 'Q' then
      var d := DigitRun(s[2..]);
      if 0 < d && 2 + d < |s| && s[2 + d] == '.' then
        assert forall i :: 2 <= i < 2 + d ==> s[i] == s[2..][i - 2];
        3 + d
      else 0
    else 0
  }

  /** Every match of `\nQ\d+\.` at the start of `s` is found, with its full length. */
  lemma MarkerAtFindsMarker(s: string, k: nat)
    requires 3 <= k < |s| && s[0] == '\n' && s[1] == 'Q' && s[k] == '.'
    requires forall i :: 2 <= i < k ==> IsDigit(s[i])
    ensures MarkerAt(s) == k + 1
  {
    var t := s[2..];
    assert t[k - 2] == '.';
    assert DigitRun(t) == k - 2;
  }

  /** `re.split(r"\nQ\d+\.", mcq_text)`. */
  function SplitOnMarkers(text: string): seq<string>
  {
    SplitWhere(text, MarkerAt)
  }

  /** `re.match(r"[ABCD]\)", line)`. */
  predicate IsOptionLine(line: string)
  {
    2 <= |line| && 'A' <= line[0] <= 'D' && line[1] == ')'
  }

  /** `line[3:].strip()`. */
  function OptionText(line: string): (text: string)
    ensures |line| <= 3 ==> text == []
    ensures |text| <= |line| - 3 || text == []
    ensures text == [] || (!IsSpace(text[0]) && !IsSpace(text[|text| - 1]))
  {
    StripEndsSolid(DropFront(line, 3));
    Strip(DropFront(line, 3))
  }

  const AnswerTag := "Answer:"

  /** `line.startswith("Answer:")`. */
  predicate IsAnswerLine(line: string)
  {
    StartsWith(line, AnswerTag)
  }

  function AnswerTagAt(s: string): nat
  {
    if StartsWith(s, AnswerTag) then |AnswerTag| else 0
  }

  /** `line.split("Answer:")[1].strip()`: what stands between the first and any second tag. */
  function AnswerLetter(line: string): (letter: string)
    requires IsAnswerLine(line)
    ensures letter == [] || (!IsSpace(letter[0]) && !IsSpace(letter[|letter| - 1]))
  {
    var pieces := SplitWhere(line, AnswerTagAt);
    assert pieces == [[]] + SplitWhere(line[|AnswerTag|..], AnswerTagAt);
    StripEndsSolid(pieces[1]);
    Strip(pieces[1])
  }

  /** `{"A": 0, "B": 1, "C": 2, "D": 3}.get(letter, 0)`. */
  function LetterIndex(letter: string): (index: nat)
    ensures index < 4
    ensures 0 < index <==> letter in {"B", "C", "D"}
    ensures 0 < index ==> letter == ["ABCD"[index]]
  {
    if letter == "B" then 1
    else if letter == "C" then 2
    else if letter == "D" then 3
    else 0
  }

  /** The inner loop's variables: the options collected so far and the answer chosen so far. */
  datatype Scan = Scan(options: seq<string>, answer: Option<string>)

  /** One turn of the inner loop on a raw line; an error stops the loop for good. */
  function LineStep(st: Result<Scan>, rawLine: string): Result<Scan>
  {
    match st
    case Err(_) => st
    case Ok(sc) =>
      var line := Strip(rawLine);
      if IsOptionLine(line) then Ok(Scan(sc.options + [OptionText(line)], sc.answer))
      else if IsAnswerLine(line) then
        var idx := LetterIndex(AnswerLetter(line));
        if idx < |sc.options| then Ok(Scan(sc.options, Some(sc.options[idx])))
        else Err(AnswerIndexOutOfRange(idx, |sc.options|))
      else st
  }

  /** The inner loop run over `lines`, from `options, answer = [], None`. */
  function ScanLines(lines: seq<string>): Result<Scan>
  {
    if lines == [] then Ok(Scan([], None))
    else LineStep(ScanLines(lines[..|lines| - 1]), lines[|lines| - 1])
  }

  /** The record for one stripped, non-blank piece. */
  function ParseBlock(block: string): Result<Mcq>
  {
    var lines := SplitLines(block);
    match ScanLines(lines[1..])
    case Ok(sc) => Ok(Mcq(Strip(lines[0]), sc.options, sc.answer))
    case Err(e) => Err(e)
  }

  /** One turn of the outer loop: blank pieces are skipped, the others parsed in order. */
  function BlockStep(st: Result<seq<Mcq>>, piece: string): Result<seq<Mcq>>
  {
    match st
    case Err(_) => st
    case Ok(qs) =>
      var block := Strip(piece);
      if block == [] then st
      else
        match ParseBlock(block)
        case Ok(q) => Ok(qs + [q])
        case Err(e) => Err(e)
  }

  /** The outer loop run over the pieces. */
  function ParseBlocks(pieces: seq<string>): Result<seq<Mcq>>
  {
    if pieces == [] then Ok([])
    else BlockStep(ParseBlocks(pieces[..|pieces| - 1]), pieces[|pieces| - 1])
  }

  /** What `parse_mcq_text(mcq_text)` returns, or the `IndexError` it raises. */
  function McqsOf(mcqText: string): Result<seq<Mcq>>
  {
    ParseBlocks(SplitOnMarkers(mcqText))
  }

  lemma {:induction false} ScanLinesErrorSticks(lines: seq<string>, k: nat, e: ParseError)
    requires k <= |lines| && ScanLines(lines[..k]) == Err(e)
    ensures ScanLines(lines) == Err(e)
    decreases |lines|
  {
    if k < |lines| {
      var init := lines[..|lines| - 1];
      assert init[..k] == lines[..k];
      ScanLinesErrorSticks(init, k, e);
    } else {
      assert lines[..k] == lines;
    }
  }

  lemma {:induction false} ParseBlocksErrorSticks(pieces: seq<string>, k: nat, e: ParseError)
    requires k <= |pieces| && ParseBlocks(pieces[..k]) == Err(e)
    ensures ParseBlocks(pieces) == Err(e)
    decreases |pieces|
  {
    if k < |pieces| {
      var init := pieces[..|pieces| - 1];
      assert init[..k] == pieces[..k];
      ParseBlocksErrorSticks(init, k, e);
    } else {
      assert pieces[..k] == pieces;
    }
  }

  /**
   * The inner loop of `parse_mcq_text` over one stripped piece: the first line is the
   * question, then each later line is stripped and read as an option or an answer.
   */
  method ParseBlockLines(block: string) returns (r: Result<Mcq>)
    ensures r == ParseBlock(block)
  {
    var lines := SplitLines(block);
    var questionText := Strip(lines[0]);
    var options: seq<string> := [];
    var answer: Option<string> := None;
    for j := 1 to |lines|
      invariant ScanLines(lines[1..j]) == Ok(Scan(options, answer))
    {
      assert lines[1..j + 1][..j - 1] == lines[1..j];
      var line := Strip(lines[j]);
      if IsOptionLine(line) {
        options := options + [OptionText(line)];
      } else if IsAnswerLine(line) {
        var idx := LetterIndex(AnswerLetter(line));
        if idx >= |options| {
          var e := AnswerIndexOutOfRange(idx, |options|);
          assert ScanLines(lines[1..j + 1]) == Err(e);
          assert lines[1..][..j] == lines[1..j + 1];
          ScanLinesErrorSticks(lines[1..], j, e);
          return Err(e);
        }
        answer := Some(options[idx]);
      }
    }
    assert lines[1..|lines|] == lines[1..];
    r := Ok(Mcq(questionText, options, answer));
  }

  /** `parse_mcq_text` as the source runs it: a loop over the pieces, stopping at the first error. */
  method ParseMcqText(mcqText: string) returns (r: Result<seq<Mcq>>)
    ensures r == McqsOf(mcqText)
  {
    var questions: seq<Mcq> := [];
    var blocks := SplitOnMarkers(mcqText);
    for i := 0 to |blocks|
      invariant ParseBlocks(blocks[..i]) == Ok(questions)
    {
      assert blocks[..i + 1][..i] == blocks[..i];
      var block := Strip(blocks[i]);
      if block == [] {
        continue;
      }
      var parsed := ParseBlockLines(block);
      match parsed
      case Err(e) =>
        ParseBlocksErrorSticks(blocks, i + 1, e);
        return Err(e);
      case Ok(q) =>
        questions := questions + [q];
    }
    assert blocks[..|blocks|] == blocks;
    r := Ok(questions);
  }

  /** The texts of the option lines among `lines` (each stripped first), in order. */
  function OptionTexts(lines: seq<string>): seq<string>
  {
    if lines == [] then []
    else
      var line := Strip(lines[|lines| - 1]);
      OptionTexts(lines[..|lines| - 1]) + (if IsOptionLine(line) then [OptionText(line)] else [])
  }

  /** Line `j` of `lines`, once stripped, is an `Answer:` line. */
  ghost predicate AnswerLineAt(lines: seq<string>, j: int)
  {
    0 <= j < |lines| && IsAnswerLine(Strip(lines[j]))
  }

  /** Line `j` is an `Answer:` line whose letter points past the options listed above it. */
  ghost predicate BadAnswerAt(lines: seq<string>, j: int)
  {
    AnswerLineAt(lines, j) && LetterIndex(AnswerLetter(Strip(lines[j]))) >= |OptionTexts(lines[..j])|
  }

  /** Line `j` is the last `Answer:` line. */
  ghost predicate LastAnswerAt(lines: seq<string>, j: int)
  {
    AnswerLineAt(lines, j) && forall k :: j < k < |lines| ==> !AnswerLineAt(lines, k)
  }

  lemma AnswerLineIsNoOption(line: string)
    requires IsAnswerLine(line)
    ensures !IsOptionLine(line)
  {
    assert line[1] == line[..|AnswerTag|][1] == 'n';
  }

  /** The inner loop collects exactly the option lines' texts. */
  lemma {:induction false} ScanLinesOptions(lines: seq<string>)
    requires ScanLines(lines).Ok?
    ensures ScanLines(lines).value.options == OptionTexts(lines)
    decreases |lines|
  {
    if lines != [] {
      var n := |lines| - 1;
      ScanLinesOptions(lines[..n]);
      var line := Strip(lines[n]);
      if IsAnswerLine(line) {
        AnswerLineIsNoOption(line);
      }
    }
  }

  /** A bad `Answer:` line among the first `n` lines is one among all lines, and back. */
  lemma BadAnswerInPrefix(lines: seq<string>, n: nat, j: int)
    requires n <= |lines| && 0 <= j < n
    ensures BadAnswerAt(lines, j) <==> BadAnswerAt(lines[..n], j)
  {
    assert lines[j] == lines[..n][j] && lines[..j] == lines[..n][..j];
  }

  /** From a successful scan, one more line fails exactly when it is a bad `Answer:` line. */
  lemma LastLineFails(lines: seq<string>)
    requires lines != [] && ScanLines(lines[..|lines| - 1]).Ok?
    ensures ScanLines(lines).Err? <==> BadAnswerAt(lines, |lines| - 1)
  {
    var n := |lines| - 1;
    ScanLinesOptions(lines[..n]);
    assert lines[..n][..n] == lines[..n];
    var line := Strip(lines[n]);
    if IsAnswerLine(line) {
      AnswerLineIsNoOption(line);
    }
  }

  /** The inner loop fails exactly when some `Answer:` line points past the options above it. */
  lemma {:induction false} ScanLinesFailsIff(lines: seq<string>)
    ensures ScanLines(lines).Err? <==> exists j :: BadAnswerAt(lines, j)
    decreases |lines|
  {
    if lines != [] {
      var n := |lines| - 1;
      var init := lines[..n];
      ScanLinesFailsIff(init);
      if ScanLines(init).Err? {
        var j :| BadAnswerAt(init, j);
        BadAnswerInPrefix(lines, n, j);
        assert BadAnswerAt(lines, j);
      } else {
        LastLineFails(lines);
        if j :| BadAnswerAt(lines, j) {
          if j < n {
            BadAnswerInPrefix(lines, n, j);
            assert false;
          }
        }
      }
    }
  }

  /** `a` is the option that the `Answer:` line at `j` names among the options listed above it. */
  ghost predicate NamesOption(lines: seq<string>, j: int, a: string)
  {
    AnswerLineAt(lines, j)
      && var idx := LetterIndex(AnswerLetter(Strip(lines[j])));
      idx < |OptionTexts(lines[..j])| && a == OptionTexts(lines[..j])[idx]
  }

  lemma NamesOptionInPrefix(lines: seq<string>, n: nat, j: int, a: string)
    requires n <= |lines| && 0 <= j < n
    ensures NamesOption(lines, j, a) <==> NamesOption(lines[..n], j, a)
    ensures AnswerLineAt(lines, j) <==> AnswerLineAt(lines[..n], j)
  {
    assert lines[j] == lines[..n][j] && lines[..j] == lines[..n][..j];
  }

  /**
   * Which answer the inner loop keeps: none exactly when there is no `Answer:` line; otherwise
   * the option that the LAST `Answer:` line names among the options listed above it.
   */
  lemma ScanLinesAnswer(lines: seq<string>)
    requires ScanLines(lines).Ok?
    ensures var sc := ScanLines(lines).value;
      && (sc.answer == None <==> forall j :: !AnswerLineAt(lines, j))
      && (sc.answer.Some? ==> exists j :: LastAnswerAt(lines, j) && NamesOption(lines, j, sc.answer.value))
  {
    ScanLinesNoAnswer(lines);
    ScanLinesLastAnswer(lines);
  }

  lemma {:induction false} ScanLinesNoAnswer(lines: seq<string>)
    requires ScanLines(lines).Ok?
    ensures ScanLines(lines).value.answer == None <==> forall j :: !AnswerLineAt(lines, j)
    decreases |lines|
  {
    if lines != [] {
      var n := |lines| - 1;
      var init := lines[..n];
      assert ScanLines(init).Ok?;
      ScanLinesNoAnswer(init);
      forall j | 0 <= j < n ensures AnswerLineAt(lines, j) <==> AnswerLineAt(init, j) {
        NamesOptionInPrefix(lines, n, j, []);
      }
      if IsAnswerLine(Strip(lines[n])) {
        assert AnswerLineAt(lines, n);
      }
    }
  }

  lemma {:induction false} ScanLinesLastAnswer(lines: seq<string>)
    requires ScanLines(lines).Ok?
    ensures var sc := ScanLines(lines).value;
      sc.answer.Some? ==> exists j :: LastAnswerAt(lines, j) && NamesOption(lines, j, sc.answer.value)
    decreases |lines|
  {
    if lines != [] {
      var n := |lines| - 1;
      var init := lines[..n];
      assert ScanLines(init).Ok?;
      if IsAnswerLine(Strip(lines[n])) {
        FinalAnswerLine(lines);
      } else {
        var sc := ScanLines(lines).value;
        assert sc.answer == ScanLines(init).value.answer;
        if sc.answer.Some? {
          ScanLinesLastAnswer(init);
          var j :| LastAnswerAt(init, j) && NamesOption(init, j, sc.answer.value);
          EarlierAnswerLine(lines, j, sc.answer.value);
        }
      }
    }
  }

  /** When the last line is an `Answer:` line, it names the answer that the scan keeps. */
  lemma FinalAnswerLine(lines: seq<string>)
    requires lines != [] && ScanLines(lines).Ok?
    requires IsAnswerLine(Strip(lines[|lines| - 1]))
    ensures ScanLines(lines).value.answer.Some?
    ensures LastAnswerAt(lines, |lines| - 1) && NamesOption(lines, |lines| - 1, ScanLines(lines).value.answer.value)
  {
    var n := |lines| - 1;
    var init := lines[..n];
    var line := Strip(lines[n]);
    assert ScanLines(init).Ok?;
    ScanLinesOptions(init);
    AnswerLineIsNoOption(line);
  }

  /** An answer line of the first `|lines| - 1` lines stays the last one when a non-answer line follows. */
  lemma EarlierAnswerLine(lines: seq<string>, j: int, a: string)
    requires lines != [] && !IsAnswerLine(Strip(lines[|lines| - 1]))
    requires LastAnswerAt(lines[..|lines| - 1], j) && NamesOption(lines[..|lines| - 1], j, a)
    ensures LastAnswerAt(lines, j) && NamesOption(lines, j, a)
  {
    var n := |lines| - 1;
    NamesOptionInPrefix(lines, n, j, a);
    forall k | j < k < n ensures !AnswerLineAt(lines, k) {
      NamesOptionInPrefix(lines, n, k, []);
    }
  }

  /** The answer the inner loop keeps is always one of the options it collected. */
  lemma {:induction false} ScanLinesAnswerIsOption(lines: seq<string>)
    requires ScanLines(lines).Ok?
    ensures var sc := ScanLines(lines).value;
      sc.answer.Some? ==> sc.answer.value in sc.options
    decreases |lines|
  {
    if lines != [] {
      ScanLinesAnswerIsOption(lines[..|lines| - 1]);
    }
  }

  /**
   * One piece's record: the question is the stripped first line, the options are the option
   * lines' texts in order, the answer is as `ScanLinesAnswer` says; and parsing fails exactly
   * when an `Answer:` line points past the options above it.
   */
  lemma ParseBlockFacts(block: string)
    ensures var lines := SplitLines(block);
      && (ParseBlock(block).Err? <==> exists j :: BadAnswerAt(lines[1..], j))
      && (ParseBlock(block).Ok? ==> var q := ParseBlock(block).value;
            && q.question == Strip(lines[0])
            && q.options == OptionTexts(lines[1..])
            && (q.answer == None <==> forall j :: !AnswerLineAt(lines[1..], j))
            && (q.answer.Some? ==> exists j :: LastAnswerAt(lines[1..], j) && NamesOption(lines[1..], j, q.answer.value))
            && (q.answer.Some? ==> q.answer.value in q.options))
  {
    var lines := SplitLines(block);
    ScanLinesFailsIff(lines[1..]);
    if ScanLines(lines[1..]).Ok? {
      ScanLinesOptions(lines[1..]);
      ScanLinesAnswer(lines[1..]);
      ScanLinesAnswerIsOption(lines[1..]);
    }
  }

  /** A piece that does not start with whitespace yields a non-empty question. */
  lemma QuestionOfBlockNotEmpty(block: string)
    requires block != [] && !IsSpace(block[0])
    ensures ParseBlock(block).Ok? ==> ParseBlock(block).value.question != []
  {
    var lines := SplitLines(block);
    SplitFirstPieceKeepsPrefix(block, NewlineAt, 1);
    assert lines[0][..1] == block[..1];
    StripKeepsPrefix(lines[0], 1);
  }

  /** The stripped non-blank pieces, in order: the pieces the outer loop parses. */
  function NonBlankBlocks(pieces: seq<string>): seq<string>
  {
    if pieces == [] then []
    else
      var block := Strip(pieces[|pieces| - 1]);
      NonBlankBlocks(pieces[..|pieces| - 1]) + (if block == [] then [] else [block])
  }

  /**
   * The outer loop returns one record per non-blank piece, in order, each the piece's own
   * record; it fails exactly when some non-blank piece fails.
   */
  lemma {:induction false} ParseBlocksElementwise(pieces: seq<string>)
    ensures var bs := NonBlankBlocks(pieces);
      ParseBlocks(pieces).Err? <==> exists i :: 0 <= i < |bs| && ParseBlock(bs[i]).Err?
    ensures var bs := NonBlankBlocks(pieces);
      ParseBlocks(pieces).Ok? ==> var qs := ParseBlocks(pieces).value;
        |qs| == |bs| && forall i :: 0 <= i < |qs| ==> ParseBlock(bs[i]) == Ok(qs[i])
    decreases |pieces|
  {
    if pieces != [] {
      var n := |pieces| - 1;
      var init := pieces[..n];
      ParseBlocksElementwise(init);
      var bs0, bs := NonBlankBlocks(init), NonBlankBlocks(pieces);
      assert pieces[..n] == init;
      assert forall i :: 0 <= i < |bs0| ==> bs[i] == bs0[i];
      if ParseBlocks(init).Err? {
        var i :| 0 <= i < |bs0| && ParseBlock(bs0[i]).Err?;
        assert ParseBlock(bs[i]).Err?;
      } else {
        var qs0 := ParseBlocks(init).value;
        var block := Strip(pieces[n]);
        if block != [] {
          assert bs == bs0 + [block];
          if ParseBlock(block).Err? {
            assert ParseBlock(bs[|bs0|]).Err?;
          } else {
            var q := ParseBlock(block).value;
            assert ParseBlocks(pieces) == Ok(qs0 + [q]);
          }
        } else {
          assert bs == bs0;
        }
      }
    }
  }

  /** Every non-blank piece starts with a non-whitespace character. */
  lemma NonBlankBlocksStartSolid(pieces: seq<string>)
    ensures forall i :: 0 <= i < |NonBlankBlocks(pieces)| ==> NonBlankBlocks(pieces)[i] != [] && !IsSpace(NonBlankBlocks(pieces)[i][0])
  {
    if pieces != [] {
      var n := |pieces| - 1;
      NonBlankBlocksStartSolid(pieces[..n]);
      var b := Strip(pieces[n]);
      if b != [] {
        StripIsTrimmedSlice(pieces[n]);
        StripLeftDropsLeadingSpace(pieces[n]);
        StripRightDropsTrailingSpace(StripLeft(pieces[n]));
      }
    }
  }

  /**
   * Every record `parse_mcq_text` returns has a non-empty question, and its answer, when it
   * has one, is among its options.
   */
  lemma McqRecordsWellFormed(mcqText: string)
    requires McqsOf(mcqText).Ok?
    ensures forall q :: q in McqsOf(mcqText).value ==> q.question != [] && (q.answer.Some? ==> q.answer.value in q.options)
  {
    var pieces := SplitOnMarkers(mcqText);
    var qs, bs := McqsOf(mcqText).value, NonBlankBlocks(pieces);
    ParseBlocksElementwise(pieces);
    NonBlankBlocksStartSolid(pieces);
    forall q | q in qs ensures q.question != [] && (q.answer.Some? ==> q.answer.value in q.options) {
      var i :| 0 <= i < |qs| && qs[i] == q;
      ParseBlockFacts(bs[i]);
      QuestionOfBlockNotEmpty(bs[i]);
    }
  }

  lemma {:induction false} NonBlankBlocksEmptyIff(pieces: seq<string>)
    ensures NonBlankBlocks(pieces) == [] <==> forall i :: 0 <= i < |pieces| ==> IsBlank(pieces[i])
    decreases |pieces|
  {
    if pieces != [] {
      var n := |pieces| - 1;
      NonBlankBlocksEmptyIff(pieces[..n]);
      StripEmptyIffBlank(pieces[n]);
      assert forall i :: 0 <= i < n ==> pieces[..n][i] == pieces[i];
    }
  }

  /** `parse_mcq_text` returns `[]` exactly when every piece between markers is blank. */
  lemma McqsEmptyIffAllPiecesBlank(mcqText: string)
    ensures var pieces := SplitOnMarkers(mcqText);
      McqsOf(mcqText) == Ok([]) <==> forall i :: 0 <= i < |pieces| ==> IsBlank(pieces[i])
  {
    var pieces := SplitOnMarkers(mcqText);
    ParseBlocksElementwise(pieces);
    NonBlankBlocksEmptyIff(pieces);
  }

  /** Whitespace holds no marker, since a marker starts with `Q` after its newline. */
  lemma NoMarkerInBlank(s: string)
    requires IsBlank(s)
    ensures forall i :: 0 <= i < |s| ==> MarkerAt(s[i..]) == 0
  {
    forall i | 0 <= i < |s| ensures MarkerAt(s[i..]) == 0 {
      if i + 1 < |s| {
        assert s[i..][1] == s[i + 1];
      }
    }
  }

  /** Empty or whitespace-only text parses to no records. */
  lemma BlankTextHasNoMcqs(mcqText: string)
    requires IsBlank(mcqText)
    ensures McqsOf(mcqText) == Ok([])
  {
    NoMarkerInBlank(mcqText);
    SplitWithoutSeparator(mcqText, MarkerAt);
    McqsEmptyIffAllPiecesBlank(mcqText);
  }

  /** Text that is not blank may still parse to no records: a lone marker is all separator. */
  lemma LoneMarkerHasNoMcqs()
    ensures McqsOf("\nQ1.") == Ok([])
  {
    var text := "\nQ1.";
    assert DigitRun(text[2..]) == 1 by {
      assert text[2..] == "1.";
      assert "1."[1..] == ".";
    }
    assert MarkerAt(text) == 4;
    assert text[4..] == [];
    var pieces := SplitOnMarkers(text);
    assert pieces == [[], []];
    assert Strip([]) == [];
    assert pieces[..1][..0] == [] && pieces[..1] == [[]];
    assert ParseBlocks(pieces[..1]) == Ok([]);
    assert !IsBlank(text) by {
      assert !IsSpace(text[1]);
    }
  }

  /**
   * Text without any marker that is not blank is read as a single question: the result is the
   * one record of the whole stripped text, or that record's error.
   */
  lemma TextWithoutMarkersIsOneQuestion(mcqText: string)
    requires forall i :: 0 <= i < |mcqText| ==> MarkerAt(mcqText[i..]) == 0
    requires !IsBlank(mcqText)
    ensures McqsOf(mcqText) == match ParseBlock(Strip(mcqText))
                               case Ok(q) => Ok([q])
                               case Err(e) => Err(e)
  {
    SplitWithoutSeparator(mcqText, MarkerAt);
    StripEmptyIffBlank(mcqText);
    assert [mcqText][..0] == [];
    assert ParseBlocks([mcqText]) == BlockStep(Ok([]), mcqText);
    if ParseBlock(Strip(mcqText)).Ok? {
      var q := ParseBlock(Strip(mcqText)).value;
      assert [] + [q] == [q];
    }
  }

  /**
   * The marker split only cuts at a newline, so the text before the first newline stays with
   * the first question: a reply that opens with `Q1. What ...` keeps `Q1.` in its first
   * question.
   */
  lemma FirstQuestionKeepsLeadingText(mcqText: string, p: string)
    requires 0 < |p| && StartsWith(mcqText, p)
    requires forall i :: 0 <= i < |p| ==> !IsSpace(p[i])
    ensures McqsOf(mcqText).Ok? ==> McqsOf(mcqText).value != [] && StartsWith(McqsOf(mcqText).value[0].question, p)
  {
    var pieces := SplitOnMarkers(mcqText);
    FirstPieceKeepsLeadingText(mcqText, p);
    NonBlankBlocksFirst(pieces);
    ParseBlocksElementwise(pieces);
    QuestionKeepsLeadingText(NonBlankBlocks(pieces)[0], p);
  }

  /** The first piece, once stripped, still starts with the leading text. */
  lemma FirstPieceKeepsLeadingText(mcqText: string, p: string)
    requires 0 < |p| && StartsWith(mcqText, p)
    requires forall i :: 0 <= i < |p| ==> !IsSpace(p[i])
    ensures var first := SplitOnMarkers(mcqText)[0];
      Strip(first) != [] && StartsWith(Strip(first), p)
  {
    var k := |p|;
    NoMarkerInSolidPrefix(mcqText, p);
    SplitFirstPieceKeepsPrefix(mcqText, MarkerAt, k);
    var first := SplitOnMarkers(mcqText)[0];
    assert first[..k] == p;
    assert first[0] == p[0] && first[k - 1] == p[k - 1];
    assert !IsSpace(p[0]) && !IsSpace(p[k - 1]);
    StripKeepsPrefix(first, k);
  }

  /** No marker starts inside leading text free of whitespace: a marker opens with a newline. */
  lemma NoMarkerInSolidPrefix(mcqText: string, p: string)
    requires StartsWith(mcqText, p)
    requires forall i :: 0 <= i < |p| ==> !IsSpace(p[i])
    ensures forall i :: 0 <= i < |p| ==> MarkerAt(mcqText[i..]) == 0
  {
    forall i | 0 <= i < |p| ensures MarkerAt(mcqText[i..]) == 0 {
      assert mcqText[i..][0] == p[i];
      assert !IsSpace(mcqText[i..][0]);
    }
  }

  /** A block that starts with text free of whitespace keeps that text in its question. */
  lemma QuestionKeepsLeadingText(block: string, p: string)
    requires 0 < |p| && StartsWith(block, p)
    requires forall i :: 0 <= i < |p| ==> !IsSpace(p[i])
    ensures ParseBlock(block).Ok? ==> StartsWith(ParseBlock(block).value.question, p)
  {
    var k := |p|;
    var lines := SplitLines(block);
    forall i | 0 <= i < k ensures NewlineAt(block[i..]) == 0 {
      assert block[i..][0] == p[i];
    }
    SplitFirstPieceKeepsPrefix(block, NewlineAt, k);
    assert lines[0][..k] == p;
    StripKeepsPrefix(lines[0], k);
  }

  /** When the first piece is not blank, it is the first block parsed. */
  lemma {:induction false} NonBlankBlocksFirst(pieces: seq<string>)
    requires pieces != [] && Strip(pieces[0]) != []
    ensures NonBlankBlocks(pieces) != [] && NonBlankBlocks(pieces)[0] == Strip(pieces[0])
    decreases |pieces|
  {
    var n := |pieces| - 1;
    if n > 0 {
      NonBlankBlocksFirst(pieces[..n]);
    } else {
      assert pieces[..n] == [];
    }
  }
}
