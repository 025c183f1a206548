/**
 * The few Python `str` operations the study assistant relies on, written out over `seq<char>`:
 * `strip()`, `lower()`, `startswith`, `s[k:]`, `sep.join(parts)` and `split(sep)`.
 * `lower()` is modelled on ASCII letters only.
 */
module PyStr {

  function Min(a: int, b: int): int { if a <= b then a else b }
  function Max(a: int, b: int): int { if a <= b then b else a }

  /** Python's `str.isspace()` for one character: the characters `strip()` removes. */
  predicate IsSpace(c: char)
  {
    || c == ' '
    || ('\t' <= c <= '\r')
    || ('\U{1C}' <= c <= '\U{1F}')
    || c == '\U{85}' || c == '\U{A0}' || c == '\U{1680}'
    || ('\U{2000}' <= c <= '\U{200A}')
    || c == '\U{2028}' || c == '\U{2029}' || c == '\U{202F}' || c == '\U{205F}' || c == '\U{3000}'
  }

  /** A string that `strip()` turns into the empty string: Python's `not s.strip()`. */
  predicate IsBlank(s: string)
  {
    forall i :: 0 <= i < |s| ==> IsSpace(s[i])
  }

  /** `s.lstrip()`: the suffix left after the leading whitespace. */
  function StripLeft(s: string): (r: string)
    ensures |r| <= |s|
  {
    if s != [] && IsSpace(s[0]) then StripLeft(s[1..]) else s
  }

  /** `s.rstrip()`: the prefix left before the trailing whitespace. */
  function StripRight(s: string): (r: string)
    ensures |r| <= |s|
  {
    if s != [] && IsSpace(s[|s| - 1]) then StripRight(s[..|s| - 1]) else s
  }

  /** `s.lstrip()` drops exactly the leading whitespace. */
  lemma {:induction false} StripLeftDropsLeadingSpace(s: string)
    ensures var r := StripLeft(s);
      && r == s[|s| - |r|..]
      && (r == [] || !IsSpace(r[0]))
      && forall i :: 0 <= i < |s| - |r| ==> IsSpace(s[i])
  {
    if s != [] && IsSpace(s[0]) {
      StripLeftDropsLeadingSpace(s[1..]);
      var r := StripLeft(s);
      forall i | 0 <= i < |s| - |r| ensures IsSpace(s[i]) {
        if i > 0 {
          assert s[i] == s[1..][i - 1];
        }
      }
    }
  }

  /** `s.rstrip()` drops exactly the trailing whitespace. */
  lemma {:induction false} StripRightDropsTrailingSpace(s: string)
    ensures var r := StripRight(s);
      && r == s[..|r|]
      && (r == [] || !IsSpace(r[|r| - 1]))
      && forall i :: |r| <= i < |s| ==> IsSpace(s[i])
  {
    if s != [] && IsSpace(s[|s| - 1]) {
      StripRightDropsTrailingSpace(s[..|s| - 1]);
      var r := StripRight(s);
      forall i | |r| <= i < |s| ensures IsSpace(s[i]) {
        if i < |s| - 1 {
          assert s[i] == s[..|s| - 1][i];
        }
      }
    }
  }

  /** `s.strip()`. */
  function Strip(s: string): string
  {
    StripRight(StripLeft(s))
  }

  /** Where `s.strip()` starts inside `s`: the number of leading whitespace characters. */
  function StripStart(s: string): nat
  {
    |s| - |StripLeft(s)|
  }

  /**
   * `s.strip()` is a contiguous piece of `s` with only whitespace around it, and it neither
   * starts nor ends with whitespace: all the surrounding whitespace is gone.
   */
  lemma StripIsTrimmedSlice(s: string)
    ensures StripStart(s) + |Strip(s)| <= |s|
    ensures Strip(s) == s[StripStart(s)..StripStart(s) + |Strip(s)|]
    ensures forall i :: 0 <= i < StripStart(s) ==> IsSpace(s[i])
    ensures forall i :: StripStart(s) + |Strip(s)| <= i < |s| ==> IsSpace(s[i])
    ensures Strip(s) == [] || (!IsSpace(Strip(s)[0]) && !IsSpace(Strip(s)[|Strip(s)| - 1]))
  {
    StripSlice(s);
    StripEndsSolid(s);
  }

  /** `s.strip()` is the piece of `s` after the leading and before the trailing whitespace. */
  lemma StripSlice(s: string)
    ensures StripStart(s) + |Strip(s)| <= |s|
    ensures Strip(s) == s[StripStart(s)..StripStart(s) + |Strip(s)|]
    ensures forall i :: 0 <= i < StripStart(s) ==> IsSpace(s[i])
    ensures forall i :: StripStart(s) + |Strip(s)| <= i < |s| ==> IsSpace(s[i])
  {
    var l := StripLeft(s);
    var a := |s| - |l|;
    var r := StripRight(l);
    StripLeftDropsLeadingSpace(s);
    StripRightDropsTrailingSpace(l);
    assert r == l[..|r|];
    assert r == s[a..a + |r|];
    forall i | a + |r| <= i < |s| ensures IsSpace(s[i]) {
      assert s[i] == l[i - a];
    }
  }

  /** `s.strip()` neither starts nor ends with whitespace. */
  lemma StripEndsSolid(s: string)
    ensures Strip(s) == [] || (!IsSpace(Strip(s)[0]) && !IsSpace(Strip(s)[|Strip(s)| - 1]))
  {
    var l := StripLeft(s);
    var r := StripRight(l);
    StripLeftDropsLeadingSpace(s);
    StripRightDropsTrailingSpace(l);
    if r != [] {
      assert r[0] == l[0];
    }
  }

  /** `not s.strip()` holds exactly for whitespace-only strings. */
  lemma StripEmptyIffBlank(s: string)
    ensures Strip(s) == [] <==> IsBlank(s)
  {
    var l := StripLeft(s);
    StripLeftDropsLeadingSpace(s);
    StripRightDropsTrailingSpace(l);
    if Strip(s) == [] {
      assert l == [];
    }
  }

  /** A prefix that starts and ends with non-whitespace survives `strip()`. */
  lemma StripKeepsPrefix(s: string, k: nat)
    requires 0 < k <= |s|
    requires !IsSpace(s[0]) && !IsSpace(s[k - 1])
    ensures k <= |Strip(s)| && Strip(s)[..k] == s[..k]
  {
    assert StripLeft(s) == s;
    StripRightDropsTrailingSpace(s);
  }

  /** ASCII `str.lower()` for one character. */
  function LowerChar(c: char): char
  {
    if 'A' <= c <= 'Z' then (c as int + 32) as char else c
  }

  /** `s.lower()`, ASCII letters only. */
  function Lower(s: string): (r: string)
    ensures |r| == |s| && forall i :: 0 <= i < |s| ==> r[i] == LowerChar(s[i])
  {
    seq(|s|, i requires 0 <= i < |s| => LowerChar(s[i]))
  }

  lemma LowerConcat(a: string, b: string)
    ensures Lower(a + b) == Lower(a) + Lower(b)
  {
    assert forall i :: 0 <= i < |a + b| ==> Lower(a + b)[i] == (Lower(a) + Lower(b))[i];
  }

  /** `s.startswith(prefix)`. */
  predicate StartsWith(s: string, prefix: string)
  {
    |prefix| <= |s| && s[..|prefix|] == prefix
  }

  /** `s[k:]` for `k >= 0`: empty once `k` passes the end. */
  function DropFront(s: string, k: nat): (r: string)
    ensures |r| == Max(0, |s| - k)
  {
    if k <= |s| then s[k..] else []
  }

  /** `sep.join(parts)`. */
  function Join(sep: string, parts: seq<string>): string
  {
    if parts == [] then []
    else if |parts| == 1 then parts[0]
    else parts[0] + sep + Join(sep, parts[1..])
  }

  /**
   * Splitting at the non-overlapping matches of a separator found left to right, as Python's
   * `str.split(sep)` and `re.split(pattern, s)` do. `sepAt(t)` is the length of the separator
   * matched at the start of `t` (0 when none starts there).
   */
  function SplitWhere(s: string, sepAt: string -> nat): (pieces: seq<string>)
    ensures |pieces| >= 1
    decreases |s|
  {
    if s == [] then [[]]
    else
      var m := Min(sepAt(s), |s|);
      if m > 0 then [[]] + SplitWhere(s[m..], sepAt)
      else
        var rest := SplitWhere(s[1..], sepAt);
        [[s[0]] + rest[0]] + rest[1..]
  }

  /** Where no separator starts, splitting gives the whole string back as one piece. */
  lemma {:induction false} SplitWithoutSeparator(s: string, sepAt: string -> nat)
    requires forall i :: 0 <= i < |s| ==> sepAt(s[i..]) == 0
    ensures SplitWhere(s, sepAt) == [s]
    decreases |s|
  {
    if s != [] {
      assert sepAt(s[0..]) == 0 && s[0..] == s;
      forall i | 0 <= i < |s[1..]| ensures sepAt(s[1..][i..]) == 0 {
        assert s[1..][i..] == s[i + 1..];
      }
      SplitWithoutSeparator(s[1..], sepAt);
      assert [s[0]] + s[1..] == s;
    }
  }

  /** Splitting at the first separator: the text before it is the first piece, the rest is split on. */
  lemma {:induction false} SplitAtFirstSeparator(s: string, sepAt: string -> nat, k: nat)
    requires k < |s| && 0 < sepAt(s[k..])
    requires forall i :: 0 <= i < k ==> sepAt(s[i..]) == 0
    ensures SplitWhere(s, sepAt) == [s[..k]] + SplitWhere(s[k + Min(sepAt(s[k..]), |s| - k)..], sepAt)
    decreases k
  {
    var m := Min(sepAt(s[k..]), |s| - k);
    var after := SplitWhere(s[k + m..], sepAt);
    assert s[0..] == s;
    if k == 0 {
      assert SplitWhere(s, sepAt) == [[]] + SplitWhere(s[m..], sepAt);
    } else {
      var t := s[1..];
      forall i | 0 <= i < k - 1 ensures sepAt(t[i..]) == 0 {
        DropTwice(s, 1, i);
      }
      DropTwice(s, 1, k - 1);
      assert Min(sepAt(t[k - 1..]), |t| - (k - 1)) == m;
      DropTwice(s, 1, k - 1 + m);
      SplitAtFirstSeparator(t, sepAt, k - 1);
      var rest := SplitWhere(t, sepAt);
      assert rest[0] == t[..k - 1] && rest[1..] == after;
      assert sepAt(s) == 0;
      SplitWhereOnText(s, sepAt);
      var w := SplitWhere(s, sepAt);
      assert w[0] == s[..k] by {
        assert [s[0]] + t[..k - 1] == s[..k];
      }
      assert w == [w[0]] + w[1..];
    }
  }

  /** Dropping `a` characters and then `b` more drops `a + b`. */
  lemma DropTwice(s: string, a: nat, b: nat)
    requires a + b <= |s|
    ensures s[a..][b..] == s[a + b..]
  {
  }

  /** Where no separator starts the string, its first character opens the first piece. */
  lemma SplitWhereOnText(s: string, sepAt: string -> nat)
    requires s != [] && sepAt(s) == 0
    ensures var w, rest := SplitWhere(s, sepAt), SplitWhere(s[1..], sepAt);
      w[0] == [s[0]] + rest[0] && w[1..] == rest[1..]
  {
  }

  /** The first piece begins with every character before the first separator. */
  lemma {:induction false} SplitFirstPieceKeepsPrefix(s: string, sepAt: string -> nat, k: nat)
    requires k <= |s|
    requires forall i :: 0 <= i < k ==> sepAt(s[i..]) == 0
    ensures k <= |SplitWhere(s, sepAt)[0]| && SplitWhere(s, sepAt)[0][..k] == s[..k]
    decreases k
  {
    if k > 0 {
      assert s[0..] == s;
      forall i | 0 <= i < k - 1 ensures sepAt(s[1..][i..]) == 0 {
        assert s[1..][i..] == s[i + 1..];
      }
      SplitFirstPieceKeepsPrefix(s[1..], sepAt, k - 1);
    }
  }

  /** `s.split("\n")` finds a separator wherever a newline stands. */
  function NewlineAt(s: string): nat
  {
    if s != [] && s[0] == '\n' then 1 else 0
  }

  /** `s.split("\n")`. */
  function SplitLines(s: string): (lines: seq<string>)
    ensures |lines| >= 1
  {
    SplitWhere(s, NewlineAt)
  }

  /** No line holds a newline, and joining the lines with newlines gives the text back. */
  lemma {:induction false} SplitLinesRoundTrip(s: string)
    ensures Join("\n", SplitLines(s)) == s
    ensures forall i, j :: 0 <= i < |SplitLines(s)| && 0 <= j < |SplitLines(s)[i]| ==> SplitLines(s)[i][j] != '\n'
    decreases |s|
  {
    if s != [] {
      SplitLinesRoundTrip(s[1..]);
      var rest := SplitLines(s[1..]);
      if s[0] == '\n' {
        assert SplitLines(s) == [[]] + rest;
        assert s == [] + "\n" + s[1..];
      } else {
        var lines := SplitLines(s);
        assert lines == [[s[0]] + rest[0]] + rest[1..];
        if |rest| == 1 {
          assert Join("\n", lines) == [s[0]] + rest[0];
        } else {
          assert rest == [rest[0]] + rest[1..];
          assert Join("\n", rest) == rest[0] + "\n" + Join("\n", rest[1..]);
          assert lines[1..] == rest[1..];
        }
        assert s == [s[0]] + s[1..];
        forall i, j | 0 <= i < |lines| && 0 <= j < |lines[i]| ensures lines[i][j] != '\n' {
          if i > 0 {
            assert lines[i] == rest[i];
          } else if j > 0 {
            assert lines[0][j] == rest[0][j - 1];
          }
        }
      }
    }
  }

  /** Joining lines that hold no newline and splitting the result gives the lines back. */
  lemma {:induction false} SplitLinesOfJoin(lines: seq<string>)
    requires lines != []
    requires forall i, j :: 0 <= i < |lines| && 0 <= j < |lines[i]| ==> lines[i][j] != '\n'
    ensures SplitLines(Join("\n", lines)) == lines
    decreases |lines|
  {
    var first := lines[0];
    if |lines| == 1 {
      forall i | 0 <= i < |first| ensures NewlineAt(first[i..]) == 0 {
        assert first[i..][0] == first[i];
      }
      SplitWithoutSeparator(first, NewlineAt);
    } else {
      var rest := Join("\n", lines[1..]);
      var s := Join("\n", lines);
      assert s == first + "\n" + rest;
      forall i | 0 <= i < |first| ensures NewlineAt(s[i..]) == 0 {
        assert s[i..][0] == first[i];
      }
      assert s[|first|..][0] == '\n';
      SplitAtFirstSeparator(s, NewlineAt, |first|);
      assert s[..|first|] == first && s[|first| + 1..] == rest;
      SplitLinesOfJoin(lines[1..]);
      assert lines == [first] + lines[1..];
    }
  }
}
