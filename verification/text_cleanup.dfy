/**
 The whitespace normaliser of the open-source scraper: page text is broken into
 lines, each line is stripped, cut at every double space, and the stripped,
 non-empty pieces are joined back with newlines.
 */
module TextCleanup {
  import opened Strings

  predicate DoubleSpaceAt(s: string, i: int)
    requires 0 <= i < |s| - 1
  {
    s[i] == ' ' && s[i + 1] == ' '
  }

  predicate NoDoubleSpace(s: string) {
    forall i :: 0 <= i < |s| - 1 ==> !DoubleSpaceAt(s, i)
  }

  /** One line of cleaned text: non-empty, stripped, single-spaced, no line break. */
  predicate IsCleanLine(c: string) {
    c != "" && IsStripped(c) && NoDoubleSpace(c) && '\n' !in c
  }

  /** Every line of `ls` is clean. */
  predicate AllClean(ls: seq<string>)
    decreases |ls|
  {
    |ls| == 0 || (IsCleanLine(ls[0]) && AllClean(ls[1..]))
  }

  lemma {:induction false} AllCleanAppend(a: seq<string>, b: seq<string>)
    requires AllClean(a) && AllClean(b)
    ensures AllClean(a + b)
    decreases |a|
  {
    if |a| == 0 {
      assert a + b == b;
    } else {
      AllCleanAppend(a[1..], b);
      assert (a + b)[1..] == a[1..] + b;
    }
  }

  lemma {:induction false} AllCleanAt(ls: seq<string>, j: nat)
    requires AllClean(ls) && j < |ls|
    ensures IsCleanLine(ls[j])
    decreases j
  {
    if j > 0 {
      AllCleanAt(ls[1..], j - 1);
    }
  }

  /**
   `s.split("  ")`: the pieces between the double spaces found scanning left to
   right without overlap, so three spaces leave one space on the next piece.
   */
  function SplitDoubleSpace(s: string): (r: seq<string>)
    ensures |r| >= 1
    decreases |s|
  {
    if |s| < 2 then [s]
    else if s[0] == ' ' && s[1] == ' ' then [""] + SplitDoubleSpace(s[2..])
    else
      var rest := SplitDoubleSpace(s[1..]);
      [[s[0]] + rest[0]] + rest[1..]
  }

  /** Every piece is single-spaced, and the first piece is a prefix of the line. */
  lemma {:induction false} SplitDoubleSpacePieces(s: string)
    ensures SplitDoubleSpace(s)[0] <= s
    ensures forall j :: 0 <= j < |SplitDoubleSpace(s)| ==> NoDoubleSpace(SplitDoubleSpace(s)[j])
    decreases |s|
  {
    var r := SplitDoubleSpace(s);
    if |s| < 2 {
    } else if s[0] == ' ' && s[1] == ' ' {
      var rest := SplitDoubleSpace(s[2..]);
      SplitDoubleSpacePieces(s[2..]);
      assert r == [""] + rest;
      forall j | 0 <= j < |r|
        ensures NoDoubleSpace(r[j])
      {
        if j > 0 {
          assert r[j] == rest[j - 1];
        }
      }
    } else {
      var rest := SplitDoubleSpace(s[1..]);
      SplitDoubleSpacePieces(s[1..]);
      var first := [s[0]] + rest[0];
      assert r == [first] + rest[1..];
      assert NoDoubleSpace(first) by {
        forall i | 0 <= i < |first| - 1
          ensures !DoubleSpaceAt(first, i)
        {
          if i == 0 {
            assert first[1] == rest[0][0] == s[1];
          } else {
            assert first[i] == rest[0][i - 1] && first[i + 1] == rest[0][i];
            assert !DoubleSpaceAt(rest[0], i - 1);
          }
        }
      }
      assert first <= s;
      forall j | 0 <= j < |r|
        ensures NoDoubleSpace(r[j])
      {
        if j > 0 {
          assert r[j] == rest[j];
        }
      }
    }
  }

  /** Splitting a single line gives single-line pieces. */
  lemma {:induction false} SplitDoubleSpaceSingleLine(s: string)
    requires '\n' !in s
    ensures AllSingleLine(SplitDoubleSpace(s))
    decreases |s|
  {
    var r := SplitDoubleSpace(s);
    if |s| < 2 {
    } else if s[0] == ' ' && s[1] == ' ' {
      var rest := SplitDoubleSpace(s[2..]);
      assert '\n' !in s[2..] by {
        assert forall k :: 0 <= k < |s[2..]| ==> s[2..][k] == s[k + 2];
      }
      SplitDoubleSpaceSingleLine(s[2..]);
      assert r == [""] + rest;
      forall j | 0 <= j < |r|
        ensures '\n' !in r[j]
      {
        if j > 0 {
          assert r[j] == rest[j - 1];
        }
      }
    } else {
      var rest := SplitDoubleSpace(s[1..]);
      assert '\n' !in s[1..] by {
        assert forall k :: 0 <= k < |s[1..]| ==> s[1..][k] == s[k + 1];
      }
      SplitDoubleSpaceSingleLine(s[1..]);
      var first := [s[0]] + rest[0];
      assert r == [first] + rest[1..];
      forall j | 0 <= j < |r|
        ensures '\n' !in r[j]
      {
        if j > 0 {
          assert r[j] == rest[j];
        } else {
          assert '\n' !in rest[0];
        }
      }
    }
  }

  /** Joining the pieces back with the separator gives the original string. */
  lemma {:induction false} JoinSplitDoubleSpace(s: string)
    ensures Join("  ", SplitDoubleSpace(s)) == s
    decreases |s|
  {
    if |s| < 2 {
    } else if s[0] == ' ' && s[1] == ' ' {
      var rest := SplitDoubleSpace(s[2..]);
      JoinSplitDoubleSpace(s[2..]);
      assert ([""] + rest)[1..] == rest;
      assert s == "  " + s[2..];
    } else {
      var rest := SplitDoubleSpace(s[1..]);
      JoinSplitDoubleSpace(s[1..]);
      var r := SplitDoubleSpace(s);
      assert r[1..] == rest[1..];
      if |rest| == 1 {
        assert r == [[s[0]] + s[1..]];
        assert [s[0]] + s[1..] == s;
      } else {
        assert Join("  ", rest) == rest[0] + "  " + Join("  ", rest[1..]);
        assert r[0] == [s[0]] + rest[0];
        assert s == [s[0]] + s[1..];
      }
    }
  }

  lemma NoDoubleSpaceSlice(s: string, a: nat, b: nat)
    requires a <= b <= |s|
    requires NoDoubleSpace(s)
    ensures NoDoubleSpace(s[a..b])
  {
    var t := s[a..b];
    forall i | 0 <= i < |t| - 1
      ensures !DoubleSpaceAt(t, i)
    {
      assert !DoubleSpaceAt(s, a + i);
    }
  }

  /** Stripping a single-spaced, single-line piece gives a clean line unless it is empty. */
  lemma StripKeepsClean(p: string)
    requires NoDoubleSpace(p) && '\n' !in p
    ensures NoDoubleSpace(Strip(p)) && '\n' !in Strip(p)
  {
    var off := StripOffset(p);
    var r := Strip(p);
    NoDoubleSpaceSlice(p, off, off + |r|);
    StripSingleLine(p);
  }

  /** The pieces that survive stripping, each stripped, in order. */
  function KeepStripped(pieces: seq<string>): (r: seq<string>)
    ensures |r| <= |pieces|
    decreases |pieces|
  {
    if |pieces| == 0 then []
    else
      var c := Strip(pieces[0]);
      (if c == "" then [] else [c]) + KeepStripped(pieces[1..])
  }

  lemma {:induction false} KeepStrippedClean(pieces: seq<string>)
    requires forall j :: 0 <= j < |pieces| ==> NoDoubleSpace(pieces[j]) && '\n' !in pieces[j]
    ensures AllClean(KeepStripped(pieces))
    decreases |pieces|
  {
    if |pieces| > 0 {
      var c := Strip(pieces[0]);
      StripKeepsClean(pieces[0]);
      KeepStrippedClean(pieces[1..]);
      var head := if c == "" then [] else [c];
      assert AllClean(head) by {
        if c != "" {
          assert [c][1..] == [];
        }
      }
      AllCleanAppend(head, KeepStripped(pieces[1..]));
    }
  }

  /** The clean lines one source line contributes. */
  function LineChunks(line: string): seq<string> {
    KeepStripped(SplitDoubleSpace(Strip(line)))
  }

  lemma LineChunksClean(line: string)
    requires '\n' !in line
    ensures AllClean(LineChunks(line))
  {
    var stripped := Strip(line);
    StripSingleLine(line);
    SplitDoubleSpacePieces(stripped);
    SplitDoubleSpaceSingleLine(stripped);
    KeepStrippedClean(SplitDoubleSpace(stripped));
  }

  function ChunksOfLines(lines: seq<string>): seq<string>
    decreases |lines|
  {
    if |lines| == 0 then [] else LineChunks(lines[0]) + ChunksOfLines(lines[1..])
  }

  lemma {:induction false} ChunksOfLinesClean(lines: seq<string>)
    requires forall j :: 0 <= j < |lines| ==> '\n' !in lines[j]
    ensures AllClean(ChunksOfLines(lines))
    decreases |lines|
  {
    if |lines| > 0 {
      LineChunksClean(lines[0]);
      assert forall j :: 0 <= j < |lines[1..]| ==> lines[1..][j] == lines[j + 1];
      ChunksOfLinesClean(lines[1..]);
      AllCleanAppend(LineChunks(lines[0]), ChunksOfLines(lines[1..]));
    }
  }

  /** The lines of cleaned text, in source order. */
  function Chunks(text: string): seq<string> {
    ChunksOfLines(Lines(text))
  }

  /** `'\n'.join(chunk for chunk in chunks if chunk)` over the stripped pieces. */
  function CleanText(text: string): string {
    Join("\n", Chunks(text))
  }

  /**
   Every line of the cleaned text is non-empty, has no whitespace at either end
   and no two consecutive spaces; the lines are exactly the chunks, in order.
   */
  lemma CleanTextLines(text: string)
    ensures Lines(CleanText(text)) == Chunks(text)
    ensures forall j :: 0 <= j < |Lines(CleanText(text))| ==> IsCleanLine(Lines(CleanText(text))[j])
  {
    var chunks := Chunks(text);
    ChunksOfLinesClean(Lines(text));
    forall j | 0 <= j < |chunks|
      ensures IsCleanLine(chunks[j])
    {
      AllCleanAt(chunks, j);
    }
    LinesOfJoin(chunks);
  }

  lemma {:induction false} EraseKeepStripped(pieces: seq<string>)
    ensures EraseAll(KeepStripped(pieces)) == EraseAll(pieces)
    decreases |pieces|
  {
    if |pieces| > 0 {
      var c := Strip(pieces[0]);
      EraseStrip(pieces[0]);
      EraseKeepStripped(pieces[1..]);
      var head := if c == "" then [] else [c];
      EraseAllAppend(head, KeepStripped(pieces[1..]));
      if c != "" {
        assert EraseAll([c]) == Erase(c) + EraseAll([]);
      }
    }
  }

  /** Dropping and stripping the pieces of a line keeps its visible characters. */
  lemma EraseKeptPieces(line: string, stripped: string, pieces: seq<string>)
    requires Erase(stripped) == Erase(line) && Join("  ", pieces) == stripped
    ensures EraseAll(KeepStripped(pieces)) == Erase(line)
  {
    EraseKeepStripped(pieces);
    EraseOfWhitespace("  ");
    EraseJoin("  ", pieces);
  }

  lemma EraseLineChunks(line: string)
    ensures EraseAll(LineChunks(line)) == Erase(line)
  {
    var stripped := Strip(line);
    EraseStrip(line);
    JoinSplitDoubleSpace(stripped);
    EraseKeptPieces(line, stripped, SplitDoubleSpace(stripped));
  }

  lemma {:induction false} EraseChunksOfLines(lines: seq<string>)
    ensures EraseAll(ChunksOfLines(lines)) == EraseAll(lines)
    decreases |lines|
  {
    if |lines| > 0 {
      EraseLineChunks(lines[0]);
      EraseChunksOfLines(lines[1..]);
      EraseAllAppend(LineChunks(lines[0]), ChunksOfLines(lines[1..]));
    }
  }

  /**
   Cleaning only rewrites whitespace: the visible characters of the result are
   those of the page text, in the same order.
   */
  lemma CleanTextKeepsVisibleText(text: string)
    ensures Erase(CleanText(text)) == Erase(text)
  {
    EraseOfWhitespace("\n");
    EraseJoin("\n", Chunks(text));
    EraseChunksOfLines(Lines(text));
    EraseLines(text);
  }
}
