/** The text assembly of `outputResults2KiCadFile`
    (src/GridBasedRouter.cpp): the input board file's lines are copied with
    the file's final `)` cut off, the routed nets are written, and a single
    `)` line closes the file again. Lines are strings; reading and writing
    files is not modelled. */
module KicadOutput {
  import opened Wrappers

  /** `find_last_of(c)`: the largest index holding c, or none. */
  function LastIndexOf(s: string, c: char): (r: Option<nat>)
    ensures r.None? <==> c !in s
    ensures r.Some? ==> r.value < |s| && s[r.value] == c
                        && forall k :: r.value < k < |s| ==> s[k] != c
  {
    if s == [] then None
    else if s[|s| - 1] == c then Some(|s| - 1)
    else LastIndexOf(s[..|s| - 1], c)
  }

  /** The highest-indexed line containing `)`, or none. */
  function LastParenLine(lines: seq<string>): (r: Option<nat>)
    ensures r.None? <==> forall i :: 0 <= i < |lines| ==> ')' !in lines[i]
    ensures r.Some? ==> r.value < |lines| && ')' in lines[r.value]
                        && forall j :: r.value < j < |lines| ==> ')' !in lines[j]
  {
    if lines == [] then None
    else if ')' in lines[|lines| - 1] then Some(|lines| - 1)
    else LastParenLine(lines[..|lines| - 1])
  }

  /** The downward scan of the source: from the last line backwards, the
      first line holding `)` is cut just before its last `)` (everything from
      that `)` on is dropped) and the scan stops. */
  function TrimLastParen(lines: seq<string>): (out: seq<string>)
    ensures |out| == |lines|
    ensures LastParenLine(lines).None? ==> out == lines
    ensures LastParenLine(lines).Some? ==>
              var k := LastParenLine(lines).value;
              out == lines[k := lines[k][..LastIndexOf(lines[k], ')').value]]
  {
    if lines == [] then []
    else
      var last := lines[|lines| - 1];
      match LastIndexOf(last, ')')
      case Some(j) => lines[..|lines| - 1] + [last[..j]]
      case None => TrimLastParen(lines[..|lines| - 1]) + [last]
  }

  /** The whole output text: the input file's lines with the last `)` cut,
      the net lines, and a closing `)` line; `None` when the line vector is
      empty (the source reports the error and writes nothing). The reading
      loop never leaves the vector empty: an empty file reads as one empty
      line. */
  function OutputDocument(fileLines: seq<string>, netLines: seq<string>): (r: Option<seq<string>>)
    ensures r.None? <==> fileLines == []
    ensures r.Some? ==> |r.value| == |fileLines| + |netLines| + 1
                        && r.value[|r.value| - 1] == ")"
                        && r.value[..|fileLines|] == TrimLastParen(fileLines)
                        && r.value[|fileLines|..|fileLines| + |netLines|] == netLines
  {
    if fileLines == [] then None
    else
      var doc := TrimLastParen(fileLines) + netLines + [")"];
      assert doc[..|fileLines|] == TrimLastParen(fileLines);
      assert doc[|fileLines|..|fileLines| + |netLines|] == netLines;
      Some(doc)
  }

  /** The number of `)` in a string. */
  function CountParens(s: string): nat
  {
    if s == [] then 0 else CountParens(s[..|s| - 1]) + (if s[|s| - 1] == ')' then 1 else 0)
  }

  /** The number of `)` over all lines. */
  function TotalParens(lines: seq<string>): nat
  {
    if lines == [] then 0 else TotalParens(lines[..|lines| - 1]) + CountParens(lines[|lines| - 1])
  }

  /** Cutting a line before its last `)` removes exactly one `)`. */
  lemma {:induction false} CutRemovesOneParen(s: string, j: nat)
    requires j < |s| && s[j] == ')' && forall k :: j < k < |s| ==> s[k] != ')'
    ensures CountParens(s[..j]) + 1 == CountParens(s)
    decreases |s|
  {
    if j < |s| - 1 {
      CutRemovesOneParen(s[..|s| - 1], j);
      assert s[..|s| - 1][..j] == s[..j];
    } else {
      assert s[..|s| - 1] == s[..j];
    }
  }

  lemma {:induction false} TotalParensAppend(a: seq<string>, b: seq<string>)
    ensures TotalParens(a + b) == TotalParens(a) + TotalParens(b)
    decreases |b|
  {
    if b == [] {
      assert a + b == a;
    } else {
      TotalParensAppend(a, b[..|b| - 1]);
      assert (a + b)[..|a + b| - 1] == a + b[..|b| - 1];
    }
  }

  /** The trim removes exactly one `)` from a file that has one; the closing
      line written after the nets puts it back, so the document keeps the
      input file's `)` count plus the nets' own. */
  lemma {:induction false} OutputKeepsParenCount(fileLines: seq<string>, netLines: seq<string>)
    requires LastParenLine(fileLines).Some?
    ensures TotalParens(TrimLastParen(fileLines)) + 1 == TotalParens(fileLines)
    ensures TotalParens(OutputDocument(fileLines, netLines).value)
            == TotalParens(fileLines) + TotalParens(netLines)
  {
    TrimRemovesOneParen(fileLines);
    var doc := OutputDocument(fileLines, netLines).value;
    TotalParensAppend(TrimLastParen(fileLines), netLines);
    TotalParensAppend(TrimLastParen(fileLines) + netLines, [")"]);
    assert [")"][..0] == [];
    assert CountParens(")") == 1 by {
      assert ")"[..0] == "";
    }
  }

  lemma {:induction false} TrimRemovesOneParen(lines: seq<string>)
    requires LastParenLine(lines).Some?
    ensures TotalParens(TrimLastParen(lines)) + 1 == TotalParens(lines)
    decreases |lines|
  {
    var init, last := lines[..|lines| - 1], lines[|lines| - 1];
    var out := TrimLastParen(lines);
    assert lines == init + [last];
    assert out[..|out| - 1] == TrimLastParen(lines)[..|lines| - 1];
    match LastIndexOf(last, ')')
    case Some(j) =>
      CutRemovesOneParen(last, j);
      assert out == init + [last[..j]];
      assert out[..|out| - 1] == init;
    case None =>
      TrimRemovesOneParen(init);
      assert out == TrimLastParen(init) + [last];
      assert out[..|out| - 1] == TrimLastParen(init);
  }
}
