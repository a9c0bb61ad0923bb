/**
 * The "Save As Code Snippet" command (`codeSnippet:save-as-snippet`): how the
 * captured text becomes the ordered code lines handed to the snippet input
 * dialog, together with the id -1 that marks a snippet not yet saved.
 *
 * The two texts the command reads from the page are parameters here: the
 * current selection (what `getSelectedText` returns) and the inner text of
 * every element whose class list holds `jp-Cell jp-mod-selected`, in
 * document order.
 */
module SaveSnippet {
  import opened Wrappers
  import opened Text

  /** U+FFFD, the replacement character, removed from cell text. */
  const ReplacementCharacter: char := '\U{FFFD}'

  /** U+200B, the zero-width space (character code 8203). */
  const ZeroWidthSpace: char := '\U{200B}'

  /** The id given to the input dialog for a snippet that has not been saved yet. */
  const UnsavedSnippetId: int := -1

  /** What the command hands to the snippet input dialog. */
  datatype DialogRequest = DialogRequest(code: seq<string>, id: int)

  /** The command reads the second selected cell; with fewer than two there is none. */
  datatype SaveError = NoSecondSelectedCell

  /** A line holding a zero-width space anywhere becomes the empty line. */
  function BlankLine(line: string): string
  {
    if ZeroWidthSpace in line then [] else line
  }

  /** The lines after blanking, line by line; the specification of the nested loop. */
  function BlankLines(lines: seq<string>): (r: seq<string>)
    ensures |r| == |lines|
  {
    seq(|lines|, k requires 0 <= k < |lines| => BlankLine(lines[k]))
  }

  /**
   * The fallback cell text as code lines: every U+FFFD removed, the text
   * split on line feeds, the first piece (the cell prompt) dropped, and every
   * remaining line holding a U+200B blanked.
   */
  function CellLines(text: string): (lines: seq<string>)
    ensures |lines| + 1 == |Split(RemoveAll(text, ReplacementCharacter))|
    ensures forall k :: 0 <= k < |lines| ==> ZeroWidthSpace !in lines[k]
  {
    BlankLines(Split(RemoveAll(text, ReplacementCharacter))[1..])
  }

  /** What the command does, as a function of the two captured texts. */
  function SaveRequest(selection: string, selectedCells: seq<string>): (r: Result<DialogRequest, SaveError>)
    ensures r.Failure? <==> selection == [] && |selectedCells| < 2
    ensures r.Success? ==> r.value.id == UnsavedSnippetId
  {
    if selection != [] then Success(DialogRequest(Split(selection), UnsavedSnippetId))
    else if |selectedCells| < 2 then Failure(NoSecondSelectedCell)
    else Success(DialogRequest(CellLines(selectedCells[1]), UnsavedSnippetId))
  }

  /**
   * The nested loop over the lines and their characters: a line is replaced
   * by the empty line as soon as a zero-width space is met in it, after which
   * the inner loop, bounded by the now-empty line, stops.
   */
  method BlankZeroWidthLines(a: array<string>)
    modifies a
    ensures a[..] == BlankLines(old(a[..]))
  {
    var i := 0;
    while i < a.Length
      invariant 0 <= i <= a.Length
      invariant forall k :: 0 <= k < i ==> a[k] == BlankLine(old(a[k]))
      invariant forall k :: i <= k < a.Length ==> a[k] == old(a[k])
    {
      var j := 0;
      while j < |a[i]|
        invariant 0 <= j
        invariant (a[i] == old(a[i]) && j <= |a[i]| && forall m :: 0 <= m < j ==> old(a[i])[m] != ZeroWidthSpace)
               || (a[i] == [] && ZeroWidthSpace in old(a[i]))
        invariant forall k :: 0 <= k < i ==> a[k] == BlankLine(old(a[k]))
        invariant forall k :: i < k < a.Length ==> a[k] == old(a[k])
      {
        if a[i][j] == ZeroWidthSpace {
          a[i] := [];
        }
        j := j + 1;
      }
      i := i + 1;
    }
  }

  /** The fallback path of the command, with the blanking done in place on an array. */
  method NormalizeCellText(text: string) returns (lines: seq<string>)
    ensures lines == CellLines(text)
  {
    var cleaned := RemoveAll(text, ReplacementCharacter);
    var pieces := Split(cleaned);
    var indexed := pieces[1..];
    var a := new string[|indexed|](k requires 0 <= k < |indexed| => indexed[k]);
    assert a[..] == indexed;
    BlankZeroWidthLines(a);
    lines := a[..];
  }

  /**
   * The command: split an explicit selection, else normalise the second
   * selected cell. It takes the same cases as `SaveRequest`; it exists so
   * that the fallback runs through the in-place array method, as the source does.
   */
  method SaveAsSnippet(selection: string, selectedCells: seq<string>)
    returns (r: Result<DialogRequest, SaveError>)
    ensures r == SaveRequest(selection, selectedCells)
  {
    if selection == [] {
      if |selectedCells| < 2 {
        return Failure(NoSecondSelectedCell);
      }
      var lines := NormalizeCellText(selectedCells[1]);
      r := Success(DialogRequest(lines, UnsavedSnippetId));
    } else {
      r := Success(DialogRequest(Split(selection), UnsavedSnippetId));
    }
  }

  /**
   * An explicit selection reaches the dialog untouched: its lines hold no
   * line feed and joining them with line feeds gives back the selection.
   */
  lemma SelectionKeepsText(selection: string, selectedCells: seq<string>)
    requires selection != []
    ensures SaveRequest(selection, selectedCells).Success?
    ensures var lines := SaveRequest(selection, selectedCells).value.code;
      Join(lines) == selection && forall k :: 0 <= k < |lines| ==> LineFeed !in lines[k]
  {
    JoinSplit(selection);
  }

  /** With nothing selected the command fails exactly when no second cell is selected. */
  lemma FallbackNeedsSecondCell(selectedCells: seq<string>)
    ensures SaveRequest([], selectedCells).Failure? <==> |selectedCells| < 2
    ensures |selectedCells| >= 2 ==>
      SaveRequest([], selectedCells) == Success(DialogRequest(CellLines(selectedCells[1]), UnsavedSnippetId))
  {
  }

  /**
   * The fallback lines correspond one to one, in order, to the pieces of the
   * cleaned text after its first piece: line k comes from piece k + 1, and is
   * that piece unless the piece holds a zero-width space, in which case it is
   * empty. There is one line per line feed of the cleaned text.
   */
  lemma CellLinesFromPieces(text: string)
    ensures var cleaned := RemoveAll(text, ReplacementCharacter);
      var pieces := Split(cleaned);
      var lines := CellLines(text);
      && |lines| == |pieces| - 1 == Count(cleaned, LineFeed)
      && forall k :: 0 <= k < |lines| ==>
           lines[k] == (if ZeroWidthSpace in pieces[k + 1] then [] else pieces[k + 1])
  {
    SplitLength(RemoveAll(text, ReplacementCharacter));
  }

  /** No fallback line holds a replacement character, a zero-width space or a line feed. */
  lemma CellLinesClean(text: string)
    ensures forall k :: 0 <= k < |CellLines(text)| ==>
      && ReplacementCharacter !in CellLines(text)[k]
      && ZeroWidthSpace !in CellLines(text)[k]
      && LineFeed !in CellLines(text)[k]
  {
    var cleaned := RemoveAll(text, ReplacementCharacter);
    SplitPiecesAvoid(cleaned, ReplacementCharacter);
  }

  /**
   * Blanking changes only lines that hold a zero-width space, keeps the
   * number of lines, and leaves its own output unchanged.
   */
  lemma BlankLinesOnlyMarked(lines: seq<string>)
    ensures var r := BlankLines(lines);
      && |r| == |lines|
      && (forall k :: 0 <= k < |lines| ==> (r[k] != lines[k] ==> ZeroWidthSpace in lines[k]))
      && BlankLines(r) == r
  {
  }

  /** The fallback normalisation is a fixed point of its blanking step. */
  lemma {:induction false} CellLinesStable(text: string)
    ensures BlankLines(CellLines(text)) == CellLines(text)
  {
    CellLinesClean(text);
  }

  /** A worked case: a replacement character is dropped, the prompt line goes, a marked line is blanked. */
  lemma CellLinesExample()
    ensures CellLines("0\n1\U{FFFD}23\n\U{200B}abc") == ["123", ""]
  {
    var kept := ["123", "\U{200B}abc"];
    assert ZeroWidthSpace !in kept[0] && ZeroWidthSpace == kept[1][0];
    assert BlankLines(kept) == ["123", ""];
    assert ["0", "123", "\U{200B}abc"][1..] == kept;
    ExampleCleaned();
    ExampleSplit();
  }

  lemma ExampleCleaned()
    ensures RemoveAll("0\n1\U{FFFD}23\n\U{200B}abc", ReplacementCharacter) == "0\n123\n\U{200B}abc"
  {
    var head, tail := "0\n1", "23\n\U{200B}abc";
    assert "0\n1\U{FFFD}23\n\U{200B}abc" == head + [ReplacementCharacter] + tail;
    assert head + tail == "0\n123\n\U{200B}abc";
    RemoveSingle(head, tail, ReplacementCharacter);
  }

  lemma RemoveSingle(head: string, tail: string, c: char)
    requires c !in head && c !in tail
    ensures RemoveAll(head + [c] + tail, c) == head + tail
  {
    assert RemoveAll([c], c) == [] by {
      assert [c][0] == c && [c][1..] == [];
    }
    RemoveAllAbsent(head, c);
    RemoveAllAppend(head, [c], c);
    assert RemoveAll(head + [c], c) == head;
    RemoveAllAbsent(tail, c);
    RemoveAllAppend(head + [c], tail, c);
  }

  lemma ExampleSplit()
    ensures Split("0\n123\n\U{200B}abc") == ["0", "123", "\U{200B}abc"]
  {
    var pieces := ["0", "123", "\U{200B}abc"];
    assert forall k :: 0 <= k < |pieces| ==> LineFeed !in pieces[k];
    SplitJoin(pieces);
    assert Join(pieces) == "0\n123\n\U{200B}abc";
  }
}
