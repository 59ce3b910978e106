/** Converting between byte offsets and editor positions (0-based line, UTF-16 column). */
module Positions {
  import opened Texts

  datatype Position = Position(line: nat, character: nat)

  /** The offset falls between two code points. */
  ghost predicate IsBoundary(source: string, offset: nat) {
    exists k :: 0 <= k <= |source| && ByteLen(source[..k]) == offset
  }

  /** How many code points lie before a byte offset. */
  function CharIndex(source: string, offset: nat): (k: nat)
    ensures k <= |source|
    ensures IsBoundary(source, offset) ==> ByteLen(source[..k]) == offset
  {
    if offset >= ByteLen(source) || source == [] then
      assert source[..|source|] == source;
      BoundaryWithin(source, offset);
      |source|
    else
      BoundaryBefore(source, offset);
      CharIndex(source[..|source| - 1], offset)
  }

  lemma BoundaryWithin(source: string, offset: nat)
    ensures IsBoundary(source, offset) ==> offset <= ByteLen(source)
  {
    if k :| 0 <= k <= |source| && ByteLen(source[..k]) == offset {
      PrefixBytes(source, k, |source|);
      assert source[..|source|] == source;
    }
  }

  lemma BoundaryBefore(source: string, offset: nat)
    requires source != [] && offset < ByteLen(source)
    ensures IsBoundary(source, offset) ==> IsBoundary(source[..|source| - 1], offset)
    ensures forall k | 0 <= k < |source| :: source[..|source| - 1][..k] == source[..k]
  {
    var front := source[..|source| - 1];
    assert forall k | 0 <= k < |source| :: front[..k] == source[..k];
    assert source[..|source|] == source;
    if k :| 0 <= k <= |source| && ByteLen(source[..k]) == offset {
      assert ByteLen(front[..k]) == offset;
    }
  }

  lemma CharIndexOfPrefix(source: string, k: nat)
    requires k <= |source|
    ensures CharIndex(source, ByteLen(source[..k])) == k
  {
    var i := CharIndex(source, ByteLen(source[..k]));
    assert IsBoundary(source, ByteLen(source[..k]));
    if i < k { PrefixBytes(source, i, k); } else if k < i { PrefixBytes(source, k, i); }
  }

  function Min(a: nat, b: nat): nat { if a < b then a else b }

  /** The position of a byte offset; one past the end counts as the end. Slicing inside a code point is an error. */
  function ByteOffsetToPosition(source: string, offset: nat): Position
    requires IsBoundary(source, Min(offset, ByteLen(source)))
  {
    var before := source[..CharIndex(source, Min(offset, ByteLen(source)))];
    LineStartNoNewline(before);
    Position(Newlines(before), Utf16Width(before[LineStart(before)..]))
  }

  /** The first column, in code points, whose UTF-16 width reaches `character`, or the end of the line. */
  function Column(line: string, character: nat): (j: nat)
    ensures j <= |line|
  {
    if line == [] || character > Utf16Width(line[..|line| - 1]) then |line|
    else Column(line[..|line| - 1], character)
  }

  /** The code point a position stands before. */
  function Target(source: string, pos: Position): (k: nat) {
    var lines := Lines(source);
    if pos.line < |lines| then Begin(lines, pos.line) + Column(Clean(lines[pos.line]), pos.character) else |source|
  }

  /** The byte offset of a position: always between two code points of the source. */
  method PositionToByteOffset(source: string, pos: Position) returns (offset: nat)
    ensures Target(source, pos) <= |source| && offset == ByteLen(source[..Target(source, pos)])
  {
    var lines := Lines(source);
    TargetWithin(source, pos);
    offset := 0;
    for i := 0 to |lines|
      invariant i <= pos.line
      invariant offset == LineBytes(lines, i)
    {
      if i == pos.line {
        var cleanLine := Clean(lines[i]);
        var utf16Count, byteIdx := 0, 0;
        TargetBytes(source, pos);
        for j := 0 to |cleanLine|
          invariant utf16Count == Utf16Width(cleanLine[..j]) && byteIdx == ByteLen(cleanLine[..j])
          invariant j > 0 ==> Utf16Width(cleanLine[..j - 1]) < pos.character
        {
          if utf16Count >= pos.character {
            ColumnIs(cleanLine, pos.character, j);
            return offset + byteIdx;
          }
          assert cleanLine[..j + 1][..j] == cleanLine[..j];
          utf16Count := utf16Count + Utf16Len(cleanLine[j]);
          byteIdx := byteIdx + Utf8Len(cleanLine[j]);
        }
        assert cleanLine[..|cleanLine|] == cleanLine;
        ColumnIs(cleanLine, pos.character, |cleanLine|);
        return offset + ByteLen(cleanLine);
      }
      offset := offset + ByteLen(lines[i]) + 1;
    }
    assert source[..|source|] == source;
    return ByteLen(source);
  }

  /** The bytes of the first lines, each with its newline. */
  function LineBytes(lines: seq<string>, l: nat): nat
    requires l <= |lines|
  {
    if l == 0 then 0 else LineBytes(lines, l - 1) + ByteLen(lines[l - 1]) + 1
  }

  lemma {:induction false} WidthGrows(line: string, i: nat, j: nat)
    requires i < j <= |line|
    ensures Utf16Width(line[..i]) < Utf16Width(line[..j])
  {
    assert line[..j][..j - 1] == line[..j - 1];
    if i < j - 1 { WidthGrows(line, i, j - 1); }
  }

  /** A column whose width reaches the character while the one before does not is the one found. */
  lemma {:induction false} ColumnIs(line: string, character: nat, j: nat)
    requires j <= |line| && (j < |line| ==> Utf16Width(line[..j]) >= character)
    requires j > 0 ==> Utf16Width(line[..j - 1]) < character
    ensures Column(line, character) == j
  {
    if line != [] {
      var front := line[..|line| - 1];
      if j == |line| {
        assert line[..j - 1] == front;
      } else {
        assert front[..j] == line[..j];
        if j < |line| - 1 { WidthGrows(line, j, |line| - 1); }
        assert j > 0 ==> front[..j - 1] == line[..j - 1];
        ColumnIs(front, character, j);
      }
    }
  }

  /** A column is found back from its width. */
  lemma ColumnOfWidth(line: string, j: nat)
    requires j <= |line|
    ensures Column(line, Utf16Width(line[..j])) == j
  {
    if j > 0 { WidthGrows(line, j - 1, j); }
    ColumnIs(line, Utf16Width(line[..j]), j);
  }

  lemma CleanPrefix(line: string)
    ensures |Clean(line)| <= |line| && Clean(line) == line[..|Clean(line)|]
    ensures |Clean(line)| < |line| <==> line != [] && line[|line| - 1] == '\r'
  {
    assert line[..|line|] == line;
  }

  lemma TargetWithin(source: string, pos: Position)
    ensures Target(source, pos) <= |source|
  {
    var lines := Lines(source);
    if pos.line < |lines| {
      CleanPrefix(lines[pos.line]);
      PlaceOf(source, pos.line, Column(Clean(lines[pos.line]), pos.character));
    }
  }

  lemma LineAndNewline(source: string, from: nat, to: nat)
    requires from < to <= |source| && source[to - 1] == '\n'
    ensures ByteLen(source[..to]) == ByteLen(source[..from]) + ByteLen(source[from..to - 1]) + 1
  {
    assert source[..to][..to - 1] == source[..to - 1] == source[..from] + source[from..to - 1];
    Joins(source[..from], source[from..to - 1]);
  }

  lemma {:induction false} BeginBytes(source: string, l: nat)
    requires l < |Lines(source)|
    ensures Begin(Lines(source), l) <= |source|
    ensures ByteLen(source[..Begin(Lines(source), l)]) == LineBytes(Lines(source), l)
  {
    var lines := Lines(source);
    PlaceOf(source, l, 0);
    if l > 0 {
      var from, to := Begin(lines, l - 1), Begin(lines, l);
      BeginBytes(source, l - 1);
      PlaceOf(source, l - 1, |lines[l - 1]|);
      assert source[from..to - 1] == lines[l - 1][..|lines[l - 1]|] == lines[l - 1];
      LineAndNewline(source, from, to);
    }
  }

  lemma TargetBytes(source: string, pos: Position)
    requires pos.line < |Lines(source)|
    ensures
      var clean := Clean(Lines(source)[pos.line]);
      && Target(source, pos) <= |source|
      && ByteLen(source[..Target(source, pos)])
           == LineBytes(Lines(source), pos.line) + ByteLen(clean[..Column(clean, pos.character)])
  {
    hide Lines, ByteLen, LineBytes, Begin, Newlines, LineStart, Clean, Column;
    var lines := Lines(source);
    var clean, from := Clean(lines[pos.line]), Begin(lines, pos.line);
    var j := Column(clean, pos.character);
    CleanPrefix(lines[pos.line]);
    PlaceOf(source, pos.line, j);
    BeginBytes(source, pos.line);
    assert source[..from + j] == source[..from] + source[from..from + j];
    assert lines[pos.line][..j] == clean[..j];
    Joins(source[..from], clean[..j]);
  }

  /** Out of range: past the lines the end of the source, past a line the end of its clean part. */
  lemma TargetClamped(source: string, pos: Position)
    ensures pos.line >= |Lines(source)| ==> Target(source, pos) == |source|
    ensures pos.line < |Lines(source)| && Utf16Width(Clean(Lines(source)[pos.line])) <= pos.character ==>
      Target(source, pos) == Begin(Lines(source), pos.line) + |Clean(Lines(source)[pos.line])|
  {
    if pos.line < |Lines(source)| {
      var clean := Clean(Lines(source)[pos.line]);
      if clean != [] {
        WidthGrows(clean, |clean| - 1, |clean|);
        assert clean[..|clean|] == clean;
      }
    }
  }

  /** In range of a line it is the first place whose width reaches the character. */
  lemma ColumnLeast(line: string, character: nat)
    ensures Column(line, character) < |line| ==> Utf16Width(line[..Column(line, character)]) >= character
    ensures forall i | 0 <= i < Column(line, character) :: Utf16Width(line[..i]) < character
  {
    ColumnReaches(line, character);
    var j := Column(line, character);
    forall i | 0 <= i < j ensures Utf16Width(line[..i]) < character {
      if i < j - 1 { WidthGrows(line, i, j - 1); }
    }
  }

  lemma {:induction false} ColumnReaches(line: string, character: nat)
    ensures
      var j := Column(line, character);
      && (j < |line| ==> Utf16Width(line[..j]) >= character)
      && (j > 0 ==> Utf16Width(line[..j - 1]) < character)
  {
    if line != [] && character <= Utf16Width(line[..|line| - 1]) {
      var front := line[..|line| - 1];
      ColumnReaches(front, character);
      var j := Column(front, character);
      assert front[..j] == line[..j] && (j > 0 ==> front[..j - 1] == line[..j - 1]);
      assert front[..|front|] == front;
    }
  }

  /** An offset past the end counts as the end. */
  lemma OffsetClamped(source: string, offset: nat)
    requires offset >= ByteLen(source)
    ensures IsBoundary(source, ByteLen(source))
    ensures ByteOffsetToPosition(source, offset) == ByteOffsetToPosition(source, ByteLen(source))
  {
    assert source[..|source|] == source;
  }

  // --- The two conversions undo each other ---

  /** Just after a carriage return that ends its line. */
  predicate AfterTrailingCr(source: string, k: nat)
    requires k <= |source|
  {
    k > 0 && source[k - 1] == '\r' && (k == |source| || source[k] == '\n')
  }

  lemma PositionOfPrefix(source: string, l: nat, j: nat, k: nat)
    requires Placed(source, l, j, k)
    ensures IsBoundary(source, ByteLen(source[..k])) && ByteLen(source[..k]) <= ByteLen(source)
    ensures ByteOffsetToPosition(source, ByteLen(source[..k])) == Position(l, Utf16Width(Lines(source)[l][..j]))
  {
    PrefixBytes(source, k, |source|);
    assert source[..|source|] == source;
    CharIndexOfPrefix(source, k);
    assert source[..k][Begin(Lines(source), l)..] == source[Begin(Lines(source), l)..k];
  }

  /** A column past a trailing carriage return is pulled back to the end of the clean line. */
  lemma ColumnPastClean(line: string)
    requires |Clean(line)| < |line|
    ensures Column(Clean(line), Utf16Width(line)) == |Clean(line)|
  {
    var clean := Clean(line);
    assert Utf16Width(clean) < Utf16Width(line);
    if clean != [] {
      WidthGrows(clean, |clean| - 1, |clean|);
      assert clean[..|clean|] == clean;
    }
    ColumnIs(clean, Utf16Width(line), |clean|);
  }

  lemma ColumnBack(line: string, j: nat)
    requires j <= |line|
    ensures Column(Clean(line), Utf16Width(line[..j])) == if j <= |Clean(line)| then j else |Clean(line)|
    ensures |Clean(line)| <= |line| <= |Clean(line)| + 1
  {
    CleanPrefix(line);
    if j <= |Clean(line)| {
      assert line[..j] == Clean(line)[..j];
      ColumnOfWidth(Clean(line), j);
    } else {
      ColumnPastClean(line);
      assert line[..j] == line;
    }
  }

  /**
   Offset to position and back: the identity at every code point boundary except just after a carriage
   return that ends its line, where it falls back by that one byte.
   */
  lemma OffsetRoundTrip(source: string, k: nat)
    requires k <= |source|
    ensures IsBoundary(source, ByteLen(source[..k])) && ByteLen(source[..k]) <= ByteLen(source)
    ensures Target(source, ByteOffsetToPosition(source, ByteLen(source[..k])))
         == if AfterTrailingCr(source, k) then k - 1 else k
  {
    var l, j := LineOf(source, k);
    PositionOfPrefix(source, l, j, k);
    ColumnBack(Lines(source)[l], j);
    TrailingCrInLine(source, l, j, k);
  }

  /** The exceptional places are those past the clean part of their line. */
  lemma TrailingCrInLine(source: string, l: nat, j: nat, k: nat)
    requires Placed(source, l, j, k)
    ensures AfterTrailingCr(source, k) <==> j > |Clean(Lines(source)[l])|
  {
    var line, from := Lines(source)[l], Begin(Lines(source), l);
    CleanPrefix(line);
    if j > 0 {
      assert source[k - 1] == source[from..k][j - 1] == line[j - 1];
    } else if k > 0 {
      BeforeLine(source, l, k);
    }
  }

  lemma {:induction false} LineStartNewline(s: string)
    ensures LineStart(s) <= |s|
    ensures LineStart(s) > 0 ==> s[LineStart(s) - 1] == '\n'
  {
    if s != [] && s[|s| - 1] != '\n' { LineStartNewline(s[..|s| - 1]); }
  }

  lemma BeforeLine(source: string, l: nat, k: nat)
    requires Placed(source, l, 0, k) && k > 0
    ensures source[k - 1] == '\n'
  {
    LineStartNewline(source[..k]);
  }

  /** A line the source has, and a column that falls between two code points of its clean part. */
  ghost predicate InRange(source: string, pos: Position) {
    && pos.line < |Lines(source)|
    && var line := Clean(Lines(source)[pos.line]);
       exists j :: 0 <= j <= |line| && Utf16Width(line[..j]) == pos.character
  }

  /** Position to offset and back is the identity on exactly the positions in range. */
  lemma PositionRoundTrip(source: string, pos: Position)
    ensures Target(source, pos) <= |source|
    ensures IsBoundary(source, ByteLen(source[..Target(source, pos)]))
      && ByteLen(source[..Target(source, pos)]) <= ByteLen(source)
    ensures ByteOffsetToPosition(source, ByteLen(source[..Target(source, pos)])) == pos <==> InRange(source, pos)
  {
    hide Lines, ByteLen, Begin, Newlines, LineStart, Utf16Width, Clean, Column, ByteOffsetToPosition, IsBoundary;
    TargetWithin(source, pos);
    var k := Target(source, pos);
    if pos.line < |Lines(source)| {
      var line := Lines(source)[pos.line];
      var j := Column(Clean(line), pos.character);
      CleanPrefix(line);
      PlaceOf(source, pos.line, j);
      PositionOfPrefix(source, pos.line, j, k);
      assert line[..j] == Clean(line)[..j];
      if i :| 0 <= i <= |Clean(line)| && Utf16Width(Clean(line)[..i]) == pos.character {
        ColumnOfWidth(Clean(line), i);
      }
    } else {
      var l, j := LineOf(source, k);
      PositionOfPrefix(source, l, j, k);
    }
  }
}
