/**
 Error-recovering parsing: cutting a source into statements at top-level semicolons, and moving the
 diagnostics of a piece back to where they stand in the whole source. Places are counted in code points;
 the lexer's spans fall between code points.
 */
module Recovery {
  import opened Texts

  datatype TokenKind = OpenBrace | CloseBrace | Semicolon | OtherToken

  datatype Token = Token(kind: TokenKind, start: nat, len: nat)

  datatype Chunk = Chunk(start: nat, end: nat)

  const MAX_BYTES: nat := 0xFFFF_FFFF

  function End(t: Token): nat { t.start + t.len }

  /** What a lexer promises: spans in order, apart, and inside the source. */
  ghost predicate WellSpanned(source: string, tokens: seq<Token>) {
    && (forall t | t in tokens :: End(t) <= |source| && (t.kind == Semicolon ==> t.len > 0))
    && (forall i, j | 0 <= i < j < |tokens| :: End(tokens[i]) <= tokens[j].start)
  }

  /** Open braces before a token; a stray closing brace does not go below zero. */
  function Depth(tokens: seq<Token>): nat {
    if tokens == [] then 0
    else
      var d := Depth(tokens[..|tokens| - 1]);
      match tokens[|tokens| - 1].kind
      case OpenBrace => d + 1
      case CloseBrace => if d > 0 then d - 1 else 0
      case _ => d
  }

  /** Open braces less closing ones. */
  function Balance(tokens: seq<Token>): int {
    if tokens == [] then 0
    else
      Balance(tokens[..|tokens| - 1])
        + match tokens[|tokens| - 1].kind case OpenBrace => 1 case CloseBrace => -1 case _ => 0
  }

  /** The depth is the most by which the open braces behind any place outnumber the closing ones. */
  lemma {:induction false} DepthIsUnclosed(tokens: seq<Token>) returns (k: nat)
    ensures k <= |tokens| && Balance(tokens[k..]) == Depth(tokens)
    ensures forall j | 0 <= j <= |tokens| :: Balance(tokens[j..]) <= Depth(tokens)
  {
    if tokens == [] {
      k := 0;
    } else {
      var n := |tokens| - 1;
      k := DepthIsUnclosed(tokens[..n]);
      forall j | 0 <= j <= n ensures tokens[j..][..n - j] == tokens[..n][j..] && tokens[j..][n - j] == tokens[n] {
      }
      if tokens[n].kind == CloseBrace && Depth(tokens[..n]) == 0 {
        k := |tokens|;
      }
    }
  }

  /** Token `i` is a semicolon outside all braces. */
  predicate Separator(tokens: seq<Token>, i: nat)
    requires i < |tokens|
  {
    tokens[i].kind == Semicolon && Depth(tokens[..i]) == 0
  }

  ghost predicate InSeparator(tokens: seq<Token>, k: nat) {
    exists i :: 0 <= i < |tokens| && Separator(tokens, i) && tokens[i].start <= k < End(tokens[i])
  }

  predicate Inside(c: Chunk, k: nat) { c.start <= k < c.end }

  ghost predicate InSomeChunk(chunks: seq<Chunk>, k: nat) {
    exists c :: c in chunks && Inside(c, k)
  }

  ghost predicate Disjoint(chunks: seq<Chunk>, limit: nat) {
    && (forall c | c in chunks :: c.start < c.end <= limit)
    && (forall i, j | 0 <= i < j < |chunks| :: chunks[i].end <= chunks[j].start)
  }

  ghost predicate HoldsSeparator(tokens: seq<Token>, chunks: seq<Chunk>) {
    exists k: nat :: InSomeChunk(chunks, k) && InSeparator(tokens, k)
  }

  /** Nothing but separators, back to back from the start, and blanks behind them. */
  ghost predicate OnlySeparators(source: string, tokens: seq<Token>) {
    && !AllBlank(source)
    && forall k | 0 <= k < |source| ::
         InSeparator(tokens, k) || (IsBlank(source[k]) && forall j | k < j < |source| :: !InSeparator(tokens, j))
  }

  /** At the start of the source or just behind a separator. */
  ghost predicate AfterSeparator(tokens: seq<Token>, k: nat) {
    k == 0 || InSeparator(tokens, k - 1)
  }

  /** Each chunk runs from a separator or the start to a separator or the end. */
  ghost predicate AtSeparators(source: string, tokens: seq<Token>, chunks: seq<Chunk>) {
    forall c | c in chunks :: AfterSeparator(tokens, c.start) && (c.end == |source| || InSeparator(tokens, c.end))
  }

  /** The state of the scan after some tokens: `from` is where the next chunk begins. */
  ghost predicate Scanned(source: string, tokens: seq<Token>, n: nat, chunks: seq<Chunk>, from: nat) {
    && n <= |tokens| && from <= |source| && Disjoint(chunks, from)
    && (forall i | 0 <= i < n && Separator(tokens, i) :: End(tokens[i]) <= from)
    && (from > 0 ==> exists i :: 0 <= i < n && Separator(tokens, i) && End(tokens[i]) == from)
    && (forall k | 0 <= k < from :: InSeparator(tokens, k) <==> !InSomeChunk(chunks, k))
  }

  lemma InSomeChunkAppend(chunks: seq<Chunk>, c: Chunk, k: nat)
    ensures InSomeChunk(chunks + [c], k) <==> InSomeChunk(chunks, k) || Inside(c, k)
  {
    if Inside(c, k) { assert c in chunks + [c]; }
    if InSomeChunk(chunks, k) {
      var d :| d in chunks && Inside(d, k);
      assert d in chunks + [c];
    }
  }

  /** Between two separators no character belongs to one. */
  lemma GapIsClear(source: string, tokens: seq<Token>, n: nat, chunks: seq<Chunk>, from: nat, k: nat)
    requires WellSpanned(source, tokens) && Scanned(source, tokens, n, chunks, from)
    requires from <= k && (n < |tokens| ==> k < tokens[n].start)
    ensures !InSeparator(tokens, k)
  {
    assert forall i | n < i < |tokens| :: End(tokens[n]) <= tokens[i].start;
  }

  lemma SeparatorStep(source: string, tokens: seq<Token>, n: nat, chunks: seq<Chunk>, from: nat)
    requires WellSpanned(source, tokens) && Scanned(source, tokens, n, chunks, from)
    requires n < |tokens| && Separator(tokens, n)
    ensures from <= tokens[n].start
    ensures Scanned(source, tokens, n + 1, Grown(chunks, from, tokens[n].start), End(tokens[n]))
  {
    var t := tokens[n];
    assert t in tokens;
    SeparatorAhead(source, tokens, n, chunks, from);
    forall k | 0 <= k < End(t) ensures InSeparator(tokens, k) <==> !InSomeChunk(Grown(chunks, from, t.start), k) {
      SeparatorStepAt(source, tokens, n, chunks, from, k);
    }
  }

  function Grown(chunks: seq<Chunk>, from: nat, to: nat): seq<Chunk> {
    if from < to then chunks + [Chunk(from, to)] else chunks
  }

  lemma SeparatorAhead(source: string, tokens: seq<Token>, n: nat, chunks: seq<Chunk>, from: nat)
    requires WellSpanned(source, tokens) && Scanned(source, tokens, n, chunks, from) && n < |tokens|
    ensures from <= tokens[n].start
  {
    assert forall i | 0 <= i < n :: End(tokens[i]) <= tokens[n].start;
  }

  lemma SeparatorStepAt(source: string, tokens: seq<Token>, n: nat, chunks: seq<Chunk>, from: nat, k: nat)
    requires WellSpanned(source, tokens) && Scanned(source, tokens, n, chunks, from)
    requires n < |tokens| && Separator(tokens, n) && from <= tokens[n].start && k < End(tokens[n])
    ensures InSeparator(tokens, k) <==> !InSomeChunk(Grown(chunks, from, tokens[n].start), k)
  {
    InSomeChunkAppend(chunks, Chunk(from, tokens[n].start), k);
    if k >= from {
      NotInEarlier(chunks, from, k);
      if k < tokens[n].start { GapIsClear(source, tokens, n, chunks, from, k); }
    }
  }

  lemma NotInEarlier(chunks: seq<Chunk>, limit: nat, k: nat)
    requires Disjoint(chunks, limit) && k >= limit
    ensures !InSomeChunk(chunks, k)
  {
  }

  lemma OtherStep(source: string, tokens: seq<Token>, n: nat, chunks: seq<Chunk>, from: nat)
    requires Scanned(source, tokens, n, chunks, from)
    requires n < |tokens| && !Separator(tokens, n)
    ensures Scanned(source, tokens, n + 1, chunks, from)
  {
  }

  lemma NothingScanned(source: string, tokens: seq<Token>)
    ensures Scanned(source, tokens, 0, [], 0) && AtSeparators(source, tokens, [])
  {
  }

  lemma SeparatorIs(tokens: seq<Token>, n: nat)
    requires n < |tokens|
    ensures Separator(tokens, n) <==> tokens[n].kind == Semicolon && Depth(tokens[..n]) == 0
  {
  }

  /** What a cut must be: cut at separators only, and otherwise the source without its separators. */
  ghost predicate IsCut(source: string, tokens: seq<Token>, chunks: seq<Chunk>) {
    AtSeparators(source, tokens, chunks) && Covers(source, tokens, chunks)
  }

  /** Chunks in order and apart, nothing lost, and no separator kept. */
  ghost predicate Covers(source: string, tokens: seq<Token>, chunks: seq<Chunk>) {
    && Disjoint(chunks, |source|)
    && (forall k | 0 <= k < |source| && !IsBlank(source[k]) && !InSeparator(tokens, k) :: InSomeChunk(chunks, k))
    && (HoldsSeparator(tokens, chunks) <==> OnlySeparators(source, tokens))
  }

  /**
   Cut the source at top-level semicolons. Chunks are in order and apart, every non-blank character outside
   a separator is in one, and none holds a separator unless the source is nothing but separators.
   */
  method SplitIntoChunks(source: string, tokens: seq<Token>) returns (chunks: seq<Chunk>)
    requires WellSpanned(source, tokens)
    ensures ByteLen(source) <= MAX_BYTES ==> IsCut(source, tokens, chunks)
    ensures ByteLen(source) > MAX_BYTES ==> chunks == [Chunk(0, |source|)]
    ensures forall c | c in chunks :: c.start <= c.end <= |source|
  {
    if ByteLen(source) > MAX_BYTES {
      return [Chunk(0, |source|)];
    }
    hide Scanned, AtSeparators, Separator;
    chunks := [];
    NothingScanned(source, tokens);
    var chunkStart: nat := 0;
    var braceDepth: nat := 0;
    for n := 0 to |tokens|
      invariant braceDepth == Depth(tokens[..n])
      invariant Scanned(source, tokens, n, chunks, chunkStart) && AtSeparators(source, tokens, chunks)
    {
      var t := tokens[n];
      assert tokens[..n + 1][..n] == tokens[..n];
      SeparatorIs(tokens, n);
      if t.kind == Semicolon && braceDepth == 0 {
        SeparatorStep(source, tokens, n, chunks, chunkStart);
        CutAtSeparator(source, tokens, n, chunks, chunkStart);
        ghost var grown := Grown(chunks, chunkStart, t.start);
        if chunkStart < t.start {
          chunks := chunks + [Chunk(chunkStart, t.start)];
        }
        chunkStart := t.start + t.len;
        assert chunks == grown;
      } else {
        OtherStep(source, tokens, n, chunks, chunkStart);
        match t.kind {
          case OpenBrace => braceDepth := braceDepth + 1;
          case CloseBrace => braceDepth := if braceDepth > 0 then braceDepth - 1 else 0;
          case _ =>
        }
      }
    }
    assert tokens[..|tokens|] == tokens;
    chunks := Finish(source, tokens, chunks, chunkStart);
  }

  /** The last chunk, and the whole source when there is no other. */
  method Finish(source: string, ghost tokens: seq<Token>, scanned: seq<Chunk>, chunkStart: nat)
    returns (chunks: seq<Chunk>)
    requires WellSpanned(source, tokens) && Scanned(source, tokens, |tokens|, scanned, chunkStart)
    requires AtSeparators(source, tokens, scanned)
    ensures IsCut(source, tokens, chunks)
    ensures forall c | c in chunks :: c.start <= c.end <= |source|
  {
    hide Scanned, Covers, AfterSeparator, InSeparator;
    chunks := scanned;
    ScanPausesAfterSeparator(source, tokens, |tokens|, scanned, chunkStart);
    if chunkStart < |source| && !AllBlank(source[chunkStart..]) {
      chunks := chunks + [Chunk(chunkStart, |source|)];
      RestIsChunk(source, tokens, scanned, chunkStart);
      CoversWithin(source, tokens, chunks);
      return;
    }
    if chunks == [] && !AllBlank(source) {
      chunks := chunks + [Chunk(0, |source|)];
      NothingElse(source, tokens, chunkStart);
      assert chunks == [Chunk(0, |source|)];
      StartIsAfterSeparator(tokens);
      CoversWithin(source, tokens, chunks);
      return;
    }
    RestIsBlank(source, tokens, scanned, chunkStart);
    CoversWithin(source, tokens, chunks);
  }

  lemma CoversWithin(source: string, tokens: seq<Token>, chunks: seq<Chunk>)
    requires Covers(source, tokens, chunks)
    ensures forall c | c in chunks :: c.start <= c.end <= |source|
  {
  }

  lemma StartIsAfterSeparator(tokens: seq<Token>)
    ensures AfterSeparator(tokens, 0)
  {
  }

  lemma ScanPausesAfterSeparator(source: string, tokens: seq<Token>, n: nat, chunks: seq<Chunk>, from: nat)
    requires WellSpanned(source, tokens) && Scanned(source, tokens, n, chunks, from)
    ensures AfterSeparator(tokens, from) && from <= |source|
  {
    if from > 0 {
      var i :| 0 <= i < n && Separator(tokens, i) && End(tokens[i]) == from;
      assert tokens[i] in tokens;
    }
  }

  lemma CutAtSeparator(source: string, tokens: seq<Token>, n: nat, chunks: seq<Chunk>, from: nat)
    requires WellSpanned(source, tokens) && Scanned(source, tokens, n, chunks, from)
    requires AtSeparators(source, tokens, chunks) && n < |tokens| && Separator(tokens, n)
    ensures AtSeparators(source, tokens, Grown(chunks, from, tokens[n].start))
  {
    ScanPausesAfterSeparator(source, tokens, n, chunks, from);
    assert tokens[n] in tokens;
    assert InSeparator(tokens, tokens[n].start);
  }

  lemma RestCovers(source: string, tokens: seq<Token>, scanned: seq<Chunk>, from: nat)
    requires WellSpanned(source, tokens) && Scanned(source, tokens, |tokens|, scanned, from)
    requires from < |source|
    ensures
      var chunks := scanned + [Chunk(from, |source|)];
      forall k | 0 <= k < |source| :: InSomeChunk(chunks, k) <==> !InSeparator(tokens, k)
  {
    var chunks := scanned + [Chunk(from, |source|)];
    forall k | 0 <= k < |source| ensures InSomeChunk(chunks, k) <==> !InSeparator(tokens, k) {
      InSomeChunkAppend(scanned, Chunk(from, |source|), k);
      if k >= from {
        GapIsClear(source, tokens, |tokens|, scanned, from, k);
        NotInEarlier(scanned, from, k);
      }
    }
  }

  lemma RestIsChunk(source: string, tokens: seq<Token>, scanned: seq<Chunk>, from: nat)
    requires WellSpanned(source, tokens) && Scanned(source, tokens, |tokens|, scanned, from)
    requires from < |source| && !AllBlank(source[from..])
    ensures Covers(source, tokens, scanned + [Chunk(from, |source|)])
  {
    var chunks := scanned + [Chunk(from, |source|)];
    RestCovers(source, tokens, scanned, from);
    ChunksWithin(chunks, |source|);
    var k :| from <= k < |source| && !IsBlank(source[k]);
    GapIsClear(source, tokens, |tokens|, scanned, from, k);
  }

  lemma ChunksWithin(chunks: seq<Chunk>, limit: nat)
    requires Disjoint(chunks, limit)
    ensures forall k: nat | InSomeChunk(chunks, k) :: k < limit
  {
  }

  lemma RestIsBlank(source: string, tokens: seq<Token>, scanned: seq<Chunk>, from: nat)
    requires WellSpanned(source, tokens) && Scanned(source, tokens, |tokens|, scanned, from)
    requires from == |source| || AllBlank(source[from..])
    requires scanned != [] || AllBlank(source)
    ensures Covers(source, tokens, scanned)
  {
    forall k | from <= k < |source| ensures IsBlank(source[k]) { assert source[k] == source[from..][k - from]; }
    ChunksWithin(scanned, from);
    if scanned != [] {
      var c := scanned[0];
      assert c in scanned && Inside(c, c.start);
      assert InSomeChunk(scanned, c.start) && !InSeparator(tokens, c.start);
      SeparatorAfter(tokens, scanned, source, from, c.start);
    }
  }

  /** A separator stands behind every chunk cut off so far. */
  lemma SeparatorAfter(tokens: seq<Token>, scanned: seq<Chunk>, source: string, from: nat, k: nat)
    requires WellSpanned(source, tokens) && Scanned(source, tokens, |tokens|, scanned, from)
    requires InSomeChunk(scanned, k)
    ensures exists j :: k < j < |source| && InSeparator(tokens, j)
  {
    ChunksWithin(scanned, from);
    var i :| 0 <= i < |tokens| && Separator(tokens, i) && End(tokens[i]) == from;
    assert tokens[i] in tokens;
    var j := from - 1;
    assert InSeparator(tokens, j);
  }

  lemma NothingElse(source: string, tokens: seq<Token>, from: nat)
    requires WellSpanned(source, tokens) && Scanned(source, tokens, |tokens|, [], from)
    requires from == |source| || AllBlank(source[from..])
    requires !AllBlank(source)
    ensures Covers(source, tokens, [Chunk(0, |source|)])
  {
    var whole := Chunk(0, |source|);
    forall k | 0 <= k < |source| ensures InSomeChunk([whole], k) { assert whole in [whole] && Inside(whole, k); }
    forall k | from <= k < |source| ensures IsBlank(source[k]) && !InSeparator(tokens, k) {
      assert source[k] == source[from..][k - from];
      GapIsClear(source, tokens, |tokens|, [], from, k);
    }
    assert forall k :: !InSomeChunk([], k);
    var k :| 0 <= k < |source| && !IsBlank(source[k]);
    assert InSeparator(tokens, k);
  }

  // --- Diagnostics ---

  /** Lines and columns count from 1, columns in code points. */
  datatype Diagnostic = Diagnostic(message: string, line: nat, column: nat, endLine: nat, endColumn: nat)

  datatype Parsed<T> = Parsed(statements: seq<T>) | Broken(diagnostics: seq<Diagnostic>)

  function LineAt(s: string, k: nat): nat
    requires k <= |s|
  {
    1 + Newlines(s[..k])
  }

  function ColumnAt(s: string, k: nat): nat
    requires k <= |s|
  {
    LineStartNoNewline(s[..k]);
    1 + (k - LineStart(s[..k]))
  }

  /** The diagnostic spans the places from `k` to `e` of the text. */
  predicate Spans(d: Diagnostic, s: string, k: nat, e: nat)
    requires k <= |s| && e <= |s|
  {
    StartRight(d, s, k) && EndRight(d, s, e)
  }

  predicate StartRight(d: Diagnostic, s: string, k: nat)
    requires k <= |s|
  {
    d.line == LineAt(s, k) && d.column == ColumnAt(s, k)
  }

  predicate EndRight(d: Diagnostic, s: string, e: nat)
    requires e <= |s|
  {
    d.endLine == LineAt(s, e) && d.endColumn == ColumnAt(s, e)
  }

  /** The text between the start of its line and a place. */
  function LinePrefix(s: string, k: nat): string
    requires k <= |s|
  {
    LineStartNoNewline(s[..k]);
    s[LineStart(s[..k])..k]
  }

  /** Lines before a place, and the bytes before it on its line. */
  function LineCol(source: string, k: nat): (nat, nat)
    requires k <= |source|
  {
    (Newlines(source[..k]), ByteLen(LinePrefix(source, k)))
  }

  /** Move a diagnostic of the piece that starts at `start` to the whole source. */
  function Rebase(source: string, start: nat, d: Diagnostic): Diagnostic
    requires start <= |source|
  {
    var (baseLine, baseCol) := LineCol(source, start);
    var shifted := if d.line == 1 then d.(column := d.column + baseCol, endColumn := d.endColumn + baseCol) else d;
    shifted.(line := shifted.line + baseLine, endLine := shifted.endLine + baseLine)
  }

  predicate Ascii(s: string) { forall c | c in s :: Utf8Len(c) == 1 }

  lemma {:induction false} AsciiBytes(s: string)
    ensures ByteLen(s) == |s| <==> Ascii(s)
  {
    if s != [] {
      var front, last := s[..|s| - 1], s[|s| - 1];
      AsciiBytes(front);
      AtLeastOneByteEach(front);
      assert s == front + [last];
    }
  }

  /** A place in a piece, seen from the whole: lines add up, and columns do on the piece's first line. */
  lemma PlaceInWhole(source: string, c: Chunk, k: nat)
    requires c.start <= c.end <= |source| && k <= c.end - c.start
    ensures LineAt(source, c.start + k) == LineAt(source[c.start..c.end], k) + Newlines(source[..c.start])
    ensures ColumnAt(source, c.start + k) == ColumnAt(source[c.start..c.end], k)
      + if LineAt(source[c.start..c.end], k) == 1 then |LinePrefix(source, c.start)| else 0
  {
    var piece := source[c.start..c.end];
    assert source[..c.start + k] == source[..c.start] + piece[..k];
    Joins(source[..c.start], piece[..k]);
    LineStartNoNewline(piece[..k]);
    LineStartNoNewline(source[..c.start]);
  }

  /**
   A moved start is right iff it was not on the piece's first line or the line before the piece is ASCII: bytes
   are added to code points.
   */
  lemma RebasedStart(source: string, c: Chunk, d: Diagnostic, k: nat)
    requires c.start <= c.end <= |source| && k <= c.end - c.start
    requires StartRight(d, source[c.start..c.end], k)
    ensures Rebase(source, c.start, d).line == LineAt(source, c.start + k)
    ensures Rebase(source, c.start, d).message == d.message
    ensures StartRight(Rebase(source, c.start, d), source, c.start + k)
       <==> (d.line == 1 ==> Ascii(LinePrefix(source, c.start)))
  {
    PlaceInWhole(source, c, k);
    AsciiBytes(LinePrefix(source, c.start));
  }

  /**
   A moved end is right iff the start was not on the piece's first line, or the end is there too and the
   line before the piece is ASCII, or nothing precedes the piece on its line: the shift of the start is
   also added to an end on a later line.
   */
  lemma RebasedEnd(source: string, c: Chunk, d: Diagnostic, k: nat, e: nat)
    requires c.start <= c.end <= |source| && k <= e <= c.end - c.start
    requires Spans(d, source[c.start..c.end], k, e)
    ensures Rebase(source, c.start, d).endLine == LineAt(source, c.start + e)
    ensures EndRight(Rebase(source, c.start, d), source, c.start + e)
       <==> (d.line == 1 ==>
              if d.endLine == 1 then Ascii(LinePrefix(source, c.start)) else LinePrefix(source, c.start) == [])
  {
    var piece := source[c.start..c.end];
    PlaceInWhole(source, c, e);
    AsciiBytes(LinePrefix(source, c.start));
    AtLeastOneByteEach(LinePrefix(source, c.start));
    assert piece[..e] == piece[..k] + piece[k..e];
    Joins(piece[..k], piece[k..e]);
  }

  /**
   In an ASCII source a moved diagnostic spans the same places, unless it runs over the end of the piece's first
   line.
   */
  lemma RebasedInAscii(source: string, c: Chunk, d: Diagnostic, k: nat, e: nat)
    requires Ascii(source)
    requires c.start <= c.end <= |source| && k <= e <= c.end - c.start
    requires Spans(d, source[c.start..c.end], k, e)
    ensures StartRight(Rebase(source, c.start, d), source, c.start + k)
    ensures (d.line == 1 ==> d.endLine == 1) ==> Spans(Rebase(source, c.start, d), source, c.start + k, c.start + e)
  {
    RebasedStart(source, c, d, k);
    RebasedEnd(source, c, d, k, e);
    LineStartNoNewline(source[..c.start]);
    assert forall x | x in LinePrefix(source, c.start) :: x in source;
  }

  // --- What goes wrong ---

  lemma Short(s: string, k: nat)
    requires |s| <= 4 && k <= |s|
    ensures Newlines(s[..k]) == (if k > 0 && s[0] == '\n' then 1 else 0) + (if k > 1 && s[1] == '\n' then 1 else 0)
      + (if k > 2 && s[2] == '\n' then 1 else 0) + (if k > 3 && s[3] == '\n' then 1 else 0)
    ensures LineStart(s[..k]) ==
      if k > 3 && s[3] == '\n' then 4 else if k > 2 && s[2] == '\n' then 3
      else if k > 1 && s[1] == '\n' then 2 else if k > 0 && s[0] == '\n' then 1 else 0
    decreases k
  {
    if k > 0 {
      assert s[..k][..k - 1] == s[..k - 1];
      Short(s, k - 1);
    }
  }

  /** Behind a character of two bytes a start is moved one column too far. */
  lemma StartMovedTooFar()
    ensures
      var source, c, d := "\U{E9};x", Chunk(2, 3), Diagnostic("", 1, 1, 1, 2);
      Spans(d, source[c.start..c.end], 0, 1) && !StartRight(Rebase(source, c.start, d), source, 2)
  {
    hide Newlines, LineStart;
    var source, c, d := "\U{E9};x", Chunk(2, 3), Diagnostic("", 1, 1, 1, 2);
    var piece := source[2..3];
    Short(piece, 0);
    Short(piece, 1);
    Short(source, 2);
    assert source[0] in LinePrefix(source, 2) && Utf8Len(source[0]) == 2;
    RebasedStart(source, c, d, 0);
  }

  /** An end on a later line is moved along with a start behind other text. */
  lemma EndMovedAlong()
    ensures
      var source, c, d := ";a\nb", Chunk(1, 4), Diagnostic("", 1, 1, 2, 2);
      Spans(d, source[c.start..c.end], 0, 3) && !EndRight(Rebase(source, c.start, d), source, 4)
  {
    hide Newlines, LineStart;
    var source, c, d := ";a\nb", Chunk(1, 4), Diagnostic("", 1, 1, 2, 2);
    var piece := source[1..4];
    assert piece[1] == '\n' && piece[0] != '\n' && piece[2] != '\n';
    Short(piece, 0);
    Short(piece, 3);
    Short(source, 1);
    assert Spans(d, piece, 0, 3);
    assert |LinePrefix(source, 1)| == 1;
    RebasedEnd(source, c, d, 0, 3);
  }

  /** A lone semicolon: every cut of it holds a separator. */
  lemma LoneSeparator(chunks: seq<Chunk>)
    ensures WellSpanned(";", [Token(Semicolon, 0, 1)])
    ensures IsCut(";", [Token(Semicolon, 0, 1)], chunks) ==> HoldsSeparator([Token(Semicolon, 0, 1)], chunks)
  {
    var tokens := [Token(Semicolon, 0, 1)];
    assert tokens[..0] == [] && Separator(tokens, 0) && tokens[0].start <= 0 < End(tokens[0]);
    assert InSeparator(tokens, 0);
    assert ';' in ";" && !IsBlank(';');
  }

  // --- Parsing with recovery ---

  function RebaseAll(source: string, start: nat, ds: seq<Diagnostic>): seq<Diagnostic>
    requires start <= |source|
  {
    seq(|ds|, i requires 0 <= i < |ds| => Rebase(source, start, ds[i]))
  }

  /** The statements of one piece, if it is not blank and parses. */
  function PieceStatements<T>(source: string, parse: string -> Parsed<T>, c: Chunk): seq<T>
    requires c.start <= c.end <= |source|
  {
    var piece := source[c.start..c.end];
    if !AllBlank(piece) && parse(piece).Parsed? then parse(piece).statements else []
  }

  /** The reports of one piece, moved, if it is not blank and does not parse. */
  function PieceDiagnostics<T>(source: string, parse: string -> Parsed<T>, c: Chunk): seq<Diagnostic>
    requires c.start <= c.end <= |source|
  {
    var piece := source[c.start..c.end];
    if !AllBlank(piece) && parse(piece).Broken? then RebaseAll(source, c.start, parse(piece).diagnostics) else []
  }

  function Statements<T>(source: string, parse: string -> Parsed<T>, chunks: seq<Chunk>): seq<T>
    requires forall c | c in chunks :: c.start <= c.end <= |source|
  {
    if chunks == [] then []
    else Statements(source, parse, chunks[..|chunks| - 1]) + PieceStatements(source, parse, chunks[|chunks| - 1])
  }

  function Diagnostics<T>(source: string, parse: string -> Parsed<T>, chunks: seq<Chunk>): seq<Diagnostic>
    requires forall c | c in chunks :: c.start <= c.end <= |source|
  {
    if chunks == [] then []
    else Diagnostics(source, parse, chunks[..|chunks| - 1]) + PieceDiagnostics(source, parse, chunks[|chunks| - 1])
  }

  lemma PieceAppend<T>(source: string, parse: string -> Parsed<T>, chunks: seq<Chunk>, c: Chunk)
    requires (forall x | x in chunks :: x.start <= x.end <= |source|) && c.start <= c.end <= |source|
    ensures forall x | x in chunks + [c] :: x.start <= x.end <= |source|
    ensures Statements(source, parse, chunks + [c])
         == Statements(source, parse, chunks) + PieceStatements(source, parse, c)
    ensures Diagnostics(source, parse, chunks + [c])
         == Diagnostics(source, parse, chunks) + PieceDiagnostics(source, parse, c)
  {
    assert (chunks + [c])[..|chunks|] == chunks;
  }

  /** The pieces contribute one after another. */
  lemma {:induction false} PiecesJoin<T>(source: string, parse: string -> Parsed<T>, a: seq<Chunk>, b: seq<Chunk>)
    requires forall c | c in a + b :: c.start <= c.end <= |source|
    ensures (forall c | c in a :: c in a + b) && (forall c | c in b :: c in a + b)
    ensures Statements(source, parse, a + b) == Statements(source, parse, a) + Statements(source, parse, b)
    ensures Diagnostics(source, parse, a + b) == Diagnostics(source, parse, a) + Diagnostics(source, parse, b)
    decreases |b|
  {
    hide PieceStatements, PieceDiagnostics;
    if b == [] {
      assert a + b == a;
    } else {
      var front, last := b[..|b| - 1], b[|b| - 1];
      hide Statements, Diagnostics;
      assert a + b == a + front + [last] && b == front + [last];
      assert forall c | c in a + front :: c in a + b;
      PiecesJoin(source, parse, a, front);
      PieceAppend(source, parse, a + front, last);
      PieceAppend(source, parse, front, last);
    }
  }

  /** A piece contributes its statements or its reports, each moved, and a blank one nothing. */
  lemma OnePiece<T>(source: string, parse: string -> Parsed<T>, c: Chunk)
    requires c.start <= c.end <= |source|
    ensures
      var piece, stmts := source[c.start..c.end], Statements(source, parse, [c]);
      stmts == if AllBlank(piece) || parse(piece).Broken? then [] else parse(piece).statements
    ensures
      var piece, diags := source[c.start..c.end], Diagnostics(source, parse, [c]);
      && |diags| == (if AllBlank(piece) || parse(piece).Parsed? then 0 else |parse(piece).diagnostics|)
      && forall i | 0 <= i < |diags| :: diags[i] == Rebase(source, c.start, parse(piece).diagnostics[i])
  {
    hide Rebase, AllBlank;
    assert [c][..0] == [];
  }

  /** Statements and diagnostics are those of the pieces of a cut, or of the whole source if it is too long to cut. */
  ghost predicate Recovered<T>(source: string, tokens: seq<Token>, parse: string -> Parsed<T>, chunks: seq<Chunk>,
                               stmts: seq<T>, diags: seq<Diagnostic>) {
    && (if ByteLen(source) <= MAX_BYTES then IsCut(source, tokens, chunks) else chunks == [Chunk(0, |source|)])
    && (forall c | c in chunks :: c.start <= c.end <= |source|)
    && stmts == Statements(source, parse, chunks) && diags == Diagnostics(source, parse, chunks)
  }

  /** `d` is the diagnostic `raw` of the piece `c`, moved. */
  ghost predicate MovedFrom<T>(source: string, parse: string -> Parsed<T>, c: Chunk, raw: Diagnostic, d: Diagnostic) {
    && c.start <= c.end <= |source| && parse(source[c.start..c.end]).Broken?
    && raw in parse(source[c.start..c.end]).diagnostics && d == Rebase(source, c.start, raw)
  }

  /** Whatever places of the piece `raw` spans, `d` spans in the source. */
  ghost predicate SamePlaces(source: string, c: Chunk, raw: Diagnostic, d: Diagnostic)
    requires c.start <= c.end <= |source|
  {
    forall k: nat, e: nat | k <= e <= c.end - c.start && Spans(raw, source[c.start..c.end], k, e) ::
      Spans(d, source, c.start + k, c.start + e)
  }

  lemma {:induction false} ReportedFrom<T>(source: string, parse: string -> Parsed<T>, chunks: seq<Chunk>,
                                           d: Diagnostic)
    returns (c: Chunk, raw: Diagnostic)
    requires forall c | c in chunks :: c.start <= c.end <= |source|
    requires d in Diagnostics(source, parse, chunks)
    ensures c in chunks && MovedFrom(source, parse, c, raw, d)
  {
    var front, last := chunks[..|chunks| - 1], chunks[|chunks| - 1];
    if d in Diagnostics(source, parse, front) {
      c, raw := ReportedFrom(source, parse, front, d);
    } else {
      c := last;
      assert d in PieceDiagnostics(source, parse, c);
      var raws := parse(source[c.start..c.end]).diagnostics;
      var i :| 0 <= i < |raws| && Rebase(source, c.start, raws[i]) == d;
      raw := raws[i];
    }
  }

  /**
   In an ASCII source a report stands where its piece has it, unless it runs over the end of the piece's first
   line.
   */
  ghost predicate ReportedInPlace<T>(source: string, parse: string -> Parsed<T>, chunks: seq<Chunk>, d: Diagnostic) {
    exists c, raw ::
      && c in chunks && MovedFrom(source, parse, c, raw, d)
      && ((raw.line == 1 ==> raw.endLine == 1) ==> SamePlaces(source, c, raw, d))
  }

  lemma AsciiReports<T>(source: string, parse: string -> Parsed<T>, chunks: seq<Chunk>)
    requires Ascii(source) && forall c | c in chunks :: c.start <= c.end <= |source|
    ensures forall d | d in Diagnostics(source, parse, chunks) :: ReportedInPlace(source, parse, chunks, d)
  {
    forall d | d in Diagnostics(source, parse, chunks) ensures ReportedInPlace(source, parse, chunks, d) {
      var c, raw := ReportedFrom(source, parse, chunks, d);
      if raw.line == 1 ==> raw.endLine == 1 {
        forall k: nat, e: nat | k <= e <= c.end - c.start && Spans(raw, source[c.start..c.end], k, e)
          ensures Spans(d, source, c.start + k, c.start + e)
        {
          RebasedInAscii(source, c, raw, k, e);
        }
      }
    }
  }

  lemma BlankWhole<T>(source: string, parse: string -> Parsed<T>)
    requires AllBlank(source)
    ensures Statements(source, parse, [Chunk(0, |source|)]) == []
      && Diagnostics(source, parse, [Chunk(0, |source|)]) == []
  {
    var whole := [Chunk(0, |source|)];
    assert whole[..|whole| - 1] == [] && whole[|whole| - 1] == Chunk(0, |source|);
    assert source[0..|source|] == source;
  }

  /** A blank source yields nothing, however long. */
  lemma NothingRecovered<T>(source: string, tokens: seq<Token>, parse: string -> Parsed<T>)
    requires AllBlank(source)
    ensures exists chunks :: Recovered(source, tokens, parse, chunks, [], [])
  {
    if ByteLen(source) <= MAX_BYTES {
      assert Recovered(source, tokens, parse, [], [], []);
    } else {
      BlankWhole(source, parse);
      assert Recovered(source, tokens, parse, [Chunk(0, |source|)], [], []);
    }
  }

  /** Every piece of the cut is parsed on its own; what fails is reported where it stands in the source. */
  method ParseWithRecovery<T>(source: string, tokens: seq<Token>, parse: string -> Parsed<T>)
    returns (stmts: seq<T>, diags: seq<Diagnostic>)
    requires WellSpanned(source, tokens)
    ensures exists chunks ::
      && Recovered(source, tokens, parse, chunks, stmts, diags)
      && (Ascii(source) ==> forall d | d in diags :: ReportedInPlace(source, parse, chunks, d))
  {
    stmts, diags := [], [];
    if AllBlank(source) {
      NothingRecovered(source, tokens, parse);
      return;
    }
    var pieces := SplitIntoChunks(source, tokens);
    stmts, diags := ParseChunks(source, parse, pieces);
    if Ascii(source) { AsciiReports(source, parse, pieces); }
    assert Recovered(source, tokens, parse, pieces, stmts, diags);
  }

  method ParseChunks<T>(source: string, parse: string -> Parsed<T>, chunks: seq<Chunk>)
    returns (stmts: seq<T>, diags: seq<Diagnostic>)
    requires forall c | c in chunks :: c.start <= c.end <= |source|
    ensures stmts == Statements(source, parse, chunks) && diags == Diagnostics(source, parse, chunks)
  {
    stmts, diags := [], [];
    for i := 0 to |chunks|
      invariant stmts == Statements(source, parse, chunks[..i]) && diags == Diagnostics(source, parse, chunks[..i])
    {
      assert chunks[..i + 1][..i] == chunks[..i];
      var piece := source[chunks[i].start..chunks[i].end];
      if AllBlank(piece) {
        continue;
      }
      match parse(piece) {
        case Parsed(ast) => stmts := stmts + ast;
        case Broken(ds) => diags := diags + RebaseAll(source, chunks[i].start, ds);
      }
    }
    assert chunks[..|chunks|] == chunks;
  }
}
