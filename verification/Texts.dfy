/** Text as code points, with the widths of its UTF-8 and UTF-16 forms and its division into lines. */
module Texts {
  /** Bytes of a code point in UTF-8 (section 3 of RFC 3629). */
  function Utf8Len(c: char): nat {
    if c as int < 0x80 then 1 else if c as int < 0x800 then 2 else if c as int < 0x10000 then 3 else 4
  }

  /** Code units of a code point in UTF-16 (section 2 of RFC 2781). */
  function Utf16Len(c: char): nat {
    if c as int < 0x10000 then 1 else 2
  }

  function ByteLen(s: string): nat {
    if s == [] then 0 else ByteLen(s[..|s| - 1]) + Utf8Len(s[|s| - 1])
  }

  function Utf16Width(s: string): nat {
    if s == [] then 0 else Utf16Width(s[..|s| - 1]) + Utf16Len(s[|s| - 1])
  }

  function Newlines(s: string): nat {
    if s == [] then 0 else Newlines(s[..|s| - 1]) + if s[|s| - 1] == '\n' then 1 else 0
  }

  /** Where the last line begins: just after the last newline, if there is one. */
  function LineStart(s: string): nat {
    if s == [] then 0 else if s[|s| - 1] == '\n' then |s| else LineStart(s[..|s| - 1])
  }

  lemma {:induction false} Joins(s: string, t: string)
    ensures ByteLen(s + t) == ByteLen(s) + ByteLen(t)
    ensures Utf16Width(s + t) == Utf16Width(s) + Utf16Width(t)
    ensures Newlines(s + t) == Newlines(s) + Newlines(t)
    ensures LineStart(s + t) == if Newlines(t) > 0 then |s| + LineStart(t) else LineStart(s)
  {
    if t == [] {
      assert s + t == s;
    } else {
      var front := t[..|t| - 1];
      Joins(s, front);
      assert (s + t)[..|s + t| - 1] == s + front;
      LineStartNoNewline(front);
    }
  }

  lemma {:induction false} LineStartNoNewline(s: string)
    ensures LineStart(s) <= |s|
    ensures Newlines(s) == 0 ==> LineStart(s) == 0
  {
    if s != [] { LineStartNoNewline(s[..|s| - 1]); }
  }

  lemma One(c: char)
    ensures ByteLen([c]) == Utf8Len(c) && Utf16Width([c]) == Utf16Len(c)
    ensures Newlines([c]) == (if c == '\n' then 1 else 0) && LineStart([c]) == if c == '\n' then 1 else 0
  {
    assert [c][..0] == [];
  }

  /** Byte lengths of prefixes tell the prefixes apart. */
  lemma PrefixBytes(s: string, i: nat, j: nat)
    requires i <= j <= |s|
    ensures ByteLen(s[..i]) + (j - i) <= ByteLen(s[..j])
  {
    assert s[..j] == s[..i] + s[i..j];
    Joins(s[..i], s[i..j]);
    AtLeastOneByteEach(s[i..j]);
  }

  lemma {:induction false} AtLeastOneByteEach(s: string)
    ensures |s| <= ByteLen(s)
  {
    if s != [] { AtLeastOneByteEach(s[..|s| - 1]); }
  }

  /** The characters trimming removes. */
  predicate IsBlank(c: char) {
    var u := c as int;
    || 0x9 <= u <= 0xD || u == 0x20 || u == 0x85 || u == 0xA0 || u == 0x1680
    || 0x2000 <= u <= 0x200A || u == 0x2028 || u == 0x2029 || u == 0x202F || u == 0x205F || u == 0x3000
  }

  predicate AllBlank(s: string) { forall c | c in s :: IsBlank(c) }

  // --- Lines ---

  /** The pieces between newlines, as splitting at `'\n'` gives them. */
  function Lines(s: string): (lines: seq<string>)
    ensures lines != []
  {
    if s == [] then [[]]
    else
      var lines := Lines(s[1..]);
      if s[0] == '\n' then [[]] + lines else [[s[0]] + lines[0]] + lines[1..]
  }

  /** Where line `l` begins. */
  function Begin(lines: seq<string>, l: nat): nat
    requires l <= |lines|
  {
    if l == 0 then 0 else Begin(lines, l - 1) + |lines[l - 1]| + 1
  }

  lemma BeginZero(lines: seq<string>)
    ensures Begin(lines, 0) == 0
  {
  }

  /** Without the carriage return that ends it, if one does. */
  function Clean(line: string): string {
    if line != [] && line[|line| - 1] == '\r' then line[..|line| - 1] else line
  }

  lemma {:induction false} BeginShifts(head: string, lines: seq<string>, l: nat)
    requires l <= |lines|
    ensures Begin([head] + lines, l + 1) == |head| + 1 + Begin(lines, l)
  {
    if l > 0 {
      BeginShifts(head, lines, l - 1);
      assert ([head] + lines)[l] == lines[l - 1];
    }
  }

  lemma {:induction false} BeginLonger(c: char, lines: seq<string>, l: nat)
    requires 0 < l <= |lines|
    ensures Begin([[c] + lines[0]] + lines[1..], l) == 1 + Begin(lines, l)
  {
    var longer := [[c] + lines[0]] + lines[1..];
    if l > 1 {
      BeginLonger(c, lines, l - 1);
      assert longer[l - 1] == lines[l - 1];
    } else {
      assert Begin(longer, 0) == 0 == Begin(lines, 0);
      assert |longer[0]| == 1 + |lines[0]|;
    }
  }

  /** The place `j` characters into line `l` of a text, seen from the whole text. */
  ghost predicate Placed(s: string, l: nat, j: nat, k: nat) {
    var lines := Lines(s);
    && l < |lines| && j <= |lines[l]| && k == Begin(lines, l) + j <= |s|
    && Newlines(s[..k]) == l && LineStart(s[..k]) == Begin(lines, l)
    && s[Begin(lines, l)..k] == lines[l][..j]
    && (j == |lines[l]| <==> (k == |s| || s[k] == '\n'))
  }

  /** One more character in front. */
  lemma PrefixCons(s: string, k: nat)
    requires s != [] && 0 < k <= |s|
    ensures Newlines(s[..k]) == Newlines(s[1..][..k - 1]) + if s[0] == '\n' then 1 else 0
    ensures LineStart(s[..k]) == if Newlines(s[1..][..k - 1]) > 0 then 1 + LineStart(s[1..][..k - 1])
                                 else if s[0] == '\n' then 1 else 0
  {
    var tail := s[1..][..k - 1];
    assert s[..k] == [s[0]] + tail;
    Joins([s[0]], tail);
    One(s[0]);
  }

  lemma PlacedAtStart(s: string)
    ensures Placed(s, 0, 0, 0)
  {
    assert s[..0] == [];
    if s != [] && s[0] != '\n' { assert |Lines(s)[0]| > 0; }
  }

  lemma PlacedAfterNewline(s: string, l: nat, j: nat, k: nat)
    requires s != [] && s[0] == '\n' && Placed(s[1..], l, j, k)
    ensures Placed(s, l + 1, j, k + 1)
  {
    hide Newlines, LineStart, Begin;
    var rest := s[1..];
    BeginShifts([], Lines(rest), l);
    PrefixCons(s, k + 1);
    LineStartNoNewline(rest[..k]);
    assert s[Begin(Lines(s), l + 1)..k + 1] == rest[Begin(Lines(rest), l)..k];
  }

  lemma PlacedAfterOther(s: string, l: nat, j: nat, k: nat)
    requires s != [] && s[0] != '\n' && Placed(s[1..], l, j, k)
    ensures Placed(s, l, if l == 0 then j + 1 else j, k + 1)
  {
    hide Newlines, LineStart, Begin;
    var rest := s[1..];
    var lines := Lines(rest);
    BeginZero(lines);
    BeginZero(Lines(s));
    PrefixCons(s, k + 1);
    if l == 0 {
      assert s[0..k + 1] == [s[0]] + rest[0..k];
      assert Lines(s)[0][..j + 1] == [s[0]] + lines[0][..j];
    } else {
      BeginLonger(s[0], lines, l);
      assert Lines(s) == [[s[0]] + lines[0]] + lines[1..];
      assert Begin(Lines(s), l) == 1 + Begin(lines, l);
      assert s[Begin(Lines(s), l)..k + 1] == rest[Begin(lines, l)..k];
    }
  }

  /** Every place in a line is a place in the text. */
  lemma {:induction false} PlaceOf(s: string, l: nat, j: nat)
    requires l < |Lines(s)| && j <= |Lines(s)[l]|
    ensures Placed(s, l, j, Begin(Lines(s), l) + j)
  {
    hide Placed, Begin;
    BeginZero(Lines(s));
    if l == 0 && j == 0 {
      PlacedAtStart(s);
    } else if s[0] == '\n' {
      PlaceOf(s[1..], l - 1, j);
      BeginShifts([], Lines(s[1..]), l - 1);
      PlacedAfterNewline(s, l - 1, j, Begin(Lines(s[1..]), l - 1) + j);
    } else if l == 0 {
      BeginZero(Lines(s[1..]));
      PlaceOf(s[1..], 0, j - 1);
      PlacedAfterOther(s, 0, j - 1, j - 1);
    } else {
      PlaceOf(s[1..], l, j);
      BeginLonger(s[0], Lines(s[1..]), l);
      PlacedAfterOther(s, l, j, Begin(Lines(s[1..]), l) + j);
    }
  }

  /** Every place in a text is a place in one of its lines. */
  lemma {:induction false} LineOf(s: string, k: nat) returns (l: nat, j: nat)
    requires k <= |s|
    ensures Placed(s, l, j, k)
  {
    hide Placed;
    if k == 0 {
      l, j := 0, 0;
      PlacedAtStart(s);
    } else {
      l, j := LineOf(s[1..], k - 1);
      if s[0] == '\n' {
        PlacedAfterNewline(s, l, j, k - 1);
        l := l + 1;
      } else {
        PlacedAfterOther(s, l, j, k - 1);
        j := if l == 0 then j + 1 else j;
      }
    }
  }
}
