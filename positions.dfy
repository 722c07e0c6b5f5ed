/** Byte offsets of clang-tidy fixes turned into LSP positions: zero-based lines
    and columns counted in UTF-16 code units.  The text is a Rust `str`, modelled as
    a sequence of Unicode scalar values whose UTF-8 bytes `Utf8` gives. */
module Positions {
  import opened Wrappers
  import opened DiagnosticTypes

  type Byte = x: int | 0 <= x < 256

  /** Number of UTF-8 bytes of one scalar value. */
  function Utf8Width(c: char): (w: nat)
    ensures 1 <= w <= 4
  {
    if c as int < 0x80 then 1
    else if c as int < 0x800 then 2
    else if c as int < 0x10000 then 3
    else 4
  }

  /** Number of UTF-16 code units of one scalar value. */
  function Utf16Width(c: char): (w: nat)
    ensures w == 1 || w == 2
    ensures w <= Utf8Width(c)
  {
    if c as int < 0x10000 then 1 else 2
  }

  /** The UTF-8 encoding of one scalar value. */
  function Encode(c: char): (b: seq<Byte>)
    ensures |b| == Utf8Width(c)
    ensures (10 in b) <==> c == '\n'
    ensures c == '\n' ==> b == [10]
  {
    var n := c as int;
    if n < 0x80 then [n]
    else if n < 0x800 then [0xC0 + n / 64, 0x80 + n % 64]
    else if n < 0x10000 then [0xE0 + n / 4096, 0x80 + (n / 64) % 64, 0x80 + n % 64]
    else [0xF0 + n / 262144, 0x80 + (n / 4096) % 64, 0x80 + (n / 64) % 64, 0x80 + n % 64]
  }

  /** The UTF-8 bytes of a text (`str::bytes`). */
  function Utf8(s: string): (b: seq<Byte>)
    ensures |b| == ByteLen(s)
  {
    if s == [] then [] else Utf8(s[..|s| - 1]) + Encode(s[|s| - 1])
  }

  /** Length of a text in UTF-8 bytes (`str::len`). */
  function ByteLen(s: string): (n: nat)
    ensures |s| <= n <= 4 * |s|
  {
    if s == [] then 0 else ByteLen(s[..|s| - 1]) + Utf8Width(s[|s| - 1])
  }

  /** Length of a text in UTF-16 code units (`encode_utf16().count()`). */
  function Utf16Len(s: string): (n: nat)
    ensures |s| <= n <= 2 * |s|
  {
    if s == [] then 0 else Utf16Len(s[..|s| - 1]) + Utf16Width(s[|s| - 1])
  }

  lemma {:induction false} ByteLenAppend(a: string, b: string)
    ensures ByteLen(a + b) == ByteLen(a) + ByteLen(b)
    decreases |b|
  {
    if b == [] {
      assert a + b == a;
    } else {
      var n := |b| - 1;
      assert (a + b)[..|a + b| - 1] == a + b[..n];
      ByteLenAppend(a, b[..n]);
    }
  }

  lemma {:induction false} Utf16LenAppend(a: string, b: string)
    ensures Utf16Len(a + b) == Utf16Len(a) + Utf16Len(b)
    decreases |b|
  {
    if b == [] {
      assert a + b == a;
    } else {
      var n := |b| - 1;
      assert (a + b)[..|a + b| - 1] == a + b[..n];
      Utf16LenAppend(a, b[..n]);
    }
  }

  /** A UTF-16 column never exceeds the byte count it was measured over: the two
      agree exactly on ASCII text. */
  lemma {:induction false} Utf16LenAtMostByteLen(s: string)
    ensures Utf16Len(s) <= ByteLen(s)
    ensures (forall i :: 0 <= i < |s| ==> s[i] as int < 0x80) ==> Utf16Len(s) == ByteLen(s) == |s|
    decreases |s|
  {
    if s != [] {
      Utf16LenAtMostByteLen(s[..|s| - 1]);
    }
  }

  /** Longer prefixes take strictly more bytes. */
  lemma ByteLenPrefixLess(s: string, i: nat, j: nat)
    requires i < j <= |s|
    ensures ByteLen(s[..i]) < ByteLen(s[..j])
  {
    assert s[..j] == s[..i] + s[i..j];
    ByteLenAppend(s[..i], s[i..j]);
  }

  /** `str::is_char_boundary`: the offset ends the encoding of some prefix. */
  ghost predicate IsCharBoundary(s: string, off: nat) {
    exists i :: 0 <= i <= |s| && ByteLen(s[..i]) == off
  }

  /** The number of scalar values whose bytes end at `off`, if `off` is a boundary. */
  function CharIndex(s: string, off: nat): (r: Option<nat>)
    ensures r.Some? ==> r.value <= |s| && ByteLen(s[..r.value]) == off
    decreases |s|
  {
    if off == ByteLen(s) then
      assert s[..|s|] == s;
      Some(|s|)
    else if s == [] || off > ByteLen(s) then None
    else
      var r := CharIndex(s[..|s| - 1], off);
      assert r.Some? ==> s[..|s| - 1][..r.value] == s[..r.value];
      r
  }

  /** `CharIndex` finds a boundary exactly when there is one, and then the only one. */
  lemma {:induction false} CharIndexSpec(s: string, off: nat)
    ensures CharIndex(s, off).Some? <==> IsCharBoundary(s, off)
    ensures forall i :: 0 <= i <= |s| && ByteLen(s[..i]) == off ==> CharIndex(s, off) == Some(i)
    decreases |s|
  {
    forall i | 0 <= i <= |s| && ByteLen(s[..i]) == off
      ensures CharIndex(s, off) == Some(i)
    {
      var r := CharIndex(s, off);
      if i < |s| {
        ByteLenPrefixLess(s, i, |s|);
        assert s[..|s|] == s;
        var init := s[..|s| - 1];
        assert init[..i] == s[..i];
        CharIndexSpec(init, off);
      } else {
        assert s[..|s|] == s;
      }
    }
  }

  lemma CharIndexOf(s: string, i: nat)
    requires i <= |s|
    ensures CharIndex(s, ByteLen(s[..i])) == Some(i)
  {
    CharIndexSpec(s, ByteLen(s[..i]));
  }

  /** `offset.min(text.len())`. */
  function Clamp(s: string, offset: nat): (off: nat)
    ensures off <= ByteLen(s)
    ensures offset <= ByteLen(s) ==> off == offset
    ensures offset >= ByteLen(s) ==> off == ByteLen(s)
  {
    if offset < ByteLen(s) then offset else ByteLen(s)
  }

  // ---- Line starts ----

  /** Number of `\n` bytes. */
  function NewlineBytes(b: seq<Byte>): nat {
    if b == [] then 0 else NewlineBytes(b[..|b| - 1]) + (if b[|b| - 1] == 10 then 1 else 0)
  }

  /** The line starts `build_line_starts` collects for the bytes `b`: 0, then every
      index just after a `\n`. */
  function LineStartsOf(b: seq<Byte>): seq<nat> {
    if b == [] then [0]
    else LineStartsOf(b[..|b| - 1]) + (if b[|b| - 1] == 10 then [|b|] else [])
  }

  /** `build_line_starts`. */
  method BuildLineStarts(text: string) returns (starts: seq<nat>)
    ensures starts == LineStartsOf(Utf8(text))
  {
    var bytes := Utf8(text);
    starts := [0];
    for i := 0 to |bytes|
      invariant starts == LineStartsOf(bytes[..i])
    {
      assert bytes[..i + 1][..i] == bytes[..i];
      if bytes[i] == 10 {
        starts := starts + [i + 1];
      }
    }
    assert bytes[..|bytes|] == bytes;
  }

  ghost predicate StrictlyIncreasing(xs: seq<nat>) {
    forall i, j :: 0 <= i < j < |xs| ==> xs[i] < xs[j]
  }

  /** There is one line more than there are newlines, and the first starts at 0. */
  lemma {:induction false} LineStartsCount(b: seq<Byte>)
    ensures |LineStartsOf(b)| == NewlineBytes(b) + 1
    ensures LineStartsOf(b)[0] == 0
    decreases |b|
  {
    if b != [] {
      LineStartsCount(b[..|b| - 1]);
    }
  }

  /** The line starts increase strictly and stay within the text. */
  lemma {:induction false} LineStartsIncreasing(b: seq<Byte>)
    ensures StrictlyIncreasing(LineStartsOf(b))
    ensures forall k :: 0 <= k < |LineStartsOf(b)| ==> LineStartsOf(b)[k] <= |b|
    decreases |b|
  {
    if b != [] {
      LineStartsIncreasing(b[..|b| - 1]);
    }
  }

  /** Every line start after the first is the index just after a newline. */
  lemma {:induction false} LineStartsAfterNewline(b: seq<Byte>)
    ensures forall k :: 0 < k < |LineStartsOf(b)| ==>
      1 <= LineStartsOf(b)[k] <= |b| && b[LineStartsOf(b)[k] - 1] == 10
    decreases |b|
  {
    if b != [] {
      var init := b[..|b| - 1];
      LineStartsAfterNewline(init);
      var ls := LineStartsOf(b);
      forall k | 0 < k < |ls| ensures 1 <= ls[k] <= |b| && b[ls[k] - 1] == 10 {
        if k < |LineStartsOf(init)| {
          assert ls[k] == LineStartsOf(init)[k];
          assert b[ls[k] - 1] == init[ls[k] - 1];
        }
      }
    }
  }

  /** The index just after every newline is a line start. */
  lemma {:induction false} LineStartsCoverNewlines(b: seq<Byte>)
    ensures forall p :: 0 <= p < |b| && b[p] == 10 ==> p + 1 in LineStartsOf(b)
    decreases |b|
  {
    if b != [] {
      var init := b[..|b| - 1];
      LineStartsCoverNewlines(init);
      forall p | 0 <= p < |init| && b[p] == 10 ensures p + 1 in LineStartsOf(b) {
        assert init[p] == b[p];
      }
    }
  }

  lemma {:induction false} LineStartsIgnoresOtherBytes(x: seq<Byte>, y: seq<Byte>)
    requires 10 !in y
    ensures LineStartsOf(x + y) == LineStartsOf(x)
    decreases |y|
  {
    if y == [] {
      assert x + y == x;
    } else {
      var n := |y| - 1;
      assert (x + y)[..|x + y| - 1] == x + y[..n];
      assert y[n] in y;
      LineStartsIgnoresOtherBytes(x, y[..n]);
    }
  }

  /** The same line starts, read off the scalar values: after each `\n`, the byte
      length of the text so far. */
  function LineStartsOfText(s: string): seq<nat> {
    if s == [] then [0]
    else LineStartsOfText(s[..|s| - 1]) + (if s[|s| - 1] == '\n' then [ByteLen(s)] else [])
  }

  lemma {:induction false} LineStartsOfUtf8(s: string)
    ensures LineStartsOf(Utf8(s)) == LineStartsOfText(s)
    decreases |s|
  {
    if s != [] {
      var init := s[..|s| - 1];
      var c := s[|s| - 1];
      LineStartsOfUtf8(init);
      if c == '\n' {
        assert Utf8(s) == Utf8(init) + [10];
        assert Utf8(s)[..|Utf8(s)| - 1] == Utf8(init);
      } else {
        LineStartsIgnoresOtherBytes(Utf8(init), Encode(c));
      }
    }
  }

  // ---- Positions ----

  /** Number of `\n` in a text. */
  function NewlineCount(s: string): nat {
    if s == [] then 0 else NewlineCount(s[..|s| - 1]) + (if s[|s| - 1] == '\n' then 1 else 0)
  }

  /** Index of the first scalar value of the line that `s` ends in. */
  function LastLineStart(s: string): (i: nat)
    ensures i <= |s|
  {
    if s == [] then 0
    else if s[|s| - 1] == '\n' then |s|
    else LastLineStart(s[..|s| - 1])
  }

  /** The UTF-16 column at the end of `s`: units written since the last newline. */
  function Column(s: string): nat {
    if s == [] then 0
    else if s[|s| - 1] == '\n' then 0
    else Column(s[..|s| - 1]) + Utf16Width(s[|s| - 1])
  }

  /** The LSP position just after the text `s`. */
  function Locate(s: string): Position {
    Position(NewlineCount(s), Column(s))
  }

  /** The column counts the UTF-16 units of the current line written so far. */
  lemma {:induction false} ColumnIsTail(s: string)
    ensures Column(s) == Utf16Len(s[LastLineStart(s)..])
    decreases |s|
  {
    if s != [] && s[|s| - 1] != '\n' {
      var init := s[..|s| - 1];
      ColumnIsTail(init);
      var tail := s[LastLineStart(s)..];
      assert tail[..|tail| - 1] == init[LastLineStart(init)..];
    }
  }

  lemma {:induction false} LineStartsOfTextFacts(t: string)
    ensures |LineStartsOfText(t)| == NewlineCount(t) + 1
    ensures LineStartsOfText(t)[NewlineCount(t)] == ByteLen(t[..LastLineStart(t)])
    ensures forall k :: 0 <= k < |LineStartsOfText(t)| ==> LineStartsOfText(t)[k] <= ByteLen(t)
    decreases |t|
  {
    if t == [] {
      assert t[..0] == [];
    } else {
      var init := t[..|t| - 1];
      LineStartsOfTextFacts(init);
      if t[|t| - 1] == '\n' {
        assert t[..|t|] == t;
      } else {
        assert init[..LastLineStart(init)] == t[..LastLineStart(t)];
      }
    }
  }

  /** The line starts of a prefix are a prefix of the line starts, and the later
      ones all lie beyond the prefix's bytes. */
  lemma {:induction false} LineStartsOfTextPrefix(s: string, b: nat)
    requires b <= |s|
    ensures LineStartsOfText(s[..b]) <= LineStartsOfText(s)
    ensures forall k :: |LineStartsOfText(s[..b])| <= k < |LineStartsOfText(s)| ==>
      LineStartsOfText(s)[k] > ByteLen(s[..b])
    decreases |s|
  {
    if b == |s| {
      assert s[..b] == s;
    } else {
      var init := s[..|s| - 1];
      assert init[..b] == s[..b];
      LineStartsOfTextPrefix(init, b);
      assert s[..|s|] == s;
      ByteLenPrefixLess(s, b, |s|);
      LineStartsOfTextFacts(init);
    }
  }

  /** Where the line starts put an offset that follows `b` scalar values. */
  lemma LocateByLineStarts(s: string, b: nat)
    requires b <= |s|
    ensures var ls := LineStartsOfText(s);
      var l := NewlineCount(s[..b]);
      l < |ls| && ls[l] == ByteLen(s[..LastLineStart(s[..b])]) && ls[l] <= ByteLen(s[..b])
      && (l + 1 < |ls| ==> ByteLen(s[..b]) < ls[l + 1])
  {
    LineStartsOfTextPrefix(s, b);
    LineStartsOfTextFacts(s[..b]);
    assert s[..b][..LastLineStart(s[..b])] == s[..LastLineStart(s[..b])];
  }

  /** With increasing line starts, no line after one that starts beyond `off`
      starts at or before it. */
  lemma LaterLinesStartAfter(ls: seq<nat>, off: nat, l: nat)
    requires StrictlyIncreasing(ls)
    requires l + 1 < |ls| ==> off < ls[l + 1]
    ensures forall k :: l < k < |ls| ==> off < ls[k]
  {
    forall k | l < k < |ls| ensures off < ls[k] {
      if l + 1 < k {
        assert ls[l + 1] < ls[k];
      }
    }
  }

  lemma LineSearchOnText(s: string, line: nat, b: nat)
    requires b <= |s|
    requires StrictlyIncreasing(LineStartsOfText(s))
    requires line < |LineStartsOfText(s)| && LineStartsOfText(s)[line] <= ByteLen(s[..b])
    requires line + 1 < |LineStartsOfText(s)| ==> ByteLen(s[..b]) < LineStartsOfText(s)[line + 1]
    ensures line == NewlineCount(s[..b])
    ensures LineStartsOfText(s)[line] == ByteLen(s[..LastLineStart(s[..b])])
  {
    var ls := LineStartsOfText(s);
    LocateByLineStarts(s, b);
    LaterLinesStartAfter(ls, ByteLen(s[..b]), line);
    LaterLinesStartAfter(ls, ByteLen(s[..b]), NewlineCount(s[..b]));
  }

  /** The line the search over the line starts finds is the number of newlines
      before the offset, and its start is a character boundary. */
  lemma LineSearchLocates(text: string, lineStarts: seq<nat>, line: nat, b: nat)
    requires lineStarts == LineStartsOfText(text) && StrictlyIncreasing(lineStarts)
    requires b <= |text|
    requires line < |lineStarts| && lineStarts[line] <= ByteLen(text[..b])
    requires line + 1 < |lineStarts| ==> ByteLen(text[..b]) < lineStarts[line + 1]
    ensures line == NewlineCount(text[..b])
    ensures CharIndex(text, lineStarts[line]) == Some(LastLineStart(text[..b]))
    ensures Column(text[..b]) == Utf16Len(text[LastLineStart(text[..b])..b])
  {
    var a := LastLineStart(text[..b]);
    LineSearchOnText(text, line, b);
    assert lineStarts[line] == ByteLen(text[..a]);
    CharIndexOf(text, a);
    ColumnIsTail(text[..b]);
    assert text[..b][a..] == text[a..b];
  }

  /** Both readings of the line starts agree, and they increase strictly. */
  lemma LineStartsOfTextIncreasing(text: string)
    ensures LineStartsOf(Utf8(text)) == LineStartsOfText(text)
    ensures StrictlyIncreasing(LineStartsOfText(text))
  {
    LineStartsOfUtf8(text);
    LineStartsIncreasing(Utf8(text));
  }

  /** `line` is the last line that starts at or before `off`. */
  predicate StartsLine(lineStarts: seq<nat>, off: nat, line: nat) {
    line < |lineStarts| && lineStarts[line] <= off
    && (line + 1 < |lineStarts| ==> off < lineStarts[line + 1])
  }

  /** The scan of `offset_to_line_col` over the line starts. */
  method FindLine(lineStarts: seq<nat>, off: nat) returns (line: nat)
    requires |lineStarts| > 0 && lineStarts[0] == 0
    ensures StartsLine(lineStarts, off, line)
  {
    line := 0;
    for idx := 0 to |lineStarts|
      invariant line < |lineStarts| && lineStarts[line] <= off
      invariant idx > 0 ==> line == idx - 1
    {
      if lineStarts[idx] > off {
        break;
      }
      line := idx;
    }
  }

  /** The line the scan finds for a character boundary `off` is where `Locate`
      puts it, and its column counts the UTF-16 units from the line's start. */
  lemma LocatedLine(text: string, lineStarts: seq<nat>, off: nat, line: nat)
    requires lineStarts == LineStartsOf(Utf8(text))
    requires StartsLine(lineStarts, off, line)
    requires CharIndex(text, off).Some?
    ensures var b := CharIndex(text, off).value;
      && CharIndex(text, lineStarts[line]).Some?
      && CharIndex(text, lineStarts[line]).value <= b <= |text|
      && Locate(text[..b]) == Position(line, Utf16Len(text[CharIndex(text, lineStarts[line]).value..b]))
  {
    var b := CharIndex(text, off).value;
    CharIndexSpec(text, off);
    LineStartsOfTextIncreasing(text);
    LineSearchLocates(text, lineStarts, line, b);
  }

  /** `offset_to_line_col`: clamps the offset to the text, takes the last line
      starting at or before it, and counts the UTF-16 units from that line start.
      Slicing the text panics unless the clamped offset is a character boundary;
      that is `None` here. */
  method OffsetToLineCol(text: string, lineStarts: seq<nat>, offset: nat) returns (r: Option<Position>)
    requires lineStarts == LineStartsOf(Utf8(text))
    ensures r.Some? <==> IsCharBoundary(text, Clamp(text, offset))
    ensures CharIndex(text, Clamp(text, offset)).Some? ==>
      r == Some(Locate(text[..CharIndex(text, Clamp(text, offset)).value]))
    ensures r.Some? ==> StartsLine(lineStarts, Clamp(text, offset), r.value.line)
  {
    var off := Clamp(text, offset);
    LineStartsCount(Utf8(text));
    var line := FindLine(lineStarts, off);
    var end := CharIndex(text, off);
    assert end.Some? <==> IsCharBoundary(text, off) by {
      CharIndexSpec(text, off);
    }
    if end.None? {
      return None;
    }
    var b := end.value;
    LocatedLine(text, lineStarts, off, line);
    var lineStart := lineStarts[line];
    var a := CharIndex(text, lineStart).value;
    var col := Utf16Len(text[a..b]);
    r := Some(Position(line, col));
  }

  /** `p` is not after `q` in the text. */
  predicate NotAfter(p: Position, q: Position) {
    p.line < q.line || (p.line == q.line && p.character <= q.character)
  }

  /** Positions advance with the text: a longer prefix never ends earlier. */
  lemma {:induction false} LocateMonotone(s: string, i: nat, j: nat)
    requires i <= j <= |s|
    ensures NotAfter(Locate(s[..i]), Locate(s[..j]))
    decreases j - i
  {
    if i < j {
      LocateMonotone(s, i, j - 1);
      assert s[..j][..j - 1] == s[..j - 1];
    }
  }

  lemma CharIndexMonotone(s: string, x: nat, y: nat)
    requires x <= y
    requires CharIndex(s, x).Some? && CharIndex(s, y).Some?
    ensures CharIndex(s, x).value <= CharIndex(s, y).value
  {
    var i, j := CharIndex(s, x).value, CharIndex(s, y).value;
    if j < i {
      ByteLenPrefixLess(s, j, i);
    }
  }

  /** `offset_range`: the positions of `offset` and of `offset + length`; `None`
      when either falls inside a character. */
  method OffsetRange(text: string, lineStarts: seq<nat>, offset: nat, length: nat) returns (r: Option<Range>)
    requires lineStarts == LineStartsOf(Utf8(text))
    ensures r.Some? <==>
      IsCharBoundary(text, Clamp(text, offset)) && IsCharBoundary(text, Clamp(text, offset + length))
    ensures r.Some? ==>
      CharIndex(text, Clamp(text, offset)).Some?
      && CharIndex(text, Clamp(text, offset + length)).Some?
      && r.value.start == Locate(text[..CharIndex(text, Clamp(text, offset)).value])
      && r.value.end == Locate(text[..CharIndex(text, Clamp(text, offset + length)).value])
    ensures r.Some? ==> NotAfter(r.value.start, r.value.end)
  {
    CharIndexSpec(text, Clamp(text, offset));
    CharIndexSpec(text, Clamp(text, offset + length));
    var start := OffsetToLineCol(text, lineStarts, offset);
    if start.None? {
      return None;
    }
    var end := OffsetToLineCol(text, lineStarts, offset + length);
    if end.None? {
      return None;
    }
    CharIndexMonotone(text, Clamp(text, offset), Clamp(text, offset + length));
    LocateMonotone(text, CharIndex(text, Clamp(text, offset)).value,
      CharIndex(text, Clamp(text, offset + length)).value);
    r := Some(Range(start.value, end.value));
  }
}
