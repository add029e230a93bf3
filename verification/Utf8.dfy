// Text and its bytes. Bytes are the characters up to U+00FF.
module Utf8 {
  import opened LineColumns

  predicate IsAscii(c: char) {
    c as int < 0x80
  }

  function Byte(n: int): char
    requires 0 <= n < 0x100
  {
    n as char
  }

  function EncodeChar(c: char): (bytes: string)
    ensures IsAscii(c) ==> bytes == [c]
    ensures !IsAscii(c) ==> |bytes| >= 2 && forall k | 0 <= k < |bytes| :: !IsAscii(bytes[k])
  {
    var n := c as int;
    if n < 0x80 then [c]
    else if n < 0x800 then [Byte(0xC0 + n / 0x40), Byte(0x80 + n % 0x40)]
    else if n < 0x1_0000 then [Byte(0xE0 + n / 0x1000), Byte(0x80 + n / 0x40 % 0x40), Byte(0x80 + n % 0x40)]
    else [Byte(0xF0 + n / 0x4_0000), Byte(0x80 + n / 0x1000 % 0x40), Byte(0x80 + n / 0x40 % 0x40),
        Byte(0x80 + n % 0x40)]
  }

  function Encode(text: string): string {
    if text == "" then "" else Encode(text[..|text| - 1]) + EncodeChar(text[|text| - 1])
  }

  // The offset of character i in bytes.
  function ByteOffset(text: string, i: nat): nat
    requires i <= |text|
  {
    |Encode(text[..i])|
  }

  lemma {:induction false} EncodeAppend(a: string, b: string)
    ensures Encode(a + b) == Encode(a) + Encode(b)
  {
    hide EncodeChar;
    if b == "" {
      assert a + b == a;
    } else {
      var front, last := b[..|b| - 1], b[|b| - 1];
      assert (a + b)[..|a + b| - 1] == a + front;
      EncodeAppend(a, front);
    }
  }

  // A character's bytes follow those of all characters before it.
  lemma CharEncoded(text: string, i: nat)
    requires i < |text|
    ensures Encode(text[..i + 1]) == Encode(text[..i]) + EncodeChar(text[i])
  {
    hide EncodeChar;
    assert text[..i + 1][..i] == text[..i];
  }

  lemma Encoded(text: string, i: nat)
    requires i <= |text|
    ensures ByteOffset(text, i) <= |Encode(text)| && Encode(text)[..ByteOffset(text, i)] == Encode(text[..i])
    ensures Encode(text)[ByteOffset(text, i)..] == Encode(text[i..])
  {
    hide Encode;
    assert text == text[..i] + text[i..];
    EncodeAppend(text[..i], text[i..]);
  }

  lemma OffsetsGrow(text: string, i: nat, j: nat)
    requires i <= j <= |text|
    ensures ByteOffset(text, j) == ByteOffset(text, i) + |Encode(text[i..j])|
  {
    hide Encode;
    assert text[..j] == text[..i] + text[i..j];
    EncodeAppend(text[..i], text[i..j]);
  }

  // At least a byte for each character, and no more exactly for ASCII.
  lemma {:induction false} AsciiIff(text: string)
    ensures |Encode(text)| >= |text|
    ensures |Encode(text)| == |text| <==> forall q | 0 <= q < |text| :: IsAscii(text[q])
  {
    hide EncodeChar;
    if text == "" {
    } else {
      AsciiIff(text[..|text| - 1]);
    }
  }

  // An ASCII byte is a character of its own.
  lemma {:induction false} AsciiByte(text: string, b: nat) returns (i: nat)
    requires b < |Encode(text)| && IsAscii(Encode(text)[b])
    ensures i < |text| && text[i] == Encode(text)[b] && ByteOffset(text, i) == b
  {
    hide EncodeChar;
    var front, last := text[..|text| - 1], text[|text| - 1];
    if b < |Encode(front)| {
      i := AsciiByte(front, b);
      assert text[..i] == front[..i];
    } else {
      i := |text| - 1;
      assert Encode(text)[b] == EncodeChar(last)[b - |Encode(front)|];
    }
  }

  lemma ByteOfAscii(text: string, i: nat)
    requires i < |text| && IsAscii(text[i])
    ensures ByteOffset(text, i) < |Encode(text)| && Encode(text)[ByteOffset(text, i)] == text[i]
    ensures ByteOffset(text, i + 1) == ByteOffset(text, i) + 1
  {
    hide EncodeChar, Encode;
    CharEncoded(text, i);
    Encoded(text, i + 1);
    assert Encode(text[..i + 1])[ByteOffset(text, i)] == text[i];
  }

  lemma {:induction false} SameNewlines(text: string)
    ensures CountNewlines(Encode(text)) == CountNewlines(text)
  {
    hide EncodeChar;
    if text == "" {
    } else {
      var front, last := text[..|text| - 1], text[|text| - 1];
      SameNewlines(front);
      NewlinesAppend(Encode(front), EncodeChar(last));
      CharNewlines(last);
    }
  }

  lemma CharNewlines(c: char)
    ensures CountNewlines(EncodeChar(c)) == if c == '\n' then 1 else 0
  {
    hide EncodeChar;
    if IsAscii(c) {
      assert [c][..0] == "";
    } else {
      NotNewlines(EncodeChar(c));
    }
  }

  lemma {:induction false} NotNewlines(bytes: string)
    requires forall k | 0 <= k < |bytes| :: !IsAscii(bytes[k])
    ensures CountNewlines(bytes) == 0
  {
    if bytes == "" {
    } else {
      NotNewlines(bytes[..|bytes| - 1]);
    }
  }

  lemma {:induction false} NewlinesAppend(a: string, b: string)
    ensures CountNewlines(a + b) == CountNewlines(a) + CountNewlines(b)
  {
    if b == "" {
      assert a + b == a;
    } else {
      assert (a + b)[..|a + b| - 1] == a + b[..|b| - 1];
      NewlinesAppend(a, b[..|b| - 1]);
    }
  }

  // -- Positions in text and in bytes --

  function PositionOf(text: string, i: nat): (int, int) {
    OffsetToLineCol(i, AllLineStarts(text))
  }

  function BytePositionOf(text: string, i: nat): (int, int)
    requires i <= |text|
  {
    OffsetToLineCol(ByteOffset(text, i), AllLineStarts(Encode(text)))
  }

  // Only ASCII stands before character i on its line.
  ghost predicate AsciiBefore(text: string, i: nat)
    requires i <= |text|
  {
    forall q: nat | q < i && '\n' !in text[q..i] :: IsAscii(text[q])
  }

  // A line start is where a newline precedes and none follows up to the offset.
  lemma StartIsUnique(text: string, a: nat, b: nat, offset: nat)
    requires a <= offset <= |text| && b <= offset
    requires (a == 0 || text[a - 1] == '\n') && forall q | a <= q < offset :: text[q] != '\n'
    requires (b == 0 || text[b - 1] == '\n') && forall q | b <= q < offset :: text[q] != '\n'
    ensures a == b
  {
  }

  // A line's start in bytes.
  lemma StartInBytes(text: string, start: nat, i: nat)
    requires start <= i <= |text| && (start == 0 || text[start - 1] == '\n') && forall q | start <= q < i ::
      text[q] != '\n'
    ensures var bytes, from, to := Encode(text), ByteOffset(text, start), ByteOffset(text, i);
            && from <= to <= |bytes| && (from == 0 || bytes[from - 1] == '\n')
            && forall b | from <= b < to :: bytes[b] != '\n'
  {
    hide Encode;
    var bytes, from, to := Encode(text), ByteOffset(text, start), ByteOffset(text, i);
    OffsetsGrow(text, start, i);
    Encoded(text, i);
    if start > 0 {
      ByteOfAscii(text, start - 1);
    } else {
      NothingEncoded(text);
    }
    forall b | from <= b < to
      ensures bytes[b] != '\n'
    {
      if IsAscii(bytes[b]) {
        var q := AsciiByte(text, b);
        OffsetsOrdered(text, q, start);
        OffsetsOrdered(text, i, q);
      }
    }
  }

  lemma NothingEncoded(text: string)
    ensures ByteOffset(text, 0) == 0
  {
  }

  lemma OffsetsOrdered(text: string, i: nat, j: nat)
    requires i <= |text| && j <= |text|
    ensures i <= j ==> ByteOffset(text, i) <= ByteOffset(text, j)
    ensures i < j ==> ByteOffset(text, i) < ByteOffset(text, j)
  {
    hide Encode;
    if i <= j {
      OffsetsGrow(text, i, j);
      AsciiIff(text[i..j]);
    }
  }

  // Lines agree; columns agree exactly if only ASCII stands before on the line.
  lemma BytePosition(text: string, i: nat)
    requires i <= |text|
    ensures var (line, col) := PositionOf(text, i);
            var (byteLine, byteCol) := BytePositionOf(text, i);
            && byteLine == line && byteCol >= col
            && (byteCol == col <==> AsciiBefore(text, i))
  {
    hide Encode, OffsetToLineCol, AllLineStarts, CountNewlines, AsciiBefore;
    var (line, col) := PositionOf(text, i);
    var (byteLine, byteCol) := BytePositionOf(text, i);
    var bytes, offset := Encode(text), ByteOffset(text, i);
    LineColExact(text, i);
    Encoded(text, i);
    LineColExact(bytes, offset);
    SameNewlines(text[..i]);
    var start := i - (col - 1);
    StartInBytes(text, start, i);
    StartIsUnique(bytes, ByteOffset(text, start), offset - (byteCol - 1), offset);
    OffsetsGrow(text, start, i);
    AsciiIff(text[start..i]);
    AsciiFromStart(text, start, i);
  }

  lemma AsciiFromStart(text: string, start: nat, i: nat)
    requires start <= i <= |text| && (start == 0 || text[start - 1] == '\n') && forall q | start <= q < i ::
      text[q] != '\n'
    ensures AsciiBefore(text, i) <==> forall q | 0 <= q < i - start :: IsAscii(text[start..i][q])
  {
    assert forall q: nat | q < i :: q < start ==> text[q..i][start - 1 - q] == '\n';
    assert forall q | 0 <= q < i - start :: text[start..i][q] == text[start + q];
    if AsciiBefore(text, i) {
      forall q | 0 <= q < i - start
        ensures IsAscii(text[start..i][q])
      {
        assert '\n' !in text[start + q..i];
      }
    } else {
      var q: nat :| q < i && '\n' !in text[q..i] && !IsAscii(text[q]);
      assert text[start..i][q - start] == text[q];
    }
  }
}
