/** Source-line counting (`CountSLOCFromData` in cmd/main.go).

    A file's "lines of code" are the number of line-feed bytes in its
    contents. Nothing else is inspected: blank lines and comments count, and
    a last line without a terminating line feed does not. */
module Lines {
  import Counting

  /** A Go `byte`. */
  newtype byte = b: int | 0 <= b < 256

  /** The byte value of the rune literal '\n'. */
  const Newline: byte := 10

  predicate IsNewline(b: byte)
  {
    b == Newline
  }

  /** The line count of `data`: how many of its bytes are line feeds. */
  function NewlineCount(data: seq<byte>): (n: nat)
    ensures n <= |data|
    ensures n == multiset(data)[Newline]
  {
    Counting.CountIfIsMultiplicity(data, IsNewline, Newline);
    Counting.CountIf(data, IsNewline)
  }

  /** The loop of `CountSLOCFromData`: visit every byte once, front to back,
      and count those that are line feeds. */
  method CountSLOCFromData(data: seq<byte>) returns (count: nat)
    ensures count == NewlineCount(data)
    ensures count == |set i | 0 <= i < |data| && data[i] == Newline|
  {
    count := 0;
    for i := 0 to |data|
      invariant count == Counting.CountIf(data[..i], IsNewline)
    {
      assert data[..i + 1][..i] == data[..i];
      if data[i] == Newline {
        count := count + 1;
      }
    }
    assert data[..|data|] == data;
    Counting.CountIfIsIndexCount(data, IsNewline);
    assert Counting.Indices(data, IsNewline) == set i | 0 <= i < |data| && data[i] == Newline;
  }

  /** The count of a concatenation is the sum of the counts of its parts, so
      counting file by file and counting the files glued together agree. */
  lemma NewlineCountAppend(a: seq<byte>, b: seq<byte>)
    ensures NewlineCount(a + b) == NewlineCount(a) + NewlineCount(b)
  {
    assert multiset(a + b) == multiset(a) + multiset(b);
  }

  /** A file has a zero count exactly when it holds no line feed at all,
      whatever its length. */
  lemma NoNewlineNoLines(data: seq<byte>)
    ensures NewlineCount(data) == 0 <==> Newline !in data
  {
    if Newline in data {
      assert multiset(data)[Newline] > 0;
    }
  }

  /** Text after the last line feed adds nothing: an unterminated final line
      is not counted. */
  lemma UnterminatedLastLine(lines: seq<byte>, tail: seq<byte>)
    requires Newline !in tail
    ensures NewlineCount(lines + tail) == NewlineCount(lines)
  {
    NewlineCountAppend(lines, tail);
    NoNewlineNoLines(tail);
  }

  /** Terminating the last line adds exactly one. */
  lemma TerminatedLastLine(lines: seq<byte>, tail: seq<byte>)
    requires Newline !in tail
    ensures NewlineCount(lines + tail + [Newline]) == NewlineCount(lines) + 1
  {
    UnterminatedLastLine(lines, tail);
    NewlineCountAppend(lines + tail, [Newline]);
  }

  /** "x := 1" without a trailing line feed counts as no lines; with one it
      counts as one. */
  lemma OneLineFile()
    ensures NewlineCount([120, 32, 58, 61, 32, 49]) == 0
    ensures NewlineCount([120, 32, 58, 61, 32, 49, 10]) == 1
  {
    NoNewlineNoLines([120, 32, 58, 61, 32, 49]);
    TerminatedLastLine([], [120, 32, 58, 61, 32, 49]);
    assert [] + [120, 32, 58, 61, 32, 49] + [Newline] == [120, 32, 58, 61, 32, 49, 10];
  }
}
