/** The scenarios of the tests in strip-ansi's src/ansi.rs, and two that
    show where the stripper stops short of removing every sequence. */
module AnsiTests {
  import opened Ansi

  /** The bytes of an ASCII string: for ASCII text, UTF-8 encoding is one
      byte per character with the same value. */
  function Bytes(text: string): (r: seq<uint8>)
    requires forall k :: 0 <= k < |text| ==> text[k] as int < 0x80
    ensures |r| == |text|
    ensures forall k :: 0 <= k < |r| ==> r[k] < 0x80
  {
    seq(|text|, k requires 0 <= k < |text| => text[k] as int as uint8)
  }

  lemma NoEscapeIsPlainText(s: seq<uint8>)
    requires forall k :: 0 <= k < |s| ==> s[k] != ESC
    ensures !HasIntroducer(s)
  {
  }

  lemma TextWithoutAnsi()
    ensures Strip(Bytes("Hello, world!")) == Bytes("Hello, world!")
  {
    NoEscapeIsPlainText(Bytes("Hello, world!"));
    StripPlainText(Bytes("Hello, world!"));
  }

  /** The pieces of the first scenario: plain text and two SGR sequences. */
  lemma HelloWorldPieces()
    ensures !HasIntroducer(Bytes("Hello, ")) && !HasIntroducer(Bytes("world")) && !HasIntroducer(Bytes("!"))
    ensures IsControlSequence(Bytes("\U{1B}[1m")) && IsControlSequence(Bytes("\U{1B}[0m"))
  {
    NoEscapeIsPlainText(Bytes("Hello, "));
    NoEscapeIsPlainText(Bytes("world"));
    NoEscapeIsPlainText(Bytes("!"));
  }

  lemma TextWithAnsi()
    ensures Strip(Bytes("Hello, \U{1B}[1mworld\U{1B}[0m!")) == Bytes("Hello, world!")
  {
    var hello, bold, world, reset, bang := Bytes("Hello, "), Bytes("\U{1B}[1m"), Bytes("world"), Bytes("\U{1B}[0m"), Bytes("!");
    assert Bytes("Hello, \U{1B}[1mworld\U{1B}[0m!") == hello + bold + world + reset + bang;
    assert Bytes("Hello, world!") == hello + world + bang;
    HelloWorldPieces();
    StripRemovesSequencesInOrder(hello, bold, world, reset, bang);
  }

  lemma InvalidAnsi()
    ensures Strip(Bytes("Hello, \U{1B}[\nmworld!")) == Bytes("Hello, \U{1B}[\nmworld!")
  {
    var hello, invalid := Bytes("Hello, "), Bytes("\U{1B}[\nmworld!");
    assert Bytes("Hello, \U{1B}[\nmworld!") == hello + invalid;
    NoEscapeIsPlainText(hello);
    assert IntroducerAt(invalid, 0);
    forall e: nat
      ensures !ControlSequenceAt(invalid, 0, e)
    {
      if 2 <= e < |invalid| {
        assert invalid[0..e + 1][2] == invalid[2] == '\n' as int as uint8;
      }
    }
    StripMalformedAfterPlainText(hello, invalid);
  }

  lemma MissingFinalByte()
    ensures Strip(Bytes("Hello, \U{1B}[123")) == Bytes("Hello, \U{1B}[123")
  {
    var hello, unterminated := Bytes("Hello, "), Bytes("\U{1B}[123");
    assert Bytes("Hello, \U{1B}[123") == hello + unterminated;
    NoEscapeIsPlainText(hello);
    assert IntroducerAt(unterminated, 0);
    forall e: nat
      ensures !ControlSequenceAt(unterminated, 0, e)
    {
      if 2 <= e < |unterminated| {
        assert unterminated[0..e + 1][e] == unterminated[e];
      }
    }
    StripMalformedAfterPlainText(hello, unterminated);
  }

  lemma MinimumCsi()
    ensures Strip(Bytes("Hello\U{1B}[m")) == Bytes("Hello")
  {
    var hello, minimal := Bytes("Hello"), Bytes("\U{1B}[m");
    assert Bytes("Hello\U{1B}[m") == hello + minimal + [];
    assert hello + [] == hello;
    NoEscapeIsPlainText(hello);
    assert IsControlSequence(minimal);
    StripAfterPlainText(hello, minimal, []);
    StripPlainText([]);
  }

  /** A well-formed sequence before a malformed one is still removed; only
      the malformed remainder is kept. */
  lemma ValidBeforeMalformed()
    ensures Strip(Bytes("\U{1B}[1m\U{1B}[")) == Bytes("\U{1B}[")
  {
    var bold, open := Bytes("\U{1B}[1m"), Bytes("\U{1B}[");
    assert Bytes("\U{1B}[1m\U{1B}[") == [] + bold + open;
    assert [] + open == open;
    NoEscapeIsPlainText([]);
    assert IsControlSequence(bold);
    StripAfterPlainText([], bold, open);
    assert IntroducerAt(open, 0);
    StripMalformedAfterPlainText([], open);
  }

  /** "\e[m" alone is stripped to nothing. */
  lemma MinimalSequenceVanishes()
    ensures Strip(Bytes("\U{1B}[m")) == []
  {
    var minimal := Bytes("\U{1B}[m");
    assert [] + minimal + [] == minimal;
    NoEscapeIsPlainText([]);
    assert IsControlSequence(minimal);
    StripAfterPlainText([], minimal, []);
    StripPlainText([]);
  }

  /** Stripping twice can remove more than stripping once: the kept ESC
      before a sequence joins the kept "[m" after it into a new sequence. */
  lemma StripNotIdempotent()
    ensures Strip(Bytes("\U{1B}\U{1B}[m[m")) == Bytes("\U{1B}[m")
    ensures Strip(Strip(Bytes("\U{1B}\U{1B}[m[m"))) == []
  {
    var esc, minimal, tail := Bytes("\U{1B}"), Bytes("\U{1B}[m"), Bytes("[m");
    assert Bytes("\U{1B}\U{1B}[m[m") == esc + minimal + tail;
    assert esc + tail == minimal;
    NoEscapeIsPlainText(tail);
    assert !IntroducerAt(esc, 0);
    assert IsControlSequence(minimal);
    StripAfterPlainText(esc, minimal, tail);
    StripPlainText(tail);
    MinimalSequenceVanishes();
  }
}
