/**
  A byte-level model of removing ANSI control sequences from text.

  A control sequence (ECMA-48, 5th edition, section 5.4) is the introducer
  ESC [ followed by any number of parameter bytes (0x30-0x3F), then any
  number of intermediate bytes (0x20-0x2F), then exactly one final byte
  (0x40-0x7E). The scanner finds the leftmost introducer of a buffer and
  checks what follows it; the stripper removes every sequence the scanner
  reports, until the scanner reports none or a malformed one.
 */
module Ansi {

  newtype uint8 = x: int | 0 <= x < 0x100

  datatype Option<T> = None | Some(value: T)

  /** What one scan of a buffer finds: no introducer at all, the inclusive
      span of a control sequence that starts at the leftmost introducer, or a
      leftmost introducer that is not properly terminated. */
  datatype Scan = NoSequence | Sequence(start: nat, end: nat) | Malformed

  const ESC: uint8 := 0x1B
  const LEFT_BRACKET: uint8 := 0x5B

  predicate IsParameterByte(b: uint8) { 0x30 <= b <= 0x3F }

  predicate IsIntermediateByte(b: uint8) { 0x20 <= b <= 0x2F }

  predicate IsFinalByte(b: uint8) { 0x40 <= b <= 0x7E }

  /** The three byte classes do not overlap, and neither byte of the
      introducer belongs to the parameter or intermediate class. */
  lemma ByteClassesDisjoint(b: uint8)
    ensures !(IsParameterByte(b) && IsIntermediateByte(b))
    ensures !(IsParameterByte(b) && IsFinalByte(b))
    ensures !(IsIntermediateByte(b) && IsFinalByte(b))
    ensures !IsParameterByte(ESC) && !IsIntermediateByte(ESC) && !IsFinalByte(ESC)
    ensures IsFinalByte(LEFT_BRACKET)
  {
  }

  /** The two-byte window at i is the introducer ESC [. */
  predicate IntroducerAt(s: seq<uint8>, i: nat) {
    i + 1 < |s| && s[i] == ESC && s[i + 1] == LEFT_BRACKET
  }

  ghost predicate HasIntroducer(s: seq<uint8>) {
    exists i: nat :: IntroducerAt(s, i)
  }

  ghost predicate IsLeftmostIntroducer(s: seq<uint8>, i: nat) {
    IntroducerAt(s, i) && forall j: nat :: j < i ==> !IntroducerAt(s, j)
  }

  /** t is one control sequence: the introducer, then bytes that are each a
      parameter or an intermediate byte with no parameter byte after an
      intermediate one, then a final byte. */
  ghost predicate IsControlSequence(t: seq<uint8>) {
    && |t| >= 3
    && t[0] == ESC && t[1] == LEFT_BRACKET
    && IsFinalByte(t[|t| - 1])
    && (forall k :: 2 <= k < |t| - 1 ==> IsParameterByte(t[k]) || IsIntermediateByte(t[k]))
    && (forall j, k :: 2 <= j < k < |t| - 1 && IsIntermediateByte(t[j]) ==> !IsParameterByte(t[k]))
  }

  /** s[start..end], inclusive, is a control sequence. */
  ghost predicate ControlSequenceAt(s: seq<uint8>, start: nat, end: nat) {
    start + 2 <= end < |s| && IsControlSequence(s[start..end + 1])
  }

  /** Every byte of a control sequence is ASCII, between ESC and '~'. So
      removing whole sequences never splits a multi-byte UTF-8 character,
      which is why converting the stripped bytes back to text cannot fail. */
  lemma ControlSequenceIsAscii(s: seq<uint8>, start: nat, end: nat)
    requires ControlSequenceAt(s, start, end)
    ensures end - start + 1 >= 3
    ensures forall k :: start <= k <= end ==> ESC <= s[k] <= 0x7E
  {
  }

  /** Concatenation regroups; stated once so that proofs with many facts in
      scope need not rediscover it. */
  lemma Associative(a: seq<uint8>, b: seq<uint8>, c: seq<uint8>)
    ensures a + b + c == a + (b + c)
  {
  }

  /** A buffer is the bytes before a span, the span, and the bytes after. */
  lemma ThreeWaySplit(s: seq<uint8>, start: nat, end: nat)
    requires start <= end < |s|
    ensures s[..start] + s[start..end + 1] + s[end + 1..] == s
  {
  }

  /** Searches the two-byte windows of s from index `from` on for the
      introducer and yields the first index where it occurs. */
  function FindIntroducer(s: seq<uint8>, from: nat): (r: Option<nat>)
    requires from <= |s|
    ensures r.Some? ==> from <= r.value && IntroducerAt(s, r.value)
    ensures forall j: nat :: from <= j && (r.None? || j < r.value) ==> !IntroducerAt(s, j)
    decreases |s| - from
  {
    if from + 1 >= |s| then None
    else if IntroducerAt(s, from) then Some(from)
    else FindIntroducer(s, from + 1)
  }

  /** Skips the maximal run of bytes of one class starting at `from` and
      yields the index of the first byte outside it (or |s|). */
  function RunEnd(s: seq<uint8>, from: nat, inClass: uint8 -> bool): (r: nat)
    requires from <= |s|
    ensures from <= r <= |s|
    ensures forall k :: from <= k < r ==> inClass(s[k])
    ensures r < |s| ==> !inClass(s[r])
    decreases |s| - from
  {
    if from < |s| && inClass(s[from]) then RunEnd(s, from + 1, inClass) else from
  }

  /** The greedy scan after an introducer (maximal parameter run, maximal
      intermediate run, one byte tested as final) finds a control sequence
      whenever the byte it tests is a final byte. */
  lemma GreedyScanSound(s: seq<uint8>, start: nat, afterParameters: nat, end: nat)
    requires IntroducerAt(s, start)
    requires afterParameters == RunEnd(s, start + 2, IsParameterByte)
    requires end == RunEnd(s, afterParameters, IsIntermediateByte)
    requires end < |s| && IsFinalByte(s[end])
    ensures ControlSequenceAt(s, start, end)
  {
    var t := s[start..end + 1];
    forall k | 2 <= k < |t| - 1
      ensures t[k] == s[start + k]
      ensures start + k < afterParameters ==> IsParameterByte(t[k])
      ensures afterParameters <= start + k ==> IsIntermediateByte(t[k])
    {
    }
  }

  /** No end other than the one the greedy scan tests can close a control
      sequence that starts at the introducer. */
  lemma GreedyScanComplete(s: seq<uint8>, start: nat, afterParameters: nat, end: nat, e: nat)
    requires IntroducerAt(s, start)
    requires afterParameters == RunEnd(s, start + 2, IsParameterByte)
    requires end == RunEnd(s, afterParameters, IsIntermediateByte)
    requires ControlSequenceAt(s, start, e)
    ensures e == end
  {
    var t := s[start..e + 1];
    assert t[e - start] == s[e];
    // the final byte is neither a parameter nor an intermediate byte
    assert afterParameters <= e;
    assert end <= e;
    assert t[afterParameters - start] == s[afterParameters];
    assert t[end - start] == s[end];
  }

  /** find_csi_sequence: the outcome for the leftmost introducer of s. A
      found span starts with the introducer, holds at least three bytes and
      ends on a final byte. */
  function FindCsiSequence(s: seq<uint8>): (r: Scan)
    ensures r.Sequence? ==> IntroducerAt(s, r.start) && r.start + 2 <= r.end < |s| && IsFinalByte(s[r.end])
  {
    match FindIntroducer(s, 0)
    case None => NoSequence
    case Some(start) =>
      var afterParameters := RunEnd(s, start + 2, IsParameterByte);
      var end := RunEnd(s, afterParameters, IsIntermediateByte);
      if end < |s| && IsFinalByte(s[end]) then Sequence(start, end) else Malformed
  }

  /** The scanner against the grammar, soundness: it reports no sequence
      exactly when there is no introducer, and a span it reports is a control
      sequence starting at the leftmost introducer. */
  lemma FindCsiSequenceSound(s: seq<uint8>)
    ensures FindCsiSequence(s).NoSequence? <==> !HasIntroducer(s)
    ensures FindCsiSequence(s).Sequence? ==>
              IsLeftmostIntroducer(s, FindCsiSequence(s).start) && ControlSequenceAt(s, FindCsiSequence(s).start, FindCsiSequence(s).end)
  {
    match FindIntroducer(s, 0)
    case None =>
    case Some(start) =>
      var afterParameters := RunEnd(s, start + 2, IsParameterByte);
      var end := RunEnd(s, afterParameters, IsIntermediateByte);
      if end < |s| && IsFinalByte(s[end]) {
        GreedyScanSound(s, start, afterParameters, end);
      }
  }

  /** The scanner against the grammar, completeness: a control sequence that
      starts at the leftmost introducer is exactly the span reported. */
  lemma FindCsiSequenceComplete(s: seq<uint8>, i: nat, e: nat)
    requires IsLeftmostIntroducer(s, i) && ControlSequenceAt(s, i, e)
    ensures FindCsiSequence(s) == Sequence(i, e)
  {
    var start := FindIntroducer(s, 0).value;
    assert start == i;
    var afterParameters := RunEnd(s, start + 2, IsParameterByte);
    var end := RunEnd(s, afterParameters, IsIntermediateByte);
    GreedyScanComplete(s, start, afterParameters, end, e);
  }

  /** The scanner reports a malformed sequence exactly when there is an
      introducer but no control sequence starts at the leftmost one. */
  lemma MalformedIffUnterminated(s: seq<uint8>, i: nat)
    requires IsLeftmostIntroducer(s, i)
    ensures FindCsiSequence(s).Malformed? <==> forall e: nat :: !ControlSequenceAt(s, i, e)
  {
    FindCsiSequenceSound(s);
    if !FindCsiSequence(s).Malformed? {
      assert FindCsiSequence(s).start == i;
    }
  }

  /** The text strip_ansi produces, as bytes: everything before the first
      control sequence, then the stripped rest; a remainder without a
      well-formed leftmost sequence is kept verbatim. */
  function Strip(s: seq<uint8>): (r: seq<uint8>)
    ensures |r| <= |s|
    decreases |s|
  {
    match FindCsiSequence(s)
    case Sequence(start, end) => s[..start] + Strip(s[end + 1..])
    case _ => s
  }

  /** strip_ansi: repeatedly scans the remainder, appends the bytes before a
      found sequence to the output and moves past the sequence; on no
      sequence or a malformed one, appends the whole remainder and stops. */
  method StripAnsi(s: seq<uint8>) returns (b: seq<uint8>)
    ensures b == Strip(s)
    ensures |b| <= |s|
  {
    b := [];
    var rest := s;
    var scan := FindCsiSequence(rest);
    while scan.Sequence?
      invariant scan == FindCsiSequence(rest)
      invariant b + Strip(rest) == Strip(s)
      decreases |rest|
    {
      var before, after := rest[..scan.start], rest[scan.end + 1..];
      StripFound(rest, scan.start, scan.end);
      Associative(b, before, Strip(after));
      b := b + before;
      rest := after;
      scan := FindCsiSequence(rest);
    }
    assert Strip(rest) == rest;
    b := b + rest;
  }

  /** One round of the loop: the bytes dropped are a control sequence at the
      leftmost introducer, the bytes kept before it hold no introducer, the
      remainder is at least 3 bytes shorter, and stripping goes on there. */
  lemma StripFound(s: seq<uint8>, start: nat, end: nat)
    requires FindCsiSequence(s) == Sequence(start, end)
    ensures IsLeftmostIntroducer(s, start) && IsControlSequence(s[start..end + 1])
    ensures !HasIntroducer(s[..start])
    ensures |s[end + 1..]| + 3 <= |s|
    ensures Strip(s) == s[..start] + Strip(s[end + 1..])
  {
    FindCsiSequenceSound(s);
    var kept := s[..start];
    forall j: nat
      ensures !IntroducerAt(kept, j)
    {
      if j + 1 < |kept| {
        assert IntroducerAt(kept, j) == IntroducerAt(s, j);
      }
    }
  }

  /** Text with no introducer passes through unchanged. */
  lemma StripPlainText(s: seq<uint8>)
    requires !HasIntroducer(s)
    ensures Strip(s) == s
  {
  }

  /** When the leftmost introducer starts no control sequence, the whole
      buffer passes through unchanged, later well-formed sequences included. */
  lemma StripMalformedRemainder(s: seq<uint8>, i: nat)
    requires IsLeftmostIntroducer(s, i)
    requires forall e: nat :: !ControlSequenceAt(s, i, e)
    ensures Strip(s) == s
  {
    MalformedIffUnterminated(s, i);
  }

  /** A control sequence is one wherever it is embedded. */
  lemma ControlSequenceShift(p: seq<uint8>, t: seq<uint8>, e: nat)
    ensures ControlSequenceAt(p + t, |p|, |p| + e) <==> ControlSequenceAt(t, 0, e)
  {
    if e < |t| {
      assert (p + t)[|p|..|p| + e + 1] == t[0..e + 1];
    }
  }

  /** If p holds no introducer and t starts with one, the leftmost
      introducer of p + t is where t begins. */
  lemma LeftmostAfterPlainText(p: seq<uint8>, t: seq<uint8>)
    requires !HasIntroducer(p)
    requires IntroducerAt(t, 0)
    ensures IsLeftmostIntroducer(p + t, |p|)
  {
    var s := p + t;
    assert s[|p|] == ESC && s[|p| + 1] == LEFT_BRACKET;
    forall j: nat | j < |p|
      ensures !IntroducerAt(s, j)
    {
      if j + 1 < |p| {
        assert IntroducerAt(s, j) == IntroducerAt(p, j);
      } else {
        assert s[j + 1] == t[0];
      }
    }
  }

  /** A control sequence after plain text is removed and the text kept; the
      rest is stripped on its own. */
  lemma StripAfterPlainText(p: seq<uint8>, c: seq<uint8>, rest: seq<uint8>)
    requires !HasIntroducer(p)
    requires IsControlSequence(c)
    ensures Strip(p + c + rest) == p + Strip(rest)
  {
    var s := p + (c + rest);
    assert p + c + rest == s;
    ControlSequenceEmbedded(c, rest);
    LeftmostAfterPlainText(p, c + rest);
    ControlSequenceShift(p, c + rest, |c| - 1);
    FindCsiSequenceComplete(s, |p|, |p| + |c| - 1);
    var end := |p| + |c| - 1;
    assert FindCsiSequence(s) == Sequence(|p|, end);
    assert s[..|p|] == p;
    assert s[end + 1..] == rest;
  }

  /** A control sequence followed by more bytes is still one at the front. */
  lemma ControlSequenceEmbedded(c: seq<uint8>, rest: seq<uint8>)
    requires IsControlSequence(c)
    ensures ControlSequenceAt(c + rest, 0, |c| - 1)
  {
    assert (c + rest)[0..|c|] == c;
  }

  /** A malformed introducer after plain text: everything passes through. */
  lemma StripMalformedAfterPlainText(p: seq<uint8>, t: seq<uint8>)
    requires !HasIntroducer(p)
    requires IntroducerAt(t, 0)
    requires forall e: nat :: !ControlSequenceAt(t, 0, e)
    ensures Strip(p + t) == p + t
  {
    LeftmostAfterPlainText(p, t);
    forall e: nat
      ensures !ControlSequenceAt(p + t, |p|, e)
    {
      if ControlSequenceAt(p + t, |p|, e) {
        ControlSequenceShift(p, t, e - |p|);
      }
    }
    StripMalformedRemainder(p + t, |p|);
  }

  /** Two well-formed sequences separated and surrounded by plain text are
      both removed, and the text between and around them kept in order. */
  lemma StripRemovesSequencesInOrder(a: seq<uint8>, c1: seq<uint8>, b: seq<uint8>, c2: seq<uint8>, d: seq<uint8>)
    requires !HasIntroducer(a) && !HasIntroducer(b) && !HasIntroducer(d)
    requires IsControlSequence(c1) && IsControlSequence(c2)
    ensures Strip(a + c1 + b + c2 + d) == a + b + d
  {
    StripAfterPlainText(b, c2, d);
    StripPlainText(d);
    assert a + c1 + b + c2 + d == a + c1 + (b + c2 + d);
    StripAfterPlainText(a, c1, b + c2 + d);
  }

  /** One stretch of the input as the stripper sees it: text it keeps,
      then a control sequence it drops. */
  datatype Piece = Piece(text: seq<uint8>, sequence: seq<uint8>)

  /** The input cut into the pieces the loop goes through, and the
      remainder it finally copies whole. */
  datatype Decomposition = Decomposition(pieces: seq<Piece>, tail: seq<uint8>)

  function Decompose(s: seq<uint8>): Decomposition
    decreases |s|
  {
    match FindCsiSequence(s)
    case Sequence(start, end) =>
      var d := Decompose(s[end + 1..]);
      Decomposition([Piece(s[..start], s[start..end + 1])] + d.pieces, d.tail)
    case _ => Decomposition([], s)
  }

  /** One round of the loop as a piece of the decomposition. */
  lemma DecomposeFound(s: seq<uint8>, start: nat, end: nat)
    requires FindCsiSequence(s) == Sequence(start, end)
    ensures Decompose(s).pieces == [Piece(s[..start], s[start..end + 1])] + Decompose(s[end + 1..]).pieces
    ensures Decompose(s).tail == Decompose(s[end + 1..]).tail
  {
  }

  /** All the pieces, kept text and dropped sequences alike, in order. */
  function Joined(pieces: seq<Piece>): seq<uint8> {
    if pieces == [] then [] else pieces[0].text + pieces[0].sequence + Joined(pieces[1..])
  }

  /** Only the kept text of the pieces, in order. */
  function TextOf(pieces: seq<Piece>): seq<uint8> {
    if pieces == [] then [] else pieces[0].text + TextOf(pieces[1..])
  }

  /** The input is kept text and dropped sequences alternating, then a
      remainder. No kept stretch contains an introducer (each dropped
      sequence starts at the leftmost one), every dropped stretch is a
      control sequence, and the remainder has no well-formed leftmost
      sequence. */
  lemma {:induction false} DecomposeSplitsInput(s: seq<uint8>)
    ensures Joined(Decompose(s).pieces) + Decompose(s).tail == s
    ensures forall k :: 0 <= k < |Decompose(s).pieces| ==>
              !HasIntroducer(Decompose(s).pieces[k].text) && IsControlSequence(Decompose(s).pieces[k].sequence)
    ensures !FindCsiSequence(Decompose(s).tail).Sequence?
    decreases |s|
  {
    var scan := FindCsiSequence(s);
    if scan.Sequence? {
      var start, end := scan.start, scan.end;
      FindCsiSequenceSound(s);
      assert IsLeftmostIntroducer(s, start) && ControlSequenceAt(s, start, end);
      var rest := s[end + 1..];
      DecomposeSplitsInput(rest);
      var d := Decompose(rest);
      var text, sequence := s[..start], s[start..end + 1];
      assert IsControlSequence(sequence);
      var pieces := [Piece(text, sequence)] + d.pieces;
      DecomposeFound(s, start, end);
      assert pieces[1..] == d.pieces;
      ghost var joined := Joined(d.pieces);
      assert Joined(pieces) == text + sequence + joined;
      ThreeWaySplit(s, start, end);
      Associative(text + sequence, joined, d.tail);
      forall j: nat
        ensures !IntroducerAt(text, j)
      {
        if j + 1 < |text| {
          assert text[j] == s[j] && text[j + 1] == s[j + 1];
          assert !IntroducerAt(s, j);
        }
      }
      forall k | 0 <= k < |pieces|
        ensures !HasIntroducer(pieces[k].text) && IsControlSequence(pieces[k].sequence)
      {
        if k > 0 {
          assert pieces[k] == d.pieces[k - 1];
        }
      }
    }
  }

  /** The output is the kept text of the pieces followed by the remainder. */
  lemma {:induction false} DecomposeKeepsText(s: seq<uint8>)
    ensures TextOf(Decompose(s).pieces) + Decompose(s).tail == Strip(s)
    decreases |s|
  {
    var scan := FindCsiSequence(s);
    if scan.Sequence? {
      var start, end := scan.start, scan.end;
      var rest := s[end + 1..];
      DecomposeKeepsText(rest);
      var d := Decompose(rest);
      var text := s[..start];
      var pieces := [Piece(text, s[start..end + 1])] + d.pieces;
      DecomposeFound(s, start, end);
      assert pieces[1..] == d.pieces;
      ghost var kept := TextOf(d.pieces);
      assert TextOf(pieces) == text + kept;
      StripFound(s, start, end);
      Associative(text, kept, d.tail);
    }
  }

  /** The output is the input with disjoint control sequences deleted and
      everything else kept in order. */
  lemma StripDeletesControlSequences(s: seq<uint8>)
    ensures Joined(Decompose(s).pieces) + Decompose(s).tail == s
    ensures TextOf(Decompose(s).pieces) + Decompose(s).tail == Strip(s)
    ensures forall k :: 0 <= k < |Decompose(s).pieces| ==>
              !HasIntroducer(Decompose(s).pieces[k].text) && IsControlSequence(Decompose(s).pieces[k].sequence)
    ensures !FindCsiSequence(Decompose(s).tail).Sequence?
  {
    DecomposeSplitsInput(s);
    DecomposeKeepsText(s);
  }
}
