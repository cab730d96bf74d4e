# strip-ansi, modelled in Dafny

A model of the core of `strip-ansi`, a filter that removes ANSI control
sequences from text. A control sequence follows section 5.4 of ECMA-48, 5th
edition ("Control sequences"). It is the introducer `ESC [` (bytes 0x1B
0x5B), then parameter bytes (0x30-0x3F), then intermediate bytes (0x20-0x2F),
then one final byte (0x40-0x7E). The three byte classes are the predicates
`Ansi.IsParameterByte`, `Ansi.IsIntermediateByte` and `Ansi.IsFinalByte`,
after `is_parameter_byte`, `is_intermediate_byte` and `is_final_byte`.

The core has two parts:

- **The scanner** (`find_csi_sequence`), modelled as the function
  `Ansi.FindCsiSequence` over `seq<uint8>`. It finds the leftmost introducer
  in the buffer. It then skips the maximal parameter run and the maximal
  intermediate run, and tests exactly one byte as a final byte. It returns a
  `Scan`: `NoSequence` (no introducer), `Sequence(start, end)` (an inclusive
  span), or `Malformed` (the tested byte is missing or not final).
  `Scan` stands for the source's `Result<Option<RangeInclusive<usize>>, ()>`.
- **The stripper** (`strip_ansi`), modelled as the method `Ansi.StripAnsi`.
  It has the source's loop: scan the remainder; on a found span, append the
  bytes before it to the output and continue after it; otherwise append the
  whole remainder and stop. Its postcondition ties it to the specification
  function `Ansi.Strip`.

The grammar is also stated on its own, as `IsControlSequence` and
`ControlSequenceAt`. The middle bytes are each a parameter or an intermediate
byte, and no parameter byte follows an intermediate byte. The greedy scan is
proved sound and complete against it. Because the byte classes are disjoint,
at most one control sequence can start at a given introducer.

Two properties one might expect of a stripper do not hold of this code, and the model follows the code:

- Stripping is not idempotent. `AnsiTests.StripNotIdempotent` shows that
  `"\e\e[m[m"` strips to `"\e[m"`, which strips again to `""`.
- A malformed introducer keeps the input unchanged only when it is the
  leftmost introducer of the current remainder. Sequences before it are still
  removed (`AnsiTests.ValidBeforeMalformed`), and sequences after it are
  kept (`Ansi.StripMalformedRemainder`).

## Model

| member | source | states |
|---|---|---|
| `Ansi.ByteClassesDisjoint` | src/ansi.rs:6-25 | the classes of `Ansi.IsParameterByte` (0x30-0x3F, `is_parameter_byte`), `Ansi.IsIntermediateByte` (0x20-0x2F, `is_intermediate_byte`) and `Ansi.IsFinalByte` (0x40-0x7E, `is_final_byte`) are pairwise disjoint; ESC is in none of them, and `[` is a final byte |
| `Ansi.ControlSequenceIsAscii` | src/ansi.rs:4-10 | every byte of a control sequence lies in 0x1B..0x7E, and a sequence is at least 3 bytes long, so removing whole sequences never touches a byte of a multi-byte UTF-8 character |
| `Ansi.FindIntroducer` | src/ansi.rs:30-33 | the window search returns the first index at or after `from` where `ESC [` occurs, and none when no window holds it |
| `Ansi.RunEnd` | src/ansi.rs:37-42 | `skip_while` stops at the end of the maximal run: every byte before the result is in the class, and the byte at the result, if any, is not |
| `Ansi.GreedyScanSound` | src/ansi.rs:33-45 | when the byte after the greedy parameter and intermediate runs is a final byte, the span from the introducer to it is a control sequence |
| `Ansi.GreedyScanComplete` | src/ansi.rs:37-47 | a control sequence starting at the introducer can end only at the byte the greedy scan tests |
| `Ansi.FindCsiSequence` | src/ansi.rs:27-52 | a found span starts with the introducer, has `start + 2 <= end`, with `end` inside the buffer (at least 3 bytes), and ends on a final byte |
| `Ansi.FindCsiSequenceSound` | src/ansi.rs:27-52 | `NoSequence` is returned if and only if the buffer has no `ESC [` pair, including buffers shorter than 2; a found span starts at the leftmost introducer and is a control sequence |
| `Ansi.FindCsiSequenceComplete` | src/ansi.rs:30-45 | a control sequence at the leftmost introducer is always the span reported |
| `Ansi.MalformedIffUnterminated` | src/ansi.rs:37-48 | with an introducer present, `Malformed` is returned exactly when no control sequence starts at the leftmost introducer |
| `Ansi.Strip` | src/ansi.rs:54-77 | the stripped output is never longer than the input |
| `Ansi.StripAnsi` | src/ansi.rs:54-77 | the loop's output equals `Strip` of its input and is no longer than the input; the loop ends because each round removes a span of at least 3 bytes |
| `Ansi.StripFound` | src/ansi.rs:58-68 | in one round of the loop, the dropped bytes `s[start..end + 1]` are a control sequence at the leftmost introducer, the kept prefix `s[..start]` holds no introducer, and the remainder after the final byte is at least 3 bytes shorter than the input |
| `Ansi.StripPlainText` | src/ansi.rs:69-74 | input without an `ESC [` pair comes back unchanged |
| `Ansi.StripMalformedRemainder` | src/ansi.rs:58-74 | when the leftmost introducer starts no control sequence, the whole buffer comes back unchanged, including any well-formed sequence after it |
| `Ansi.LeftmostAfterPlainText` | src/ansi.rs:30-32 | after text with no introducer, the leftmost introducer is where the next `ESC [` begins; a trailing ESC in the text does not pair with it |
| `Ansi.StripAfterPlainText` | src/ansi.rs:58-68 | plain text followed by a control sequence keeps the text and drops the sequence; the rest is stripped on its own |
| `Ansi.StripMalformedAfterPlainText` | src/ansi.rs:58-74 | plain text followed by an introducer that starts no control sequence comes back unchanged |
| `Ansi.StripRemovesSequencesInOrder` | src/ansi.rs:58-74 | two control sequences among plain text are both removed, and the text between and around them is kept in order |
| `Ansi.DecomposeSplitsInput` | src/ansi.rs:58-74 | the input is kept text and dropped control sequences alternating, then a remainder; no kept stretch holds an introducer, and the remainder has no well-formed leftmost sequence |
| `Ansi.DecomposeKeepsText` | src/ansi.rs:58-74 | the output is the kept text of that decomposition followed by the remainder |
| `Ansi.StripDeletesControlSequences` | src/ansi.rs:58-74 | the output is the input with disjoint control sequences deleted and everything else kept in order |
| `AnsiTests.TextWithAnsi` | src/ansi.rs:83-88 | `"Hello, \e[1mworld\e[0m!"` strips to `"Hello, world!"` |
| `AnsiTests.TextWithoutAnsi` | src/ansi.rs:90-95 | `"Hello, world!"` is unchanged |
| `AnsiTests.InvalidAnsi` | src/ansi.rs:97-102 | `"Hello, \e[\nmworld!"` is unchanged, because a newline is neither a parameter, an intermediate nor a final byte |
| `AnsiTests.MissingFinalByte` | src/ansi.rs:104-109 | `"Hello, \e[123"` is unchanged, because the buffer ends before a final byte |
| `AnsiTests.MinimumCsi` | src/ansi.rs:111-116 | `"Hello\e[m"` strips to `"Hello"`, the minimal 3-byte sequence |
| `AnsiTests.ValidBeforeMalformed` | src/ansi.rs:58-74 | `"\e[1m\e["` strips to `"\e["`: the sequence before the malformed introducer is removed |
| `AnsiTests.StripNotIdempotent` | src/ansi.rs:58-74 | `"\e\e[m[m"` strips to `"\e[m"`, and stripping that again gives `""` |

## Left out

- `String::from_utf8(b).unwrap()` and `s.as_bytes()` (src/ansi.rs:56, 76): input and output are byte sequences. UTF-8 validity of the output is not proved. `ControlSequenceIsAscii` gives the reason the `unwrap` cannot fail: only whole ASCII spans are removed.
- The `Vec::with_capacity(s.chars().count())` hint (src/ansi.rs:55) only reserves memory and has no effect on the result.
- `usize` arithmetic: indices are unbounded naturals. No overflow can happen in the source, since `end < s.len()`, so `end + 1` fits.
- The output vector, which the source grows in place with `extend_from_slice`, is a local `seq` that the loop reassigns. The slice rebinding `s = &s[end + 1..]` likewise becomes reassignment of a `seq`.
- The `Included` pattern matches on the range bounds (src/ansi.rs:62, 66) always succeed for a `RangeInclusive`, so the span's two ends are used directly.
- The commented-out debug output (src/ansi.rs:28, 60) does nothing and is left out.
- src/main.rs, the loop that reads lines from standard input and prints them stripped, is I/O and is not part of this model.
