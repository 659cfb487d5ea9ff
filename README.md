# sigscan in Dafny

A model of the core of sigscan, a command-line tool that looks for a byte signature in a
file. A signature is text made of hexadecimal byte pairs and `??` wildcards, for example
`00??AABBCCDD`. The tool prints the offset where it finds the signature, or `none`.

The core is two pieces of `main` in `src/main.rs`. Each becomes a stand-alone method here:

- **Signature parser** (`parse_string_into_signature`), module `Signature` in
  `signature.dfy`. It removes every ASCII space and rejects an empty or odd-length result.
  Then it turns each pair of characters into a match unit: `??` gives `Wildcard`, two hex
  digits give `Exact(16 * high + low)`, and any other pair fails the whole parse.
  `ParseSignature` is the method with the source's loop. `Compile` is the function that
  specifies it.
- **Streaming matcher** (the byte loop of `main`), module `Scanner` in `scanner.dfy`. It
  reads one byte at a time and keeps one counter, `signature_byte_to_check`. A matching byte
  moves the counter forward. A mismatch sets it back to 0, and that byte is not tested
  against the first unit again. The first time the counter reaches the signature's length,
  the scan reports the start offset and stops. `ScanStream` is the method with the source's
  loop. `Scan`, through `ScanFrom`, is the function that specifies it.

This matcher is greedy, not a complete substring search. `MissesOverlappingStart` proves
that `AABB` is not found in `AA AA BB`, although it occurs there at offset 1.
`ReportsALaterOccurrence` proves that the reported offset need not be the first
occurrence. What the model does prove:

- every reported offset is a real occurrence;
- an occurrence at offset o is always found when the scan reaches offset o with the counter
  at 0, in particular an occurrence at offset 0;
- with a one-unit signature the scan finds the first occurrence.

`Wrappers` (`wrappers.dfy`) holds only the `Option` type.

What the code does not have, and so the model does not have either:

- The scanner has no bound on the number of matches, no decimal output and no tracking of
  overlapping candidates. It reports at most one offset, the first one its single counter
  completes, so `AA` over `AA AA` gives only 0 (`ScanExamples`).
- The parser has one failure value, `None`, for a bad length and for a bad digit alike, and
  so does `Compile`.

## Model

| member | source | states |
|---|---|---|
| `Signature.DigitValue` | src/main.rs:48 | `to_digit(16)`: a digit's value is below 16; DigitValueSpec fixes which characters are digits and their values |
| `Signature.Combine` | src/main.rs:48 | the byte built from two nibbles gives them back: its high nibble is `high` and its low nibble is `low` |
| `Signature.PairUnit` | src/main.rs:44-48 | one pair: `??` is a wildcard, two hex digits the byte `16 * high + low`, anything else failure; PairUnitCases and PairOfDigits state this |
| `Signature.Compile` | src/main.rs:22-53 | the result of the parser; on success it holds at least one unit, half as many as stripped characters; CompileCharacterization fixes it |
| `Signature.DigitValueSpec` | src/main.rs:48 | `to_digit(16)` accepts exactly the digits 0-9, a-f and A-F, and the value of each is its position in `0123456789ABCDEF` or `0123456789abcdef` |
| `Signature.ShiftOrIsSum` | src/main.rs:48 | for two `u32` nibbles, high shifted left by 4 and or-ed with low equals `16 * high + low` and is below 256, so the cast to `u8` truncates nothing |
| `Signature.StripSpaces` | src/main.rs:23 | after `replace(" ", "")` the text holds no space and is no longer than before |
| `Signature.StripSpacesAppend` | src/main.rs:23 | stripping works piece by piece: the stripped form of a concatenation is the concatenation of the stripped forms, so the kept characters stay in their order |
| `Signature.StripSpacesOfSpaceless` | src/main.rs:23 | a text without spaces is left unchanged |
| `Signature.NonHexCharRejects` | src/main.rs:23-48 | a text holding any character other than a space, `?` or a hex digit is rejected as a whole |
| `Signature.StripSpacesContents` | src/main.rs:23 | stripping keeps each non-space character as often as the text has it and drops exactly the spaces |
| `Signature.ParseSignature` | src/main.rs:22-53 | the parser's loop (length checks, one push per pair, `None` at the first bad pair) returns exactly `Compile(text)` |
| `Signature.UnitsAllPairs` | src/main.rs:40-50 | the pair loop succeeds exactly when every pair is valid; it then yields one unit per pair, in order, the k-th unit being the k-th pair's |
| `Signature.CompileCharacterization` | src/main.rs:23-52 | a text compiles exactly when its stripped form has even, non-zero length and all pairs are valid; the result then has half as many units as stripped characters (at least one), in pair order |
| `Signature.CompileRejectsLength` | src/main.rs:26-34 | a stripped text of odd or zero length is rejected |
| `Signature.PairUnitCases` | src/main.rs:44-48 | `??` is the only pair giving a wildcard; a pair is accepted exactly when it is `??` or two hex digits; `?` is not a hex digit, so a pair with one `?` fails |
| `Signature.PairOfDigits` | src/main.rs:48 | two hex digits of values h and l, in either case, give the byte `16 * h + l` |
| `Signature.DigitIndex` | src/main.rs:48 | the digit at position n of either digit string has value n |
| `Signature.FormatRoundTrip` | src/main.rs:22-53 | every non-empty signature is parsed back from its canonical text, with or without spaces between the pairs |
| `Signature.HelpExample` | src/main.rs:14 | the help text's example `00??AABBCCDD` compiles to 00, wildcard, AA, BB, CC, DD |
| `Signature.RejectedLengths` | src/main.rs:23-34 | the empty text, a text of only spaces and `ABC` are rejected |
| `Signature.RejectedPairs` | src/main.rs:44-48 | `A?`, `?A`, `0G` and `0` followed by a tab are rejected |
| `Scanner.UnitMatches` | src/main.rs:77-80 | a wildcard matches every byte and `Exact(n)` only the byte n |
| `Scanner.Advance` | src/main.rs:84-93 | the counter after one byte: one further on a match, 0 on a mismatch, never above the signature's length |
| `Scanner.Scan` | src/main.rs:64-97 | the program's result for a whole input: a reported offset is an occurrence; ScanPrefix, ScanStopsAtReport and SingleUnitIsComplete say which one |
| `Scanner.ScanFrom` | src/main.rs:72-94 | from a state with i bytes consumed, a reported match starts inside the input and ends after byte i |
| `Scanner.ScanStream` | src/main.rs:64-97 | the loop keeps `0 <= signature_byte_to_check < sig_length` and returns `Scan(sig, input)`; a reported offset is an occurrence |
| `Scanner.ScanSound` | src/main.rs:84-87 | at a reported offset o = current_offset - sig_length, unit k matches byte o + k for every k |
| `Scanner.ScanNoneWithoutOccurrence` | src/main.rs:72-97 | an input with no occurrence, the empty input included, gives `none` |
| `Scanner.ScanPrefix` | src/main.rs:84-88 | on every prefix, the scan reports nothing before the byte that completes its report and the same offset from that byte on |
| `Scanner.ScanStopsAtReport` | src/main.rs:86-88 | bytes after a report cannot change it: at most one offset is reported |
| `Scanner.ScanFindsFromReset` | src/main.rs:77-87 | from the state at offset o with the counter at 0, an occurrence at o is reported; an occurrence at offset 0 always is |
| `Scanner.SingleUnitIsComplete` | src/main.rs:77-93 | with one unit the scan reports the first occurrence, and `none` exactly when there is none |
| `Scanner.MissesOverlappingStart` | src/main.rs:91-93 | `AABB` occurs in `AA AA BB` at offset 1, and the scan still reports `none` |
| `Scanner.ReportsALaterOccurrence` | src/main.rs:91-93 | `AABB` occurs in `AA AA BB AA BB` at offset 1, and the scan reports 3 |
| `Scanner.ScanExamples` | src/main.rs:66-97 | `AA` over `AA AA` gives 0; `AABB` over `AA BB AA BB` gives 0; `00` over `FF FF FF` gives none; `12 ?? 56` over `12 34 56` gives 0 |
| `Scanner.WildcardTextExample` | src/main.rs:22-97 | the text `12??56` compiles to three units and is found at offset 0 of `12 34 56` |
| `Scanner.Run` | src/main.rs:55-97 | the flow of `main`: a text that does not compile stops before scanning; otherwise the outcome is the scan's offset or `none`, and a reported offset is an occurrence |

## Left out

- Argument parsing with `clap` (src/main.rs:1-2, 8-19): library glue. The signature
  text and the input bytes are parameters of `Run`.
- File handling (src/main.rs:65, 70, 73): opening the file, the `BufReader` and read errors
  propagated by `?` are I/O. The input is a finite `seq<Byte>`, and end of file is the end
  of the sequence.
- Output and exit status (src/main.rs:59-60, 87-88, 96-97): `{:016X}` formatting,
  `eprintln!`, `none`, `exit(0)` and `exit(1)` are not modelled. `Run` returns an
  `Outcome` instead. After a parse failure the source returns `Ok(())`, so it exits with
  status 0. That status is not modelled.
- ScanStream: `current_offset` is a `u64` in the source. The model uses an unbounded
  `nat`, so it does not model wrap-around after 2^64 bytes.
- ScanStream: takes the whole input as a sequence. It does not model a stream that is
  read lazily, although it reads each byte once, in order.
- Combine: builds the byte as `16 * high + low` on integers. It does not use the `u32`
  shift, the or and the `u8` cast; ShiftOrIsSum proves those give the same value.
  Bytes are integers from 0 to 255, not bit-vectors.
- A match-count bound, decimal output and tracking of overlapping candidates are not
  modelled. The code does not have them.
