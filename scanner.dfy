/** The streaming matcher of sigscan (the byte loop of `main` in src/main.rs): it reads the
    input one byte at a time and keeps a single counter of how many signature units the most
    recent bytes have matched. A mismatch puts the counter back to 0 without testing the same
    byte against the first unit again, and the first time the counter reaches the signature's
    length the start offset is reported and the scan ends. */
module Scanner {
  import opened Wrappers
  import opened Signature

  /** Lines 77-80: a wildcard matches every byte, `Exact(n)` only the byte n. */
  predicate UnitMatches(u: MatchUnit, b: Byte) {
    match u
    case Wildcard => true
    case Exact(n) => n == b
  }

  /** The signature occurs in the input at offset o: every unit matches the byte it lies over. */
  predicate OccursAt(sig: seq<MatchUnit>, input: seq<Byte>, o: nat) {
    o + |sig| <= |input| && forall j :: 0 <= j < |sig| ==> UnitMatches(sig[j], input[o + j])
  }

  /** The k bytes before position i match the first k units of the signature. */
  predicate MatchedBefore(sig: seq<MatchUnit>, input: seq<Byte>, i: nat, k: nat)
    requires k <= |sig| && i <= |input|
  {
    k <= i && forall j :: 0 <= j < k ==> UnitMatches(sig[j], input[i - k + j])
  }

  /** The counter after one byte: one further on a match, 0 on a mismatch. */
  function Advance(sig: seq<MatchUnit>, k: nat, b: Byte): (next: nat)
    requires k < |sig|
    ensures next <= |sig|
  {
    if UnitMatches(sig[k], b) then k + 1 else 0
  }

  /** The scan from position i (bytes consumed so far) with counter k: the result of the loop
      from that state. A report is made for the byte that completes the signature; its offset
      is the number of bytes consumed minus the signature's length. */
  function ScanFrom(sig: seq<MatchUnit>, input: seq<Byte>, i: nat, k: nat): (r: Option<nat>)
    requires 0 < |sig| && k < |sig| && k <= i <= |input|
    ensures r.Some? ==> i < r.value + |sig| <= |input|
    decreases |input| - i
  {
    if i == |input| then None
    else
      var next := Advance(sig, k, input[i]);
      if next == |sig| then Some(i + 1 - next)
      else ScanFrom(sig, input, i + 1, next)
  }

  /** What the program reports for a signature and a whole input: an offset, or `none`. */
  function Scan(sig: seq<MatchUnit>, input: seq<Byte>): (r: Option<nat>)
    requires 0 < |sig|
    ensures r.Some? ==> OccursAt(sig, input, r.value)
  {
    ScanFromSound(sig, input, 0, 0);
    ScanFrom(sig, input, 0, 0)
  }

  /** The byte loop as the source runs it. `signature_byte_to_check` stays below the signature's
      length (so indexing the signature is safe), `current_offset` is the number of bytes read,
      and the bytes just read match the units the counter has passed. */
  method ScanStream(sig: seq<MatchUnit>, input: seq<Byte>) returns (found: Option<nat>)
    requires 0 < |sig|
    ensures found == Scan(sig, input)
    ensures found.Some? ==> OccursAt(sig, input, found.value)
  {
    var sigLength := |sig|;
    var byteToCheck := 0;
    var currentOffset := 0;
    while currentOffset < |input|
      invariant 0 <= byteToCheck < sigLength
      invariant currentOffset <= |input|
      invariant MatchedBefore(sig, input, currentOffset, byteToCheck)
      invariant ScanFrom(sig, input, currentOffset, byteToCheck) == Scan(sig, input)
      decreases |input| - currentOffset
    {
      var b := input[currentOffset];
      var matches := UnitMatches(sig[byteToCheck], b);
      currentOffset := currentOffset + 1;
      if matches {
        byteToCheck := byteToCheck + 1;
        if byteToCheck == sigLength {
          return Some(currentOffset - byteToCheck);
        }
      } else {
        byteToCheck := 0;
      }
    }
    return None;
  }

  /** From a state whose counter is backed by the bytes just read, every report is an occurrence. */
  lemma {:induction false} ScanFromSound(sig: seq<MatchUnit>, input: seq<Byte>, i: nat, k: nat)
    requires 0 < |sig| && k < |sig| && k <= i <= |input|
    requires MatchedBefore(sig, input, i, k)
    ensures ScanFrom(sig, input, i, k).Some? ==> OccursAt(sig, input, ScanFrom(sig, input, i, k).value)
    decreases |input| - i
  {
    if i < |input| {
      var next := Advance(sig, k, input[i]);
      if next == |sig| {
        var o := i + 1 - next;
        forall j | 0 <= j < |sig|
          ensures UnitMatches(sig[j], input[o + j])
        {
          if j < k {
            assert input[o + j] == input[i - k + j];
          }
        }
      } else {
        assert MatchedBefore(sig, input, i + 1, next);
        ScanFromSound(sig, input, i + 1, next);
      }
    }
  }

  /** Soundness: a reported offset is one at which the whole signature occurs. */
  lemma ScanSound(sig: seq<MatchUnit>, input: seq<Byte>)
    requires 0 < |sig|
    ensures Scan(sig, input).Some? ==> OccursAt(sig, input, Scan(sig, input).value)
  {
    ScanFromSound(sig, input, 0, 0);
  }

  /** An input without any occurrence, the empty input among them, gives `none`. */
  lemma ScanNoneWithoutOccurrence(sig: seq<MatchUnit>, input: seq<Byte>)
    requires 0 < |sig|
    requires forall o :: 0 <= o <= |input| ==> !OccursAt(sig, input, o)
    ensures Scan(sig, input) == None
  {
    ScanSound(sig, input);
  }

  /** From any state, the scan of a prefix agrees with the whole scan up to the prefix's end. */
  lemma {:induction false} ScanFromPrefix(sig: seq<MatchUnit>, input: seq<Byte>, n: nat, i: nat, k: nat)
    requires 0 < |sig| && k < |sig| && k <= i <= n <= |input|
    ensures var whole := ScanFrom(sig, input, i, k);
      ScanFrom(sig, input[..n], i, k)
        == if whole.Some? && whole.value + |sig| <= n then whole else None
    decreases n - i
  {
    if i < n {
      assert input[..n][i] == input[i];
      var next := Advance(sig, k, input[i]);
      if next < |sig| {
        ScanFromPrefix(sig, input, n, i + 1, next);
      }
    }
  }

  /** The scan reads no further than the byte that completes its report: on every prefix of the
      input it reports nothing before that byte, and the same offset from that byte on. */
  lemma ScanPrefix(sig: seq<MatchUnit>, input: seq<Byte>, n: nat)
    requires 0 < |sig| && n <= |input|
    ensures var whole := Scan(sig, input);
      Scan(sig, input[..n]) == if whole.Some? && whole.value + |sig| <= n then whole else None
  {
    ScanFromPrefix(sig, input, n, 0, 0);
  }

  /** Once an offset is reported, bytes that follow in the stream cannot change it: at most one
      offset is ever reported. */
  lemma ScanStopsAtReport(sig: seq<MatchUnit>, input: seq<Byte>, rest: seq<Byte>)
    requires 0 < |sig|
    requires Scan(sig, input).Some?
    ensures Scan(sig, input + rest) == Scan(sig, input)
  {
    ScanPrefix(sig, input + rest, |input|);
    assert (input + rest)[..|input|] == input;
  }

  /** From offset o + k with counter k, an occurrence at o is carried to its report. */
  lemma {:induction false} ScanFromCompletes(sig: seq<MatchUnit>, input: seq<Byte>, o: nat, k: nat)
    requires 0 < |sig| && k < |sig| && o + k <= |input|
    requires OccursAt(sig, input, o)
    ensures ScanFrom(sig, input, o + k, k) == Some(o)
    decreases |sig| - k
  {
    assert UnitMatches(sig[k], input[o + k]);
    if k + 1 < |sig| {
      ScanFromCompletes(sig, input, o, k + 1);
    }
  }

  /** An occurrence that begins where the counter stands at 0 is reported; in particular one at
      the very start of the input. */
  lemma ScanFindsFromReset(sig: seq<MatchUnit>, input: seq<Byte>, o: nat)
    requires 0 < |sig| && o <= |input|
    requires OccursAt(sig, input, o)
    ensures ScanFrom(sig, input, o, 0) == Some(o)
    ensures o == 0 ==> Scan(sig, input) == Some(0)
  {
    ScanFromCompletes(sig, input, o, 0);
  }

  /** With one unit, the scan from position i reports the first occurrence at or after i. */
  lemma {:induction false} SingleUnitFrom(sig: seq<MatchUnit>, input: seq<Byte>, i: nat)
    requires |sig| == 1 && i <= |input|
    ensures ScanFrom(sig, input, i, 0).Some? <==> exists o :: i <= o < |input| && OccursAt(sig, input, o)
    ensures ScanFrom(sig, input, i, 0).Some? ==>
      var o := ScanFrom(sig, input, i, 0).value;
      OccursAt(sig, input, o) && forall p :: i <= p < o ==> !OccursAt(sig, input, p)
    decreases |input| - i
  {
    if i < |input| {
      if !OccursAt(sig, input, i) {
        assert !UnitMatches(sig[0], input[i]);
        SingleUnitFrom(sig, input, i + 1);
        if exists o :: i <= o < |input| && OccursAt(sig, input, o) {
          var o :| i <= o < |input| && OccursAt(sig, input, o);
          assert i + 1 <= o;
        }
      } else {
        assert UnitMatches(sig[0], input[i]);
      }
    }
  }

  /** With a single unit the counter never holds a partial match, so the scan is a complete
      search: it reports the first occurrence, and `none` exactly when there is none. */
  lemma SingleUnitIsComplete(sig: seq<MatchUnit>, input: seq<Byte>)
    requires |sig| == 1
    ensures Scan(sig, input).Some? <==> exists o :: 0 <= o < |input| && OccursAt(sig, input, o)
    ensures Scan(sig, input).Some? ==>
      var o := Scan(sig, input).value;
      OccursAt(sig, input, o) && forall p :: 0 <= p < o ==> !OccursAt(sig, input, p)
  {
    SingleUnitFrom(sig, input, 0);
  }

  /** A mismatch resets the counter without testing the failing byte against the first unit, so
      an occurrence that starts inside a failed partial match is missed: `AABB` occurs in
      `AA AA BB` at offset 1 and the scan still reports `none`. */
  lemma MissesOverlappingStart()
    ensures OccursAt([Exact(0xAA), Exact(0xBB)], [0xAA, 0xAA, 0xBB], 1)
    ensures Scan([Exact(0xAA), Exact(0xBB)], [0xAA, 0xAA, 0xBB]) == None
  {
  }

  /** The scan reports some occurrence, but not necessarily the first one: `AABB` occurs in
      `AA AA BB AA BB` at offsets 1 and 3, and the scan reports 3. */
  lemma ReportsALaterOccurrence()
    ensures OccursAt([Exact(0xAA), Exact(0xBB)], [0xAA, 0xAA, 0xBB, 0xAA, 0xBB], 1)
    ensures Scan([Exact(0xAA), Exact(0xBB)], [0xAA, 0xAA, 0xBB, 0xAA, 0xBB]) == Some(3)
  {
  }

  /** Small inputs: a one-unit signature reports only its first occurrence, a two-unit one
      the first of two, a byte that never occurs gives `none`, and a wildcard skips one byte. */
  lemma ScanExamples()
    ensures Scan([Exact(0xAA)], [0xAA, 0xAA]) == Some(0)
    ensures Scan([Exact(0xAA), Exact(0xBB)], [0xAA, 0xBB, 0xAA, 0xBB]) == Some(0)
    ensures Scan([Exact(0x00)], [0xFF, 0xFF, 0xFF]) == None
    ensures Scan([Exact(0x12), Wildcard, Exact(0x56)], [0x12, 0x34, 0x56]) == Some(0)
  {
  }

  /** From the text: `12??56` compiles to three units and is found at offset 0 of `12 34 56`. */
  lemma WildcardTextExample()
    ensures Compile("12??56") == Some([Exact(0x12), Wildcard, Exact(0x56)])
    ensures Scan(Compile("12??56").value, [0x12, 0x34, 0x56]) == Some(0)
  {
    var sig := [Exact(0x12), Wildcard, Exact(0x56)];
    assert FormatUnit(Exact(0x12)) == "12" && FormatUnit(Exact(0x56)) == "56";
    assert Format(sig[1..]) == "??56";
    assert Format(sig) == "12??56";
    FormatRoundTrip(sig);
  }

  /** The three ends of `main`: a parse failure, `none`, an offset. */
  datatype Outcome = ParseFailed | NotFound | FoundAt(offset: nat)

  /** What `main` does once its input bytes are known: compile the signature, stop if that
      fails, otherwise scan. */
  method Run(text: string, input: seq<Byte>) returns (outcome: Outcome)
    ensures outcome == ParseFailed <==> Compile(text) == None
    ensures Compile(text).Some? ==>
      outcome == match Scan(Compile(text).value, input)
        case None => NotFound
        case Some(o) => FoundAt(o)
    ensures outcome.FoundAt? ==> OccursAt(Compile(text).value, input, outcome.offset)
  {
    var parsed := ParseSignature(text);
    if parsed.None? {
      return ParseFailed;
    }
    CompileCharacterization(text);
    var found := ScanStream(parsed.value, input);
    if found.None? {
      return NotFound;
    }
    return FoundAt(found.value);
  }
}
