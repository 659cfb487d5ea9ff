/** The signature compiler of sigscan: a text of hexadecimal pairs and `??`
    wildcards, in which ASCII spaces are ignored, becomes a sequence of match
    units (src/main.rs, `parse_string_into_signature`). */
module Signature {
  import opened Wrappers

  /** A byte, as the `u8` the source reads from the file and stores in a signature. */
  type Byte = n: int | 0 <= n < 256

  /** One compiled unit: `None` (any byte) or `Some(n)` (exactly the byte n) in the source. */
  datatype MatchUnit = Wildcard | Exact(value: Byte)

  const UpperDigits: string := "0123456789ABCDEF"
  const LowerDigits: string := "0123456789abcdef"

  /** A hexadecimal digit of either case. */
  predicate IsHexDigit(c: char) {
    c in UpperDigits || c in LowerDigits
  }

  /** `char::to_digit(16)`: the value of a hexadecimal digit of either case. */
  function DigitValue(c: char): (r: Option<nat>)
    ensures r.Some? ==> r.value < 16
  {
    if '0' <= c <= '9' then Some(c as int - '0' as int)
    else if 'a' <= c <= 'f' then Some(c as int - 'a' as int + 10)
    else if 'A' <= c <= 'F' then Some(c as int - 'A' as int + 10)
    else None
  }

  /** The digits `to_digit(16)` accepts are exactly those of the two digit strings, and each
      has its position in them as value. */
  lemma DigitValueSpec(c: char)
    ensures DigitValue(c).Some? <==> IsHexDigit(c)
    ensures DigitValue(c).Some? ==>
      UpperDigits[DigitValue(c).value] == c || LowerDigits[DigitValue(c).value] == c
  {
  }

  /** `((high << 4) | low) as u8` for two digit values; ShiftOrIsSum shows that the shift and
      the or on `u32` give this sum, and that the cast to `u8` then truncates nothing. */
  function Combine(high: nat, low: nat): (b: Byte)
    requires high < 16 && low < 16
    ensures b / 16 == high && b % 16 == low
  {
    16 * high + low
  }

  /** On `u32` nibbles, `(high << 4) | low` is `16 * high + low`, which is below 256. */
  lemma ShiftOrIsSum(high: bv32, low: bv32)
    requires high < 16 && low < 16
    ensures (high << 4) | low == 16 * high + low
    ensures (high << 4) | low < 256
    ensures ((high << 4) | low) as int == Combine(high as int, low as int)
  {
  }

  /** One pair of characters: `??` is a wildcard, two hex digits a byte, anything else fails. */
  function PairUnit(high: char, low: char): Option<MatchUnit> {
    if high == '?' && low == '?' then Some(Wildcard)
    else
      match DigitValue(high)
      case None => None
      case Some(h) =>
        match DigitValue(low)
        case None => None
        case Some(l) => Some(Exact(Combine(h, l)))
  }

  /** The unit compiled from the k-th pair of the stripped text t. */
  function PairAt(t: string, k: nat): Option<MatchUnit>
    requires 2 * k + 1 < |t|
  {
    PairUnit(t[2 * k], t[2 * k + 1])
  }

  /** `signature.replace(" ", "")`: the text without its ASCII spaces (tabs and the rest stay). */
  function StripSpaces(s: string): (r: string)
    ensures ' ' !in r
    ensures |r| <= |s|
    decreases |s|
  {
    if s == [] then []
    else
      var last := s[|s| - 1];
      StripSpaces(s[..|s| - 1]) + (if last == ' ' then [] else [last])
  }

  /** Stripping keeps every other character as often as the text has it, and drops each space. */
  lemma {:induction false} StripSpacesContents(s: string)
    ensures forall c :: c != ' ' ==> multiset(StripSpaces(s))[c] == multiset(s)[c]
    ensures |StripSpaces(s)| == |s| - multiset(s)[' ']
    decreases |s|
  {
    if s != [] {
      var last := s[|s| - 1];
      assert s == s[..|s| - 1] + [last];
      StripSpacesContents(s[..|s| - 1]);
    }
  }

  /** The pairs of an even-length stripped text, one unit per pair, failing on the first bad pair. */
  function Units(t: string): Option<seq<MatchUnit>>
    requires |t| % 2 == 0
    decreases |t|
  {
    if t == [] then Some([])
    else
      match PairUnit(t[0], t[1])
      case None => None
      case Some(u) =>
        match Units(t[2..])
        case None => None
        case Some(rest) => Some([u] + rest)
  }

  /** What `parse_string_into_signature` returns for a text. */
  function Compile(text: string): (r: Option<seq<MatchUnit>>)
    ensures r.Some? ==> |r.value| == |StripSpaces(text)| / 2 >= 1
  {
    var t := StripSpaces(text);
    if |t| % 2 != 0 then None
    else if |t| == 0 then None
    else
      UnitsAllPairs(t);
      Units(t)
  }

  /** The parser as the source runs it: remove the spaces, check the character count,
      then push one unit per pair, returning `None` at the first pair that is not valid. */
  method ParseSignature(text: string) returns (r: Option<seq<MatchUnit>>)
    ensures r == Compile(text)
  {
    var chars := StripSpaces(text);
    var charCount := |chars|;
    if charCount % 2 != 0 {
      return None;
    }
    if charCount == 0 {
      return None;
    }
    var pairCount := charCount / 2;
    assert charCount == 2 * pairCount;
    var signature: seq<MatchUnit> := [];
    var i := 0;
    while i < charCount
      invariant i == 2 * |signature| <= charCount
      invariant forall k :: 0 <= k < |signature| ==> PairAt(chars, k) == Some(signature[k])
    {
      var high, low := chars[i], chars[i + 1];
      ghost var unit := PairAt(chars, |signature|);
      if high == '?' && low == '?' {
        signature := signature + [Wildcard];
      } else {
        var h := DigitValue(high);
        if h.None? {
          assert unit.None?;
          UnitsAllPairs(chars);
          return None;
        }
        var l := DigitValue(low);
        if l.None? {
          assert unit.None?;
          UnitsAllPairs(chars);
          return None;
        }
        signature := signature + [Exact(Combine(h.value, l.value))];
      }
      assert unit == Some(signature[|signature| - 1]);
      i := i + 2;
    }
    UnitsAllPairs(chars);
    assert Units(chars).value == signature;
    return Some(signature);
  }

  /** `Units` succeeds exactly when every pair is valid, and then it holds the pairs' units in order. */
  lemma {:induction false} UnitsAllPairs(t: string)
    requires |t| % 2 == 0
    ensures Units(t).Some? <==> forall k :: 0 <= k < |t| / 2 ==> PairAt(t, k).Some?
    ensures Units(t).Some? ==>
      |Units(t).value| == |t| / 2 && forall k :: 0 <= k < |t| / 2 ==> PairAt(t, k) == Some(Units(t).value[k])
    decreases |t|
  {
    if t != [] {
      var rest := t[2..];
      UnitsAllPairs(rest);
      assert forall k :: 0 <= k < |rest| / 2 ==> PairAt(rest, k) == PairAt(t, k + 1);
      assert PairAt(t, 0) == PairUnit(t[0], t[1]);
      if Units(t).Some? {
        forall k | 0 <= k < |t| / 2
          ensures PairAt(t, k) == Some(Units(t).value[k])
        {
          if k > 0 {
            assert PairAt(rest, k - 1) == PairAt(t, k);
          }
        }
      }
      if forall k :: 0 <= k < |t| / 2 ==> PairAt(t, k).Some? {
        forall k | 0 <= k < |rest| / 2
          ensures PairAt(rest, k).Some?
        {
          assert PairAt(t, k + 1).Some?;
        }
      }
    }
  }

  /** What compiling a text means: after the spaces are removed, the length must be even and
      non-zero and every pair valid; the result then has one unit per pair, in order. */
  lemma CompileCharacterization(text: string)
    ensures var t := StripSpaces(text);
      Compile(text).Some? <==>
        |t| % 2 == 0 && |t| > 0 && forall k :: 0 <= k < |t| / 2 ==> PairAt(t, k).Some?
    ensures var t := StripSpaces(text);
      Compile(text).Some? ==>
        |Compile(text).value| == |t| / 2 >= 1
        && forall k :: 0 <= k < |t| / 2 ==> PairAt(t, k) == Some(Compile(text).value[k])
  {
    var t := StripSpaces(text);
    if |t| % 2 == 0 {
      UnitsAllPairs(t);
    }
  }

  /** A text whose stripped length is odd or zero is rejected. */
  lemma CompileRejectsLength(text: string)
    requires |StripSpaces(text)| % 2 != 0 || |StripSpaces(text)| == 0
    ensures Compile(text) == None
  {
  }

  /** How one pair compiles: `??` is the only wildcard; a pair compiles at all only when it is
      `??` or two hex digits, so a single `?` or any other character rejects it. */
  lemma PairUnitCases(high: char, low: char)
    ensures PairUnit(high, low) == Some(Wildcard) <==> high == '?' && low == '?'
    ensures PairUnit(high, low).Some? <==>
      (high == '?' && low == '?') || (IsHexDigit(high) && IsHexDigit(low))
    ensures !IsHexDigit('?')
  {
  }

  /** Two hex digits of values hn and ln, in either case, compile to the byte 16 * hn + ln. */
  lemma PairOfDigits(high: char, low: char, hn: nat, ln: nat)
    requires hn < 16 && ln < 16
    requires UpperDigits[hn] == high || LowerDigits[hn] == high
    requires UpperDigits[ln] == low || LowerDigits[ln] == low
    ensures PairUnit(high, low) == Some(Exact(16 * hn + ln))
  {
    DigitIndex(high, hn);
    DigitIndex(low, ln);
  }

  /** The digit at position n of either digit string has value n. */
  lemma DigitIndex(c: char, n: nat)
    requires n < 16
    requires UpperDigits[n] == c || LowerDigits[n] == c
    ensures DigitValue(c) == Some(n)
  {
  }

  /** The canonical text of a unit: `??`, or two upper-case hex digits. */
  function FormatUnit(u: MatchUnit): (s: string)
    ensures |s| == 2 && ' ' !in s
  {
    match u
    case Wildcard => "??"
    case Exact(b) => [UpperDigits[b / 16], UpperDigits[b % 16]]
  }

  /** The text of a signature, pairs written back to back. */
  function Format(sig: seq<MatchUnit>): (s: string)
    ensures |s| == 2 * |sig| && ' ' !in s
  {
    if sig == [] then [] else FormatUnit(sig[0]) + Format(sig[1..])
  }

  /** The text of a signature with a space between consecutive pairs, as in `00 ?? AA`. */
  function FormatSpaced(sig: seq<MatchUnit>): string {
    if |sig| <= 1 then Format(sig) else FormatUnit(sig[0]) + " " + FormatSpaced(sig[1..])
  }

  /** A unit's canonical text compiles back to that unit. */
  lemma FormatUnitRoundTrip(u: MatchUnit)
    ensures PairUnit(FormatUnit(u)[0], FormatUnit(u)[1]) == Some(u)
  {
    match u
    case Wildcard =>
    case Exact(b) =>
      var s := FormatUnit(u);
      DigitIndex(s[0], b / 16);
      DigitIndex(s[1], b % 16);
      assert s[0] != '?' by { assert !IsHexDigit('?'); }
      assert Combine(b / 16, b % 16) == b;
  }

  /** The pairs of a signature's canonical text are that signature's units. */
  lemma {:induction false} UnitsOfFormat(sig: seq<MatchUnit>)
    ensures Units(Format(sig)) == Some(sig)
  {
    if sig != [] {
      var s := Format(sig);
      FormatUnitRoundTrip(sig[0]);
      assert s[2..] == Format(sig[1..]);
      UnitsOfFormat(sig[1..]);
      assert [sig[0]] + sig[1..] == sig;
    }
  }

  /** Stripping works piece by piece, so the characters it keeps stay in their order. */
  lemma StripSpacesAppend(a: string, b: string)
    ensures StripSpaces(a + b) == StripSpaces(a) + StripSpaces(b)
    decreases |b|
  {
    if b == [] {
      assert a + b == a;
    } else {
      assert (a + b)[..|a + b| - 1] == a + b[..|b| - 1];
      assert (a + b)[|a + b| - 1] == b[|b| - 1];
      StripSpacesAppend(a, b[..|b| - 1]);
    }
  }

  /** A text without spaces is left as it is. */
  lemma {:induction false} StripSpacesOfSpaceless(s: string)
    requires ' ' !in s
    ensures StripSpaces(s) == s
    decreases |s|
  {
    if s != [] {
      StripSpacesOfSpaceless(s[..|s| - 1]);
      assert s[..|s| - 1] + [s[|s| - 1]] == s;
    }
  }

  /** Removing the spaces from the spaced text gives the text without spaces. */
  lemma {:induction false} StripFormatSpaced(sig: seq<MatchUnit>)
    ensures StripSpaces(FormatSpaced(sig)) == Format(sig)
    decreases |sig|
  {
    if |sig| <= 1 {
      StripSpacesOfSpaceless(Format(sig));
    } else {
      var head := FormatUnit(sig[0]);
      StripSpacesAppend(head + " ", FormatSpaced(sig[1..]));
      StripSpacesAppend(head, " ");
      StripSpacesOfSpaceless(head);
      StripFormatSpaced(sig[1..]);
    }
  }

  /** Every non-empty signature is compiled back from its canonical text, with or without spaces. */
  lemma FormatRoundTrip(sig: seq<MatchUnit>)
    requires sig != []
    ensures Compile(Format(sig)) == Some(sig)
    ensures Compile(FormatSpaced(sig)) == Some(sig)
  {
    var t := Format(sig);
    assert |t| % 2 == 0 && |t| != 0;
    UnitsOfFormat(sig);
    StripSpacesOfSpaceless(t);
    StripFormatSpaced(sig);
  }

  /** The example signature from the program's help text for its `signature` argument. */
  lemma HelpExample()
    ensures Compile("00??AABBCCDD")
      == Some([Exact(0x00), Wildcard, Exact(0xAA), Exact(0xBB), Exact(0xCC), Exact(0xDD)])
  {
    var sig := [Exact(0x00), Wildcard, Exact(0xAA), Exact(0xBB), Exact(0xCC), Exact(0xDD)];
    FormatOfSix(sig);
    FormatRoundTrip(sig);
  }

  lemma FormatOfSix(sig: seq<MatchUnit>)
    requires sig == [Exact(0x00), Wildcard, Exact(0xAA), Exact(0xBB), Exact(0xCC), Exact(0xDD)]
    ensures Format(sig) == "00??AABBCCDD"
  {
    assert FormatUnit(Exact(0xAA)) == "AA" && FormatUnit(Exact(0xBB)) == "BB";
    assert FormatUnit(Exact(0xCC)) == "CC" && FormatUnit(Exact(0xDD)) == "DD";
    assert FormatUnit(Exact(0x00)) == "00";
    assert Format(sig[4..]) == "CCDD";
    assert Format(sig[2..]) == "AABBCCDD";
  }

  /** A character that is neither a space, `?` nor a hex digit rejects the whole text: it
      survives the stripping, lands in some pair, and that pair is not `??`, so one of its
      two `to_digit(16)` calls fails. */
  lemma NonHexCharRejects(text: string, c: char)
    requires c in text && c != ' ' && c != '?' && !IsHexDigit(c)
    ensures Compile(text) == None
  {
    var t := StripSpaces(text);
    StripSpacesContents(text);
    assert multiset(t)[c] == multiset(text)[c] > 0;
    assert c in multiset(t);
    var p :| 0 <= p < |t| && t[p] == c;
    CompileCharacterization(text);
    if |t| % 2 == 0 {
      var k := p / 2;
      assert 2 * k + 1 < |t|;
      PairUnitCases(t[2 * k], t[2 * k + 1]);
      assert t[2 * k] == c || t[2 * k + 1] == c;
      assert PairAt(t, k).None?;
    }
  }

  /** Texts the parser rejects for their length: nothing but spaces, or an odd count once the
      spaces are gone. */
  lemma RejectedLengths()
    ensures Compile("") == None && Compile("  ") == None
    ensures Compile("ABC") == None
  {
    assert "  "[..1] == " ";
    StripSpacesOfSpaceless("ABC");
  }

  /** Pairs the parser rejects: a single `?`, a letter past `F`, and a tab (only the space
      character is removed, so the tab is read as a digit and is not one). */
  lemma RejectedPairs()
    ensures Compile("A?") == None && Compile("?A") == None
    ensures Compile("0G") == None
    ensures Compile("0\t") == None
  {
    assert !IsHexDigit('?') && !IsHexDigit('G') && !IsHexDigit('\t');
  }
}
