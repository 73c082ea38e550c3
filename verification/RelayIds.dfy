/** The identifiers under which the pieces and the header of a file travel through the relay. */
module RelayIds {
  import opened Prelude
  import opened Decimal

  const HEADER_SUFFIX := "#header"
  const PIECE_MARK := "#c"

  function RelayMessageId(fileId: string, index: nat): string {
    fileId + PIECE_MARK + PadLeft(Print(index), 5)
  }

  function RelayHeaderMessageId(fileId: string): string { fileId + HEADER_SUFFIX }

  predicate EndsWith(s: string, suffix: string) {
    |s| >= |suffix| && s[|s| - |suffix|..] == suffix
  }

  /** Removes every trailing repetition of `suffix`. */
  function TrimEndMatches(s: string, suffix: string): string
    requires |suffix| > 0
  {
    if EndsWith(s, suffix) then TrimEndMatches(s[..|s| - |suffix|], suffix) else s
  }

  /** Splits around the last occurrence of `mark`. */
  function RSplitOnce(s: string, mark: string): Option<(string, string)>
    requires |mark| > 0
  {
    if EndsWith(s, mark) then Some((s[..|s| - |mark|], ""))
    else if |s| == 0 then None
    else
      match RSplitOnce(s[..|s| - 1], mark)
      case None => None
      case Some((before, after)) => Some((before, after + [s[|s| - 1]]))
  }

  function ParseRelayMessageId(id: string): Option<(string, Option<nat>)> {
    if EndsWith(id, HEADER_SUFFIX) then Some((TrimEndMatches(id, HEADER_SUFFIX), None))
    else
      match RSplitOnce(id, PIECE_MARK)
      case None => None
      case Some((fileId, text)) =>
        match ParseUnsigned(text, U32_BOUND)
        case None => None
        case Some(index) => Some((fileId, Some(index)))
  }

  lemma {:induction false} SameLastCharacter(s: string, suffix: string)
    requires |suffix| > 0 && EndsWith(s, suffix)
    ensures s[|s| - 1] == suffix[|suffix| - 1]
  {
    assert s[|s| - |suffix|..][|suffix| - 1] == s[|s| - 1];
  }

  /** Text after the last mark is split off whole. */
  lemma {:induction false} SplitAtLastMark(fileId: string, text: string)
    requires 'c' !in text
    ensures RSplitOnce(fileId + PIECE_MARK + text, PIECE_MARK) == Some((fileId, text))
  {
    var s := fileId + PIECE_MARK + text;
    if |text| == 0 {
      assert s == fileId + PIECE_MARK;
    } else {
      var front := text[..|text| - 1];
      assert s[|s| - 1] == text[|text| - 1];
      if EndsWith(s, PIECE_MARK) {
        SameLastCharacter(s, PIECE_MARK);
      }
      assert s[..|s| - 1] == fileId + PIECE_MARK + front;
      SplitAtLastMark(fileId, front);
      assert front + [text[|text| - 1]] == text;
    }
  }

  lemma {:induction false} SplitJoins(s: string, mark: string)
    requires |mark| > 0 && RSplitOnce(s, mark).Some?
    ensures var (before, after) := RSplitOnce(s, mark).value; s == before + mark + after
  {
    if !EndsWith(s, mark) {
      SplitJoins(s[..|s| - 1], mark);
      assert s == s[..|s| - 1] + [s[|s| - 1]];
    } else {
      assert s == s[..|s| - |mark|] + mark;
    }
  }

  ghost predicate IsPieceId(id: string, fileId: string, plus: bool, digits: string, index: nat) {
    && id == fileId + "#c" + (Sign(plus) + digits)
    && AllDigits(digits) && |digits| > 0 && Value(digits) == index < 0x1_0000_0000
  }

  /** Exactly the texts read as a piece: a file id, the mark, and digits, possibly after a plus
      sign, of a 32-bit number. */
  lemma {:induction false} ReadAsPieceIff(id: string, fileId: string, index: nat)
    ensures ParseRelayMessageId(id) == Some((fileId, Some(index)))
      <==> exists plus, digits :: IsPieceId(id, fileId, plus, digits, index)
  {
    hide RSplitOnce, ParseUnsigned;
    if ParseRelayMessageId(id) == Some((fileId, Some(index))) {
      SplitJoins(id, PIECE_MARK);
      var plus, digits := ParsedText(RSplitOnce(id, PIECE_MARK).value.1, U32_BOUND);
      assert IsPieceId(id, fileId, plus, digits, index);
    }
    if plus, digits :| IsPieceId(id, fileId, plus, digits, index) {
      DigitsHaveNoSign(digits, 'c');
      assert 'c' !in Sign(plus) + digits;
      SplitAtLastMark(fileId, Sign(plus) + digits);
      ParseSigned(plus, digits, U32_BOUND);
      assert IsDigit(id[|id| - 1]);
      if EndsWith(id, HEADER_SUFFIX) {
        SameLastCharacter(id, HEADER_SUFFIX);
      }
    }
  }

  /** The text of an identifier: the index in at least five digits, more only if it needs them. */
  lemma {:induction false} IdentifierText(fileId: string, index: nat)
    ensures exists digits ::
      && RelayMessageId(fileId, index) == fileId + "#c" + digits
      && AllDigits(digits) && Value(digits) == index
      && |digits| >= 5 && (|digits| > 5 ==> digits[0] != '0')
    ensures RelayHeaderMessageId(fileId) == fileId + "#header"
  {
    var digits := PadLeft(Print(index), 5);
    ValueOfPadLeft(Print(index), 5);
    ValueOfPrint(index);
    PrintHasNoLeadingZero(index);
    assert RelayMessageId(fileId, index) == fileId + "#c" + digits;
  }

  /** Every piece identifier reads back, whatever the file identifier contains. */
  lemma {:induction false} PieceIdRoundTrip(fileId: string, index: nat)
    requires index < U32_BOUND
    ensures ParseRelayMessageId(RelayMessageId(fileId, index)) == Some((fileId, Some(index)))
  {
    hide ParseRelayMessageId;
    var digits := PadLeft(Print(index), 5);
    ValueOfPadLeft(Print(index), 5);
    ValueOfPrint(index);
    assert Sign(false) + digits == digits;
    assert IsPieceId(RelayMessageId(fileId, index), fileId, false, digits, index);
    ReadAsPieceIff(RelayMessageId(fileId, index), fileId, index);
  }

  function Headers(k: nat): string { if k == 0 then "" else Headers(k - 1) + "#header" }

  lemma {:induction false} WithoutSuffix(s: string, suffix: string)
    requires EndsWith(s, suffix)
    ensures s == s[..|s| - |suffix|] + suffix
  {
  }

  lemma {:induction false} MoreHeaders(t: string, k: nat)
    ensures (t + Headers(k)) + HEADER_SUFFIX == t + Headers(k + 1)
  {
    var h := Headers(k);
    assert (t + h) + HEADER_SUFFIX == t + (h + HEADER_SUFFIX);
  }

  lemma {:induction false} TrimmedHeaders(s: string) returns (k: nat)
    ensures s == TrimEndMatches(s, HEADER_SUFFIX) + Headers(k)
    ensures !EndsWith(TrimEndMatches(s, HEADER_SUFFIX), HEADER_SUFFIX)
    ensures EndsWith(s, HEADER_SUFFIX) ==> k > 0
  {
    if EndsWith(s, HEADER_SUFFIX) {
      hide Headers;
      var front := s[..|s| - |HEADER_SUFFIX|];
      var j := TrimmedHeaders(front);
      WithoutSuffix(s, HEADER_SUFFIX);
      MoreHeaders(TrimEndMatches(front, HEADER_SUFFIX), j);
      k := j + 1;
    } else {
      k := 0;
    }
  }

  lemma {:induction false} TrimAppended(fileId: string, k: nat)
    requires !EndsWith(fileId, HEADER_SUFFIX)
    ensures TrimEndMatches(fileId + Headers(k), HEADER_SUFFIX) == fileId
    ensures k > 0 ==> EndsWith(fileId + Headers(k), HEADER_SUFFIX)
  {
    var s := fileId + Headers(k);
    if k > 0 {
      assert s == (fileId + Headers(k - 1)) + HEADER_SUFFIX;
      assert s[..|s| - 7] == fileId + Headers(k - 1);
      TrimAppended(fileId, k - 1);
    } else {
      assert s == fileId;
    }
  }

  /** Exactly the texts read as a header: a file id that does not itself end like one, and one
      or more header suffixes. */
  lemma {:induction false} ReadAsHeaderIff(id: string, fileId: string)
    ensures ParseRelayMessageId(id) == Some((fileId, None))
      <==> !EndsWith(fileId, HEADER_SUFFIX) && exists k: nat :: k > 0 && id == fileId + Headers(k)
  {
    hide TrimEndMatches, RSplitOnce;
    if ParseRelayMessageId(id) == Some((fileId, None)) {
      var k := TrimmedHeaders(id);
    }
    if !EndsWith(fileId, HEADER_SUFFIX) {
      if k: nat :| k > 0 && id == fileId + Headers(k) {
        TrimAppended(fileId, k);
      }
    }
  }

  lemma {:induction false} OneHeader()
    ensures Headers(1) == "#header"
  {
    assert Headers(0) == "";
    assert Headers(1) == Headers(0) + "#header";
  }

  /** A header identifier reads back exactly when the file identifier does not itself end
      like one, because all trailing repetitions are removed. */
  lemma {:induction false} HeaderIdRoundTripIff(fileId: string)
    ensures ParseRelayMessageId(RelayHeaderMessageId(fileId)) == Some((fileId, None))
      <==> !EndsWith(fileId, HEADER_SUFFIX)
  {
    hide ParseRelayMessageId, EndsWith;
    var id := RelayHeaderMessageId(fileId);
    ReadAsHeaderIff(id, fileId);
    OneHeader();
    assert id == fileId + Headers(1);
  }

  /** No two pieces share an identifier, and no piece shares one with a header. */
  lemma {:induction false} IdentifiersDistinct(f: string, i: nat, g: string, j: nat)
    requires i < U32_BOUND && j < U32_BOUND
    ensures RelayMessageId(f, i) == RelayMessageId(g, j) ==> f == g && i == j
    ensures RelayMessageId(f, i) != RelayHeaderMessageId(g)
  {
    PieceIdRoundTrip(f, i);
    PieceIdRoundTrip(g, j);
    var id := RelayHeaderMessageId(g);
    assert id[|id| - 7..] == HEADER_SUFFIX;
  }
}
