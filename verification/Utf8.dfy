/** UTF-8 as the tools use it: strict and replacing decoders, and the byte-limited cut.

    Encoding follows section 3 of RFC 3629. The replacing decoder substitutes one U+FFFD for each
    maximal subpart of an ill-formed sequence, the practice of section 3.9 of the Unicode core
    specification. A Python text is a sequence of code points and may hold lone surrogates, which
    the encoder with errors="replace" turns into a question mark. */
module Utf8 {
  import opened Sequences

  type Byte = b: int | 0 <= b < 0x100
  type CodePoint = c: int | 0 <= c < 0x11_0000

  const REPLACEMENT: CodePoint := 0xFFFD
  const QUESTION_MARK: CodePoint := 0x3F

  predicate IsSurrogate(c: CodePoint) {
    0xD800 <= c < 0xE000
  }

  predicate IsScalarText(text: seq<CodePoint>) {
    forall i :: 0 <= i < |text| ==> !IsSurrogate(text[i])
  }

  // ----- Encoding ------------------------------------------------------------------------------

  function Scrub(c: CodePoint): CodePoint {
    if IsSurrogate(c) then QUESTION_MARK else c
  }

  function ScrubText(text: seq<CodePoint>): seq<CodePoint> {
    seq(|text|, i requires 0 <= i < |text| => Scrub(text[i]))
  }

  /** The one to four bytes of a code point (a surrogate is encoded as the question mark). */
  function EncodePoint(point: CodePoint): (bytes: seq<Byte>)
    ensures 1 <= |bytes| <= 4
  {
    var c := Scrub(point);
    if c < 0x80 then [c]
    else if c < 0x800 then [0xC0 + c / 0x40, 0x80 + c % 0x40]
    else if c < 0x1_0000 then [0xE0 + c / 0x40 / 0x40, 0x80 + c / 0x40 % 0x40, 0x80 + c % 0x40]
    else [0xF0 + c / 0x40 / 0x40 / 0x40, 0x80 + c / 0x40 / 0x40 % 0x40, 0x80 + c / 0x40 % 0x40, 0x80 + c % 0x40]
  }

  function Encode(text: seq<CodePoint>): seq<Byte> {
    if text == [] then [] else EncodePoint(text[0]) + Encode(text[1..])
  }

  /** The table of section 3 of RFC 3629: the range of a scalar value gives the number of bytes and the
      bits of the first, and all bytes behind it carry six bits. */
  lemma EncodePointExactly(c: CodePoint)
    requires !IsSurrogate(c)
    ensures var bytes: seq<int> := EncodePoint(c);
            && |bytes| == (if c <= 0x7F then 1 else if c <= 0x7FF then 2 else if c <= 0xFFFF then 3 else 4)
            && (forall i :: 1 <= i < |bytes| ==> 0x80 <= bytes[i] <= 0xBF)
            && (|bytes| == 1 ==> bytes[0] == c)
            && (|bytes| == 2 ==> 0xC0 <= bytes[0] <= 0xDF && c == (bytes[0] - 0xC0) * 0x40 + (bytes[1] - 0x80))
            && (|bytes| == 3 ==>
                  && 0xE0 <= bytes[0] <= 0xEF
                  && c == ((bytes[0] - 0xE0) * 0x40 + (bytes[1] - 0x80)) * 0x40 + (bytes[2] - 0x80))
            && (|bytes| == 4 ==>
                  && 0xF0 <= bytes[0] <= 0xF7
                  && c == (((bytes[0] - 0xF0) * 0x40 + (bytes[1] - 0x80)) * 0x40 + (bytes[2] - 0x80)) * 0x40
                          + (bytes[3] - 0x80))
  {
    assert c == c / 0x40 * 0x40 + c % 0x40;
    assert c / 0x40 == c / 0x40 / 0x40 * 0x40 + c / 0x40 % 0x40;
  }

  /** A lone surrogate is encoded as a question mark. */
  lemma SurrogateEncoded(c: CodePoint)
    requires IsSurrogate(c)
    ensures 0xD800 <= c <= 0xDFFF && EncodePoint(c) == [0x3F]
  {
  }

  // ----- Decoding ------------------------------------------------------------------------------

  /** How many bytes the sequence that `lead` starts has; 0 when no well-formed sequence starts so. */
  function SequenceLength(lead: Byte): nat {
    if lead < 0x80 then 1
    else if 0xC2 <= lead < 0xE0 then 2
    else if 0xE0 <= lead < 0xF0 then 3
    else if 0xF0 <= lead < 0xF5 then 4
    else 0
  }

  predicate IsContinuation(b: Byte) {
    0x80 <= b < 0xC0
  }

  /** Shifts in the six bits that a continuation byte carries. */
  function Append(bits: int, b: Byte): int {
    bits * 0x40 + (b - 0x80)
  }

  /** The narrower range of the second byte after E0, ED, F0 and F4. */
  predicate SecondByteOk(lead: Byte, b: Byte) {
    && IsContinuation(b)
    && (lead == 0xE0 ==> 0xA0 <= b)
    && (lead == 0xED ==> b < 0xA0)
    && (lead == 0xF0 ==> 0x90 <= b)
    && (lead == 0xF4 ==> b < 0x90)
  }

  /** Length of the longest prefix of `bytes` that is a prefix of some well-formed sequence, and at
      least 1: the maximal subpart when that sequence is not complete. */
  function MatchLength(bytes: seq<Byte>): (n: nat)
    requires bytes != []
    ensures 1 <= n <= |bytes|
    ensures SequenceLength(bytes[0]) > 0 ==> n <= SequenceLength(bytes[0])
  {
    var len := SequenceLength(bytes[0]);
    if len < 2 || |bytes| < 2 || !SecondByteOk(bytes[0], bytes[1]) then 1
    else if len < 3 || |bytes| < 3 || !IsContinuation(bytes[2]) then 2
    else if len < 4 || |bytes| < 4 || !IsContinuation(bytes[3]) then 3
    else 4
  }

  predicate StartsWellFormed(bytes: seq<Byte>)
    requires bytes != []
  {
    MatchLength(bytes) == SequenceLength(bytes[0])
  }

  /** The code point of a complete well-formed sequence at the head of `bytes`. */
  function DecodePoint(bytes: seq<Byte>): (c: CodePoint)
    requires bytes != [] && StartsWellFormed(bytes)
    ensures !IsSurrogate(c)
  {
    var lead: int := bytes[0];
    match SequenceLength(lead)
    case 1 => lead
    case 2 => Append(lead - 0xC0, bytes[1])
    case 3 => Append(Append(lead - 0xE0, bytes[1]), bytes[2])
    case _ => Append(Append(Append(lead - 0xF0, bytes[1]), bytes[2]), bytes[3])
  }

  /** bytes.decode("utf-8", errors="replace") */
  function DecodeReplacing(bytes: seq<Byte>): seq<CodePoint>
    decreases |bytes|
  {
    if bytes == [] then []
    else
      var n := MatchLength(bytes);
      [if StartsWellFormed(bytes) then DecodePoint(bytes) else REPLACEMENT] + DecodeReplacing(bytes[n..])
  }

  datatype Decoded = Text(text: seq<CodePoint>) | DecodeError

  /** bytes.decode("utf-8") */
  function DecodeStrict(bytes: seq<Byte>): Decoded
    decreases |bytes|
  {
    if bytes == [] then Text([])
    else if !StartsWellFormed(bytes) then DecodeError
    else
      match DecodeStrict(bytes[MatchLength(bytes)..])
      case DecodeError => DecodeError
      case Text(rest) => Text([DecodePoint(bytes)] + rest)
  }

  // ----- One code point at a time --------------------------------------------------------------

  /** The encoding of a code point is a complete well-formed sequence. */
  lemma EncodePointWellFormed(c: CodePoint)
    ensures MatchLength(EncodePoint(c)) == SequenceLength(EncodePoint(c)[0]) == |EncodePoint(c)|
  {
  }

  lemma DecodePointInverse(c: CodePoint)
    ensures StartsWellFormed(EncodePoint(c)) && DecodePoint(EncodePoint(c)) == Scrub(c)
  {
    EncodePointWellFormed(c);
    var v: int := Scrub(c);
    assert v == v / 0x40 * 0x40 + v % 0x40;
    assert v / 0x40 == v / 0x40 / 0x40 * 0x40 + v / 0x40 % 0x40;
    assert v / 0x40 / 0x40 == v / 0x40 / 0x40 / 0x40 * 0x40 + v / 0x40 / 0x40 % 0x40;
  }

  lemma AppendInverse(bits: int, b: Byte)
    requires IsContinuation(b)
    ensures Append(bits, b) / 0x40 == bits && Append(bits, b) % 0x40 == b - 0x80
  {
  }

  /** The encoder gives back the sequence a code point was decoded from: no other form is accepted. */
  lemma {:induction false} EncodeDecodedPoint(bytes: seq<Byte>)
    requires bytes != [] && StartsWellFormed(bytes)
    ensures EncodePoint(DecodePoint(bytes)) == bytes[..SequenceLength(bytes[0])]
  {
    var lead: int := bytes[0];
    match SequenceLength(lead)
    case 1 =>
    case 2 =>
      AppendInverse(lead - 0xC0, bytes[1]);
    case 3 =>
      AppendInverse(lead - 0xE0, bytes[1]);
      AppendInverse(Append(lead - 0xE0, bytes[1]), bytes[2]);
    case _ =>
      AppendInverse(lead - 0xF0, bytes[1]);
      AppendInverse(Append(lead - 0xF0, bytes[1]), bytes[2]);
      AppendInverse(Append(Append(lead - 0xF0, bytes[1]), bytes[2]), bytes[3]);
  }

  /** Bytes behind a complete sequence do not change how it is read. */
  lemma MatchIsLocal(bytes: seq<Byte>, rest: seq<Byte>)
    requires bytes != [] && MatchLength(bytes) == SequenceLength(bytes[0]) == |bytes|
    ensures MatchLength(bytes + rest) == |bytes| && DecodePoint(bytes + rest) == DecodePoint(bytes)
  {
  }

  /** Whatever follows the encoding of a code point, the decoders read that code point back. */
  lemma PointRoundTrip(c: CodePoint, rest: seq<Byte>)
    ensures var bytes := EncodePoint(c) + rest;
            && MatchLength(bytes) == SequenceLength(bytes[0]) == |EncodePoint(c)|
            && DecodePoint(bytes) == Scrub(c)
  {
    EncodePointWellFormed(c);
    DecodePointInverse(c);
    MatchIsLocal(EncodePoint(c), rest);
  }

  lemma DecodeAfterPoint(c: CodePoint, rest: seq<Byte>)
    ensures DecodeReplacing(EncodePoint(c) + rest) == [Scrub(c)] + DecodeReplacing(rest)
  {
    PointRoundTrip(c, rest);
    assert (EncodePoint(c) + rest)[|EncodePoint(c)|..] == rest;
  }

  /** A code point cut short is one maximal subpart: it decodes to a single U+FFFD. */
  lemma CutPointDecodes(c: CodePoint, n: nat)
    requires 0 < n < |EncodePoint(c)|
    ensures DecodeReplacing(EncodePoint(c)[..n]) == [REPLACEMENT]
  {
    var cut := EncodePoint(c)[..n];
    assert MatchLength(cut) == n;
    assert cut[n..] == [];
  }

  // ----- Whole texts ---------------------------------------------------------------------------

  lemma {:induction false} EncodeConcat(a: seq<CodePoint>, b: seq<CodePoint>)
    ensures Encode(a + b) == Encode(a) + Encode(b)
  {
    if a == [] {
      assert a + b == b;
    } else {
      EncodeConcat(a[1..], b);
      assert (a + b)[1..] == a[1..] + b;
      ConcatAssociative(EncodePoint(a[0]), Encode(a[1..]), Encode(b));
    }
  }

  lemma DecodeAfterFirst(text: seq<CodePoint>, rest: seq<Byte>)
    requires text != []
    ensures DecodeReplacing(Encode(text) + rest) == [Scrub(text[0])] + DecodeReplacing(Encode(text[1..]) + rest)
  {
    ConcatAssociative(EncodePoint(text[0]), Encode(text[1..]), rest);
    DecodeAfterPoint(text[0], Encode(text[1..]) + rest);
  }

  lemma ScrubTextHead(text: seq<CodePoint>)
    requires text != []
    ensures ScrubText(text) == [Scrub(text[0])] + ScrubText(text[1..])
  {
  }

  /** A code-point prefix of a text is decoded back in front of whatever bytes follow it. */
  lemma {:induction false} DecodeAfterPrefix(text: seq<CodePoint>, rest: seq<Byte>)
    ensures DecodeReplacing(Encode(text) + rest) == ScrubText(text) + DecodeReplacing(rest)
  {
    if text == [] {
      assert Encode(text) + rest == rest;
      assert ScrubText(text) + DecodeReplacing(rest) == DecodeReplacing(rest);
    } else {
      DecodeAfterPrefix(text[1..], rest);
      DecodeAfterFirst(text, rest);
      ScrubTextHead(text);
      ConcatAssociative([Scrub(text[0])], ScrubText(text[1..]), DecodeReplacing(rest));
    }
  }

  lemma StrictAfterPoint(c: CodePoint, rest: seq<Byte>, text: seq<CodePoint>)
    requires !IsSurrogate(c) && DecodeStrict(rest) == Text(text)
    ensures DecodeStrict(EncodePoint(c) + rest) == Text([c] + text)
  {
    PointRoundTrip(c, rest);
    DropPrefix(EncodePoint(c), rest);
  }

  /** Strict decoding of an encoding gives the text back. */
  lemma {:induction false} StrictRoundTrip(text: seq<CodePoint>)
    requires IsScalarText(text)
    ensures DecodeStrict(Encode(text)) == Text(text)
  {
    if text != [] {
      StrictRoundTrip(text[1..]);
      StrictAfterPoint(text[0], Encode(text[1..]), text[1..]);
      SplitHead(text);
    }
  }

  lemma EncodeCons(c: CodePoint, text: seq<CodePoint>)
    ensures Encode([c] + text) == EncodePoint(c) + Encode(text)
  {
    assert ([c] + text)[1..] == text;
  }

  /** Strict decoding accepts nothing but encodings: re-encoding what it read gives the same bytes. */
  lemma {:induction false} StrictDecodesEncodings(bytes: seq<Byte>)
    ensures DecodeStrict(bytes).Text? ==>
              IsScalarText(DecodeStrict(bytes).text) && Encode(DecodeStrict(bytes).text) == bytes
    decreases |bytes|
  {
    if bytes != [] && StartsWellFormed(bytes) {
      StrictDecodesEncodings(bytes[MatchLength(bytes)..]);
      StrictStep(bytes);
    }
  }

  lemma StrictStep(bytes: seq<Byte>)
    requires bytes != [] && StartsWellFormed(bytes)
    requires var rest := DecodeStrict(bytes[MatchLength(bytes)..]);
             rest.Text? ==> IsScalarText(rest.text) && Encode(rest.text) == bytes[MatchLength(bytes)..]
    ensures DecodeStrict(bytes).Text? ==>
              IsScalarText(DecodeStrict(bytes).text) && Encode(DecodeStrict(bytes).text) == bytes
  {
    var n := MatchLength(bytes);
    var rest := DecodeStrict(bytes[n..]);
    if rest.Text? {
      EncodeCons(DecodePoint(bytes), rest.text);
      EncodeDecodedPoint(bytes);
      SplitAt(bytes, n);
    }
  }

  // ----- Cutting at a byte limit ---------------------------------------------------------------

  datatype Truncation = Truncation(text: seq<CodePoint>, truncated: bool, totalBytes: nat)

  /** _truncate of tools/git.py; the two copies of _truncate_bytes return its first two fields. */
  function Truncate(text: seq<CodePoint>, maxBytes: nat): Truncation {
    var data := Encode(text);
    if |data| <= maxBytes then Truncation(text, false, |data|)
    else Truncation(DecodeReplacing(data[..maxBytes]), true, |data|)
  }

  /** Number of code points in the longest prefix of `text` whose encoding fits in `limit` bytes. */
  function FittingPoints(text: seq<CodePoint>, limit: nat): (k: nat)
    ensures k <= |text|
  {
    if text == [] || |EncodePoint(text[0])| > limit then 0
    else 1 + FittingPoints(text[1..], limit - |EncodePoint(text[0])|)
  }

  /** FittingPoints is the longest: that prefix fits, and no longer one does. */
  lemma {:induction false} FittingPointsIsLongest(text: seq<CodePoint>, limit: nat, j: nat)
    requires j <= |text|
    ensures |Encode(text[..j])| <= limit <==> j <= FittingPoints(text, limit)
  {
    if j > 0 {
      assert text[..j][0] == text[0] && text[..j][1..] == text[1..][..j - 1];
      if |EncodePoint(text[0])| <= limit {
        FittingPointsIsLongest(text[1..], limit - |EncodePoint(text[0])|, j - 1);
      }
    }
  }

  /** Where the limit falls: after the fitting prefix, and inside the next code point or before it. */
  lemma CutPosition(text: seq<CodePoint>, limit: nat)
    requires |Encode(text)| > limit
    ensures var k := FittingPoints(text, limit);
            && k < |text|
            && |Encode(text[..k])| <= limit < |Encode(text[..k])| + |EncodePoint(text[k])|
            && Encode(text)[..limit] == Encode(text[..k]) + EncodePoint(text[k])[..limit - |Encode(text[..k])|]
  {
    var k := FittingPoints(text, limit);
    FittingPointsIsLongest(text, limit, |text|);
    assert text[..|text|] == text;
    FittingPointsIsLongest(text, limit, k);
    FittingPointsIsLongest(text, limit, k + 1);
    EncodeAround(text, k);
    PrefixOfThree(Encode(text[..k]), EncodePoint(text[k]), Encode(text[k + 1..]), limit);
  }

  lemma EncodeAround(text: seq<CodePoint>, k: nat)
    requires k < |text|
    ensures Encode(text[..k + 1]) == Encode(text[..k]) + EncodePoint(text[k])
    ensures Encode(text) == (Encode(text[..k]) + EncodePoint(text[k])) + Encode(text[k + 1..])
  {
    var fitting, rest, c := text[..k], text[k + 1..], text[k];
    TakeOneMore(text, k);
    SplitAt(text, k + 1);
    EncodeSingle(c);
    EncodeConcat(fitting, [c]);
    EncodeConcat(fitting + [c], rest);
  }

  lemma EncodeSingle(c: CodePoint)
    ensures Encode([c]) == EncodePoint(c)
  {
    assert Encode([c]) == EncodePoint(c) + Encode([]);
  }

  lemma PrefixOfThree(a: seq<Byte>, b: seq<Byte>, c: seq<Byte>, n: nat)
    requires |a| <= n <= |a| + |b|
    ensures ((a + b) + c)[..n] == a + b[..n - |a|]
  {
  }

  /** The cut inside a code point: the bytes of the fitting prefix do not use up the limit. */
  predicate CutsInsidePoint(text: seq<CodePoint>, limit: nat) {
    |Encode(text)| > limit && |Encode(text[..FittingPoints(text, limit)])| < limit
  }

  /** Truncation is the identity, unflagged, exactly when the encoding fits. Otherwise it is the
      longest prefix that fits (surrogates scrubbed), plus one U+FFFD exactly when the limit falls
      inside a code point. The reported total is always that of the whole text. */
  lemma TruncateSpec(text: seq<CodePoint>, limit: nat)
    ensures var r := Truncate(text, limit); var k := FittingPoints(text, limit);
            && r.totalBytes == |Encode(text)|
            && (r.truncated <==> |Encode(text)| > limit)
            && (!r.truncated ==> r.text == text)
            && (r.truncated ==>
                  r.text == ScrubText(text[..k]) + (if CutsInsidePoint(text, limit) then [REPLACEMENT] else []))
  {
    if |Encode(text)| > limit {
      var k := FittingPoints(text, limit);
      CutPosition(text, limit);
      var n := limit - |Encode(text[..k])|;
      var rest := EncodePoint(text[k])[..n];
      DecodeAfterPrefix(text[..k], rest);
      if n > 0 { CutPointDecodes(text[k], n); }
    }
  }

  lemma {:induction false} ScrubKeepsEncoding(text: seq<CodePoint>)
    ensures Encode(ScrubText(text)) == Encode(text)
  {
    if text != [] {
      ScrubKeepsEncoding(text[1..]);
      assert ScrubText(text)[1..] == ScrubText(text[1..]);
    }
  }

  /** Encoding the result again: its exact size, and exactly when it is more than the limit. The bytes
      that the fitting prefix leaves unused are then one or two, too few for the U+FFFD that takes
      their place; so the size is at most limit + 2. */
  lemma TruncateSize(text: seq<CodePoint>, limit: nat)
    ensures var size, kept := |Encode(Truncate(text, limit).text)|, |Encode(text[..FittingPoints(text, limit)])|;
            && size == (if |Encode(text)| <= limit then |Encode(text)|
                        else if CutsInsidePoint(text, limit) then kept + 3 else kept)
            && (size > limit <==> |Encode(text)| > limit && 0 < limit - kept < 3)
            && size <= limit + 2
  {
    TruncateSpec(text, limit);
    if |Encode(text)| > limit {
      var k := FittingPoints(text, limit);
      CutPosition(text, limit);
      ScrubKeepsEncoding(text[..k]);
      EncodeConcat(ScrubText(text[..k]), [REPLACEMENT]);
      EncodeSingle(REPLACEMENT);
      AppendNothing(ScrubText(text[..k]));
    }
  }

  /** For every positive limit some text of scalar values reaches limit + 2. */
  lemma TruncateSizeReached(limit: nat) returns (text: seq<CodePoint>)
    requires limit > 0
    ensures IsScalarText(text) && |Encode(Truncate(text, limit).text)| == limit + 2
  {
    var ascii := seq(limit - 1, i => 0x61);
    text := ascii + [0xE9];
    AsciiLength(ascii);
    EncodeConcat(ascii, [0xE9]);
    assert |Encode([0xE9])| == 2;
    FittingPointsIsLongest(text, limit, limit - 1);
    FittingPointsIsLongest(text, limit, limit);
    assert text[..limit] == text && text[..limit - 1] == ascii;
    TruncateSpec(text, limit);
    assert ScrubText(ascii) == ascii;
    EncodeConcat(ascii, [REPLACEMENT]);
    assert |Encode([REPLACEMENT])| == 3;
  }

  lemma {:induction false} AsciiLength(text: seq<CodePoint>)
    requires forall i :: 0 <= i < |text| ==> text[i] < 0x80
    ensures |Encode(text)| == |text|
  {
    if text != [] { AsciiLength(text[1..]); }
  }

  /** The text comes back unchanged also in one flagged case: when all that is cut off is the end of
      a final U+FFFD, which the decoder puts back. */
  lemma TruncateFixesText(text: seq<CodePoint>, limit: nat)
    ensures Truncate(text, limit).text == text <==>
              || |Encode(text)| <= limit
              || (&& CutsInsidePoint(text, limit) && FittingPoints(text, limit) == |text| - 1
                  && text[|text| - 1] == REPLACEMENT && IsScalarText(text))
  {
    TruncateSpec(text, limit);
    if |Encode(text)| > limit {
      CutPosition(text, limit);
      CutFixesText(text, FittingPoints(text, limit), CutsInsidePoint(text, limit));
    }
  }

  lemma CutFixesText(text: seq<CodePoint>, k: nat, inside: bool)
    requires k < |text|
    ensures ScrubText(text[..k]) + (if inside then [REPLACEMENT] else []) == text <==>
              inside && k == |text| - 1 && text[k] == REPLACEMENT && IsScalarText(text)
  {
    ScrubFixesScalars(text[..k]);
    if inside && k == |text| - 1 && text[k] == REPLACEMENT {
      SplitLast(text);
      assert IsScalarText(text) <==> IsScalarText(text[..k]);
      if ScrubText(text[..k]) + [REPLACEMENT] == text {
        assert ScrubText(text[..k]) == text[..k];
      }
    } else if inside && k == |text| - 1 {
      assert (ScrubText(text[..k]) + [REPLACEMENT])[k] == REPLACEMENT;
    }
  }

  lemma ScrubFixesScalars(text: seq<CodePoint>)
    ensures ScrubText(text) == text <==> IsScalarText(text)
  {
    if i :| 0 <= i < |text| && IsSurrogate(text[i]) {
      assert ScrubText(text)[i] == QUESTION_MARK;
    }
  }
}
