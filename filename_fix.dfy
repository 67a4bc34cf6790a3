/**
 * `fixBrokenKoreanFilename`: the repair of a downloaded file's base name.
 *
 * Strategy A, chosen whenever the name contains "&#": decode decimal
 * numeric references and normalise to NFC. Strategy B otherwise: read each
 * code unit's low byte back into a byte buffer (undoing a Latin-1 misreading
 * of EUC-KR bytes), patch every 0xBC 0x5F to 0xBC 0xAD (the second byte of
 * the syllable U+C11C arrives altered), and decode the buffer as EUC-KR,
 * keeping the original name when the decoder throws.
 *
 * NFC and the EUC-KR decoder are collaborators the model does not define:
 * they are parameters, the decoder yielding None where it would throw.
 */
module FilenameFix {
  import opened JsText
  import opened NumericEntities

  /** `charCodeAt(i) & 0xff` for every i: the buffer Strategy B starts from. */
  function LowBytes(s: JsString): (b: seq<Byte>)
    ensures |b| == |s|
    ensures forall i :: 0 <= i < |s| ==> b[i] == s[i] % 0x100
  {
    if s == [] then [] else [s[0] % 0x100] + LowBytes(s[1..])
  }

  /** Reading bytes as Latin-1, one code unit per byte: how the mojibake arises. */
  function Latin1(b: seq<Byte>): JsString {
    seq(|b|, i requires 0 <= i < |b| => b[i])
  }

  /** Masking recovers every byte of a Latin-1 misreading. */
  lemma LowBytesUndoLatin1(b: seq<Byte>)
    ensures LowBytes(Latin1(b)) == b
  {
  }

  /** A name whose code units all fit in a byte is the Latin-1 reading of its own buffer. */
  lemma Latin1OfLowBytes(s: JsString)
    requires forall i :: 0 <= i < |s| ==> s[i] < 0x100
    ensures Latin1(LowBytes(s)) == s
  {
    forall i | 0 <= i < |s| ensures Latin1(LowBytes(s))[i] == s[i] {
      ByteIsItsOwnLowByte(s[i]);
    }
  }

  /** A value that fits in a byte is its own low byte. */
  lemma ByteIsItsOwnLowByte(x: int)
    requires 0 <= x < 0x100
    ensures x % 0x100 == x
  {
  }

  /** The lead byte of the pair the patch looks for. */
  const PatchLead: Byte := 0xBC
  /** The altered trail byte that arrives after it. */
  const BrokenTrail: Byte := 0x5F
  /** The trail byte it is rewritten to: 0xBC 0xAD is U+C11C in EUC-KR. */
  const FixedTrail: Byte := 0xAD

  /** A pair to patch ends at position j of b. */
  predicate BrokenPairEndsAt(b: seq<Byte>, j: int) {
    0 < j < |b| && b[j - 1] == PatchLead && b[j] == BrokenTrail
  }

  /** The patch, stated pointwise: byte j becomes 0xAD exactly where a pair ends at j. */
  function Patched(b: seq<Byte>): seq<Byte> {
    seq(|b|, j requires 0 <= j < |b| => if BrokenPairEndsAt(b, j) then FixedTrail else b[j])
  }

  /** The patch keeps the length, rewrites exactly the pair ends, and keeps every other byte. */
  lemma PatchedPointwise(b: seq<Byte>, j: int)
    requires 0 <= j < |b|
    ensures |Patched(b)| == |b|
    ensures Patched(b)[j] != b[j] <==> BrokenPairEndsAt(b, j)
    ensures Patched(b)[j] == if BrokenPairEndsAt(b, j) then FixedTrail else b[j]
  {
  }

  /** Buffers of fewer than two bytes are never patched. */
  lemma ShortBuffersUnpatched(b: seq<Byte>)
    requires |b| < 2
    ensures Patched(b) == b
  {
  }

  /** No broken pair is left after the patch. */
  lemma PatchedHasNoBrokenPair(b: seq<Byte>, j: int)
    ensures !BrokenPairEndsAt(Patched(b), j)
  {
  }

  /** Patching twice is patching once. */
  lemma PatchedIdempotent(b: seq<Byte>)
    ensures Patched(Patched(b)) == Patched(b)
  {
    forall j | 0 <= j < |b| ensures Patched(Patched(b))[j] == Patched(b)[j] {
      PatchedHasNoBrokenPair(b, j);
    }
  }

  /** `String.prototype.normalize("NFC")`, supplied by the host. */
  type Normalizer = JsString -> JsString

  /** `new TextDecoder("euc-kr").decode`, supplied by the host; None where it throws. */
  type EucKrDecoder = seq<Byte> -> Option<JsString>

  /** The bytes Strategy B hands to the EUC-KR decoder. */
  function DecoderInput(rawName: JsString): seq<Byte> {
    Patched(LowBytes(rawName))
  }

  /** What `fixBrokenKoreanFilename` returns, as a function of its input. */
  function RepairFilename(rawName: JsString, nfc: Normalizer, eucKr: EucKrDecoder): JsString {
    if Includes(rawName, EntityMarker) then
      DecodeHtmlNumericEntities(rawName, nfc)
    else
      match eucKr(DecoderInput(rawName))
      case Some(decoded) => decoded
      case None => rawName
  }

  /**
   * With "&#" present the name goes through Strategy A alone: the decoder is
   * never consulted, and a name whose "&#" starts no complete reference is
   * only normalised.
   */
  lemma MarkerSelectsStrategyA(rawName: JsString, nfc: Normalizer, eucKr: EucKrDecoder, other: EucKrDecoder)
    requires Includes(rawName, EntityMarker)
    ensures RepairFilename(rawName, nfc, eucKr) == DecodeHtmlNumericEntities(rawName, nfc)
    ensures RepairFilename(rawName, nfc, eucKr) == RepairFilename(rawName, nfc, other)
    ensures !HasReference(rawName) ==> RepairFilename(rawName, nfc, eucKr) == nfc(rawName)
  {
  }

  /**
   * Without "&#" the name goes through Strategy B alone: NFC is never applied,
   * and a decoder that returns a string has its output taken as the name.
   */
  lemma NoMarkerSelectsStrategyB(rawName: JsString, nfc: Normalizer, other: Normalizer, eucKr: EucKrDecoder)
    requires !Includes(rawName, EntityMarker)
    ensures RepairFilename(rawName, nfc, eucKr) == RepairFilename(rawName, other, eucKr)
    ensures eucKr(DecoderInput(rawName)).Some? ==>
      eucKr(DecoderInput(rawName)) == Some(RepairFilename(rawName, nfc, eucKr))
  {
  }

  /** The first loop of Strategy B: a new `Uint8Array` holding `charCodeAt(i) & 0xff`. */
  method MaskLowBytes(rawName: JsString) returns (bytes: array<Byte>)
    ensures fresh(bytes)
    ensures bytes[..] == LowBytes(rawName)
  {
    bytes := new Byte[|rawName|];
    for i := 0 to |rawName|
      invariant forall k :: 0 <= k < i ==> bytes[k] == rawName[k] % 0x100
    {
      bytes[i] := rawName[i] % 0x100;
    }
  }

  /**
   * The second loop of Strategy B, in place and from left to right. The byte
   * it writes, 0xAD, is neither a lead nor a broken trail, so a rewrite never
   * makes or unmakes a pair further on, and the loop computes the pointwise
   * patch.
   */
  method PatchBrokenPairs(bytes: array<Byte>)
    modifies bytes
    ensures bytes[..] == Patched(old(bytes[..]))
  {
    ghost var masked := bytes[..];
    var i := 0;
    while i + 1 < bytes.Length
      invariant 0 <= i <= bytes.Length
      invariant forall k :: 0 <= k <= i && k < bytes.Length ==> bytes[k] == Patched(masked)[k]
      invariant forall k :: i < k < bytes.Length ==> bytes[k] == masked[k]
    {
      if bytes[i] == PatchLead && bytes[i + 1] == BrokenTrail {
        bytes[i + 1] := FixedTrail;
      }
      i := i + 1;
    }
  }

  /** `fixBrokenKoreanFilename`. */
  method FixBrokenKoreanFilename(rawName: JsString, nfc: Normalizer, eucKr: EucKrDecoder)
    returns (fixedName: JsString)
    ensures fixedName == RepairFilename(rawName, nfc, eucKr)
  {
    if Includes(rawName, EntityMarker) {
      return DecodeHtmlNumericEntities(rawName, nfc);
    }
    var bytes := MaskLowBytes(rawName);
    PatchBrokenPairs(bytes);
    match eucKr(bytes[..])
    case Some(decoded) =>
      fixedName := decoded;
    case None =>
      fixedName := rawName;
  }

  /** Strategy B hands the decoder "¼_" (0xBC 0x5F) as 0xBC 0xAD, the EUC-KR bytes of U+C11C. */
  lemma BrokenSyllableIsPatched()
    ensures DecoderInput([0xBC, 0x5F]) == [0xBC, 0xAD]
  {
    assert LowBytes([0xBC, 0x5F]) == [0xBC, 0x5F];
  }

  /** Without "&#" and with a failing decoder, the name comes back untouched. */
  lemma DecodeFailureKeepsName(rawName: JsString, nfc: Normalizer, eucKr: EucKrDecoder)
    requires !Includes(rawName, EntityMarker)
    requires eucKr(DecoderInput(rawName)) == None
    ensures RepairFilename(rawName, nfc, eucKr) == rawName
  {
  }
}
