/**
 * `decodeHtmlNumericEntities`: the global replacement of /&#(\d+);/ by
 * `String.fromCharCode(parseInt(digits, 10))`, followed by NFC.
 *
 * The regular expression is modelled as a left-to-right scanner. At each
 * position either a complete reference starts there, and is replaced by one
 * code unit, or the code unit at that position is copied and scanning moves
 * on by one. `\d+` is greedy and must be followed by ';', and a digit is
 * never ';', so at most one match can start at any position; scanning
 * resumes after the ';', so matches never overlap.
 */
module NumericEntities {
  import opened JsText

  /** `\d` without the u flag: the ASCII digits 0-9. */
  predicate IsDigit(u: CodeUnit) {
    DigitZero <= u <= DigitZero + 9
  }

  predicate AllDigits(d: JsString) {
    forall k :: 0 <= k < |d| ==> IsDigit(d[k])
  }

  /** The length of the greedy `\d*` run at the front of s. */
  function DigitRun(s: JsString): (n: nat)
    ensures n <= |s|
    ensures AllDigits(s[..n])
    ensures n == |s| || !IsDigit(s[n])
  {
    if |s| > 0 && IsDigit(s[0]) then
      var n := 1 + DigitRun(s[1..]);
      assert s[..n] == [s[0]] + s[1..][..n - 1];
      n
    else 0
  }

  /** `parseInt(d, 10)` of a run of decimal digits, as an exact integer. */
  function DecimalValue(d: JsString): nat
    requires AllDigits(d)
  {
    if |d| == 0 then 0 else 10 * DecimalValue(d[..|d| - 1]) + (d[|d| - 1] - DigitZero)
  }

  /** `String.fromCharCode(v)`: ToUint16, the value modulo 2^16. */
  function FromCharCode(v: nat): (u: CodeUnit)
    ensures v < 0x1_0000 ==> u == v
    ensures (v - u) % 0x1_0000 == 0
  {
    v % 0x1_0000
  }

  /** A match of the pattern: how many code units it spans and the unit that replaces it. */
  datatype Reference = Reference(length: nat, replacement: CodeUnit)

  /** The first n code units of s spell a reference: "&#", one or more digits, then ";". */
  predicate SpellsReference(s: JsString, n: int) {
    4 <= n <= |s| && s[0] == Ampersand && s[1] == NumberSign
    && AllDigits(s[2..n - 1]) && s[n - 1] == Semicolon
  }

  /**
   * The match of /&#(\d+);/ that starts at the first code unit of s, if there
   * is one: a spelled reference, replaced by its digits' value mod 2^16.
   */
  function ReferenceAt(s: JsString): (m: Option<Reference>)
    ensures m.Some? ==> SpellsReference(s, m.value.length)
    ensures m.Some? ==> m.value.replacement == FromCharCode(DecimalValue(s[2..m.value.length - 1]))
  {
    if 2 <= |s| && s[0] == Ampersand && s[1] == NumberSign then
      var n := DigitRun(s[2..]);
      if 0 < n && 2 + n < |s| && s[2 + n] == Semicolon then
        assert s[2..][..n] == s[2..2 + n];
        Some(Reference(n + 3, FromCharCode(DecimalValue(s[2..2 + n]))))
      else None
    else None
  }

  /** Conversely, every spelled reference is the match, so at most one match starts at any position. */
  lemma SpelledReferenceIsMatched(s: JsString, n: int)
    requires SpellsReference(s, n)
    ensures ReferenceAt(s) == Some(Reference(n, FromCharCode(DecimalValue(s[2..n - 1]))))
  {
    assert s[2..] == s[2..n - 1] + s[n - 1..];
    DigitRunStops(s[2..n - 1], s[n - 1..]);
  }

  /** A match of the pattern starts somewhere in s. */
  predicate HasReference(s: JsString) {
    exists i :: 0 <= i < |s| && ReferenceAt(s[i..]).Some?
  }

  /** The replacement pass of `decodeHtmlNumericEntities`, before NFC. */
  function DecodeNumericRefs(s: JsString): (r: JsString)
    ensures |r| <= |s|
    decreases |s|
  {
    if |s| == 0 then []
    else match ReferenceAt(s)
      case Some(m) => [m.replacement] + DecodeNumericRefs(s[m.length..])
      case None => [s[0]] + DecodeNumericRefs(s[1..])
  }

  /** The marker whose presence selects strategy A: "&#". */
  const EntityMarker: JsString := [Ampersand, NumberSign]

  /** `decodeHtmlNumericEntities`; `nfc` stands for `String.prototype.normalize("NFC")`. */
  function DecodeHtmlNumericEntities(s: JsString, nfc: JsString -> JsString): (r: JsString)
    ensures !HasReference(s) ==> r == nfc(s)
  {
    UnchangedIffNoReference(s);
    nfc(DecodeNumericRefs(s))
  }

  /** A code unit at which no match starts is copied, and scanning resumes at the next one. */
  lemma UnmatchedUnitIsCopied(s: JsString)
    requires 0 < |s| && ReferenceAt(s) == None
    ensures DecodeNumericRefs(s) == [s[0]] + DecodeNumericRefs(s[1..])
  {
  }

  /** No match starts at any of the first k code units of s, stated one position at a time. */
  predicate NoReferenceBefore(s: JsString, k: nat)
    decreases k
  {
    k == 0 || (0 < |s| && ReferenceAt(s) == None && NoReferenceBefore(s[1..], k - 1))
  }

  /** The positional form agrees with "no match starts at any offset below k". */
  lemma {:induction false} NoReferenceBeforeIff(s: JsString, k: nat)
    requires k <= |s|
    ensures NoReferenceBefore(s, k) <==> forall i :: 0 <= i < k ==> ReferenceAt(s[i..]) == None
    decreases k
  {
    if k > 0 {
      NoReferenceBeforeIff(s[1..], k - 1);
      assert s[0..] == s;
      assert forall i :: 1 <= i < k ==> s[1..][i - 1..] == s[i..];
    }
  }

  /** Code units at which no match starts are copied unchanged, and scanning resumes after them. */
  lemma {:induction false} UnmatchedPrefixIsCopied(s: JsString, k: nat)
    requires k <= |s| && NoReferenceBefore(s, k)
    ensures DecodeNumericRefs(s) == s[..k] + DecodeNumericRefs(s[k..])
    decreases k
  {
    if k > 0 {
      UnmatchedUnitIsCopied(s);
      UnmatchedPrefixIsCopied(s[1..], k - 1);
      assert s[1..][k - 1..] == s[k..];
      PrependUnit(s, k, DecodeNumericRefs(s), DecodeNumericRefs(s[1..]), DecodeNumericRefs(s[k..]));
    }
  }

  /** Sequence algebra for the step above: one copied unit in front of k - 1 copied units. */
  lemma PrependUnit(s: JsString, k: nat, whole: JsString, tail: JsString, after: JsString)
    requires 0 < k <= |s|
    requires whole == [s[0]] + tail && tail == s[1..][..k - 1] + after
    ensures whole == s[..k] + after
  {
    assert s[..k] == [s[0]] + s[1..][..k - 1];
  }

  /** Text at which no match starts is copied unchanged, ahead of whatever follows it. */
  lemma UnmatchedTextIsCopied(text: JsString, rest: JsString)
    requires forall i :: 0 <= i < |text| ==> ReferenceAt((text + rest)[i..]) == None
    ensures DecodeNumericRefs(text + rest) == text + DecodeNumericRefs(rest)
  {
    var s := text + rest;
    NoReferenceBeforeIff(s, |text|);
    UnmatchedPrefixIsCopied(s, |text|);
    assert s[..|text|] == text && s[|text|..] == rest;
  }

  /** A string holding a match gets strictly shorter: the match spans four or more units and becomes one. */
  lemma {:induction false} ReferenceShortens(s: JsString)
    requires HasReference(s)
    ensures |DecodeNumericRefs(s)| < |s|
    decreases |s|
  {
    var i :| 0 <= i < |s| && ReferenceAt(s[i..]).Some?;
    if ReferenceAt(s) == None {
      assert s[0..] == s;
      assert s[1..][i - 1..] == s[i..];
      ReferenceShortens(s[1..]);
    }
  }

  /** The replacement pass leaves s unchanged exactly when no match starts anywhere in s. */
  lemma UnchangedIffNoReference(s: JsString)
    ensures DecodeNumericRefs(s) == s <==> !HasReference(s)
  {
    if HasReference(s) {
      ReferenceShortens(s);
    } else {
      assert s + [] == s;
      UnmatchedTextIsCopied(s, []);
    }
  }

  /** A string without "&#" holds no match, so the replacement pass leaves it as it is. */
  lemma NoMarkerDecodesToItself(s: JsString)
    ensures !Includes(s, EntityMarker) ==> !HasReference(s) && DecodeNumericRefs(s) == s
  {
    IncludesIffOccurs(s, EntityMarker);
    if i :| 0 <= i < |s| && ReferenceAt(s[i..]).Some? {
      assert s[i..i + 2] == s[i..][..2];
      assert OccursAt(s, EntityMarker, i);
    }
    UnchangedIffNoReference(s);
  }

  /** The shortest decimal spelling of n. */
  function DecimalDigits(n: nat): (d: JsString)
    ensures 1 <= |d| && AllDigits(d)
    ensures DecimalValue(d) == n
  {
    if n < 10 then
      [DigitZero + n]
    else
      var d := DecimalDigits(n / 10) + [DigitZero + n % 10];
      assert d[..|d| - 1] == DecimalDigits(n / 10);
      d
  }

  /** The digit run of a digit string stops at the first non-digit after it. */
  lemma {:induction false} DigitRunStops(d: JsString, rest: JsString)
    requires AllDigits(d)
    requires |rest| > 0 && !IsDigit(rest[0])
    ensures DigitRun(d + rest) == |d|
    decreases |d|
  {
    if |d| > 0 {
      assert (d + rest)[1..] == d[1..] + rest;
      DigitRunStops(d[1..], rest);
    } else {
      assert d + rest == rest;
    }
  }

  /** A reference "&#d;" followed by anything is replaced by one code unit, d's value mod 2^16. */
  lemma ReferenceIsReplaced(d: JsString, rest: JsString)
    requires 1 <= |d| && AllDigits(d)
    ensures DecodeNumericRefs(EntityMarker + d + [Semicolon] + rest)
         == [FromCharCode(DecimalValue(d))] + DecodeNumericRefs(rest)
  {
    var s := EntityMarker + d + [Semicolon] + rest;
    assert s[2..] == d + ([Semicolon] + rest);
    DigitRunStops(d, [Semicolon] + rest);
    assert s[2..2 + |d|] == d;
    assert s[|d| + 3..] == rest;
    assert ReferenceAt(s) == Some(Reference(|d| + 3, FromCharCode(DecimalValue(d))));
  }

  /** Each element is a non-empty run of decimal digits. */
  predicate AllDigitRuns(ds: seq<JsString>) {
    forall i :: 0 <= i < |ds| ==> 1 <= |ds[i]| && AllDigits(ds[i])
  }

  /** The references "&#d;" for each digit run d of ds, one after the other. */
  function References(ds: seq<JsString>): JsString
    requires AllDigitRuns(ds)
  {
    if |ds| == 0 then [] else EntityMarker + ds[0] + [Semicolon] + References(ds[1..])
  }

  /** A run of adjacent references decodes to one code unit per reference, in order. */
  lemma {:induction false} ReferencesDecode(ds: seq<JsString>)
    requires AllDigitRuns(ds)
    ensures |DecodeNumericRefs(References(ds))| == |ds|
    ensures forall i :: 0 <= i < |ds| ==>
      DecodeNumericRefs(References(ds))[i] == FromCharCode(DecimalValue(ds[i]))
    decreases |ds|
  {
    if |ds| > 0 {
      ReferenceIsReplaced(ds[0], References(ds[1..]));
      ReferencesDecode(ds[1..]);
      assert forall i :: 1 <= i < |ds| ==> ds[1..][i - 1] == ds[i];
    }
  }

  /** References whose values are the code units of t decode to t. */
  lemma ReferencesDecodeTo(ds: seq<JsString>, t: JsString)
    requires AllDigitRuns(ds) && |ds| == |t|
    requires forall i :: 0 <= i < |t| ==> FromCharCode(DecimalValue(ds[i])) == t[i]
    ensures DecodeNumericRefs(References(ds)) == t
  {
    ReferencesDecode(ds);
  }

  /** Every code unit of t written as its shortest decimal reference. */
  function EncodeAll(t: JsString): JsString {
    References(seq(|t|, i requires 0 <= i < |t| => DecimalDigits(t[i])))
  }

  /** Decoding undoes writing every code unit as a numeric reference. */
  lemma {:induction false} DecodeEncodeAll(t: JsString)
    ensures DecodeNumericRefs(EncodeAll(t)) == t
  {
    var ds := seq(|t|, i requires 0 <= i < |t| => DecimalDigits(t[i]));
    assert AllDigitRuns(ds);
    assert forall i :: 0 <= i < |t| ==> FromCharCode(DecimalValue(ds[i])) == t[i];
    ReferencesDecodeTo(ds, t);
  }

  /** A string in which every "&#" is followed by something other than a digit holds no match. */
  lemma MarkersWithoutDigits(s: JsString)
    requires forall i :: 0 <= i < |s| - 2 && s[i] == Ampersand && s[i + 1] == NumberSign ==> !IsDigit(s[i + 2])
    ensures !HasReference(s)
  {
    forall i | 0 <= i < |s| ensures ReferenceAt(s[i..]) == None {
      if i + 2 < |s| {
        assert s[i..][2] == s[i + 2];
      }
    }
  }

  /** "&#;" has no digits and is left verbatim. */
  lemma NoDigitsIsVerbatim(s: JsString)
    requires s == Ascii("&#;")
    ensures DecodeNumericRefs(s) == s
  {
    assert s == [0x26, 0x23, 0x3B];
    MarkersWithoutDigits(s);
    UnchangedIffNoReference(s);
  }

  /** "&#x41;" is a hexadecimal reference, which the pattern does not accept: left verbatim. */
  lemma HexIsVerbatim(s: JsString)
    requires s == Ascii("&#x41;")
    ensures DecodeNumericRefs(s) == s
  {
    assert s == [0x26, 0x23, 0x78, 0x34, 0x31, 0x3B];
    MarkersWithoutDigits(s);
    UnchangedIffNoReference(s);
  }

  /** "&#12" lacks its closing ';' and is left verbatim. */
  lemma UnclosedIsVerbatim(s: JsString)
    requires s == Ascii("&#12")
    ensures DecodeNumericRefs(s) == s
  {
    assert s == [0x26, 0x23, 0x31, 0x32];
    UnchangedIffNoReference(s);
  }

  /** Malformed references amid other text: "a&#x41;b&#;c" is left verbatim. */
  lemma MalformedAmidTextIsVerbatim(s: JsString)
    requires s == Ascii("a&#x41;b&#;c")
    ensures DecodeNumericRefs(s) == s
  {
    assert s == [0x61, 0x26, 0x23, 0x78, 0x34, 0x31, 0x3B, 0x62, 0x26, 0x23, 0x3B, 0x63];
    MarkersWithoutDigits(s);
    UnchangedIffNoReference(s);
  }

  /** Appending a digit multiplies the value by ten and adds the digit. */
  lemma DecimalValueSnoc(d: JsString, c: CodeUnit)
    requires AllDigits(d) && IsDigit(c)
    ensures AllDigits(d + [c]) && DecimalValue(d + [c]) == 10 * DecimalValue(d) + (c - DigitZero)
  {
    assert (d + [c])[..|d|] == d;
  }

  /** The value of a five-digit run, digit by digit. */
  lemma FiveDigitValue(d: JsString)
    requires |d| == 5 && AllDigits(d)
    ensures DecimalValue(d) == 10000 * (d[0] - DigitZero) + 1000 * (d[1] - DigitZero)
                             + 100 * (d[2] - DigitZero) + 10 * (d[3] - DigitZero) + (d[4] - DigitZero)
  {
    assert d == [] + [d[0]] + [d[1]] + [d[2]] + [d[3]] + [d[4]];
    DecimalValueSnoc([], d[0]);
    DecimalValueSnoc([d[0]], d[1]);
    assert [d[0]] + [d[1]] == [d[0], d[1]];
    DecimalValueSnoc([d[0], d[1]], d[2]);
    assert [d[0], d[1]] + [d[2]] == [d[0], d[1], d[2]];
    DecimalValueSnoc([d[0], d[1], d[2]], d[3]);
    assert [d[0], d[1], d[2]] + [d[3]] == [d[0], d[1], d[2], d[3]];
    DecimalValueSnoc([d[0], d[1], d[2], d[3]], d[4]);
    assert [d[0], d[1], d[2], d[3]] + [d[4]] == d;
  }

  /** Three references one after the other. */
  lemma ThreeReferences(a: JsString, b: JsString, c: JsString)
    requires AllDigitRuns([a, b, c])
    ensures (EntityMarker + a + [Semicolon]) + (EntityMarker + b + [Semicolon]) + (EntityMarker + c + [Semicolon])
         == References([a, b, c])
  {
    assert [a, b, c][1..] == [b, c];
    assert [b, c][1..] == [c];
    assert [c][1..] == [];
    var r1, r2, r3 := EntityMarker + a + [Semicolon], EntityMarker + b + [Semicolon], EntityMarker + c + [Semicolon];
    assert References([c]) == r3 + References([]);
    assert References([b, c]) == r2 + References([c]);
    assert References([a, b, c]) == r1 + References([b, c]);
  }

  /** Three references one after the other decode to three code units. */
  lemma ThreeReferencesDecode(s: JsString, a: JsString, b: JsString, c: JsString, t: JsString)
    requires AllDigitRuns([a, b, c]) && |t| == 3
    requires t[0] == FromCharCode(DecimalValue([a, b, c][0]))
    requires t[1] == FromCharCode(DecimalValue([a, b, c][1]))
    requires t[2] == FromCharCode(DecimalValue([a, b, c][2]))
    requires s == (EntityMarker + a + [Semicolon]) + (EntityMarker + b + [Semicolon]) + (EntityMarker + c + [Semicolon])
    ensures DecodeNumericRefs(s) == t
  {
    ThreeReferences(a, b, c);
    ReferencesDecodeTo([a, b, c], t);
  }

  /** "&#48708;&#45936;&#53552;" is three references, one after the other. */
  lemma HangulSpelling(s: JsString)
    requires s == Ascii("&#48708;&#45936;&#53552;")
    ensures s == (EntityMarker + Ascii("48708") + [Semicolon]) + (EntityMarker + Ascii("45936") + [Semicolon])
               + (EntityMarker + Ascii("53552") + [Semicolon])
  {
    var r1, r2, r3 := Ascii("&#48708;"), Ascii("&#45936;"), Ascii("&#53552;");
    assert s == r1 + r2 + r3;
    assert r1 == EntityMarker + Ascii("48708") + [Semicolon];
    assert r2 == EntityMarker + Ascii("45936") + [Semicolon];
    assert r3 == EntityMarker + Ascii("53552") + [Semicolon];
  }

  /** The digit runs of that string and their values. */
  lemma HangulDigitRuns()
    ensures AllDigitRuns([Ascii("48708"), Ascii("45936"), Ascii("53552")])
    ensures DecimalValue(Ascii("48708")) == 0xBE44
    ensures DecimalValue(Ascii("45936")) == 0xB370
    ensures DecimalValue(Ascii("53552")) == 0xD130
  {
    assert Ascii("48708") == [0x34, 0x38, 0x37, 0x30, 0x38];
    assert Ascii("45936") == [0x34, 0x35, 0x39, 0x33, 0x36];
    assert Ascii("53552") == [0x35, 0x33, 0x35, 0x35, 0x32];
    FiveDigitValue(Ascii("48708"));
    FiveDigitValue(Ascii("45936"));
    FiveDigitValue(Ascii("53552"));
  }

  /** "&#48708;&#45936;&#53552;" decodes to the three syllables U+BE44, U+B370, U+D130. */
  lemma HangulReferences(s: JsString)
    requires s == Ascii("&#48708;&#45936;&#53552;")
    ensures DecodeNumericRefs(s) == [0xBE44, 0xB370, 0xD130]
  {
    HangulSpelling(s);
    HangulDigitRuns();
    ThreeReferencesDecode(s, Ascii("48708"), Ascii("45936"), Ascii("53552"), [0xBE44, 0xB370, 0xD130]);
  }

  /** A value beyond one code unit wraps: "&#65601;" is 65601 mod 65536 = 65, 'A'. */
  lemma ReferenceWrapsModulo(s: JsString)
    requires s == Ascii("&#65601;")
    ensures DecodeNumericRefs(s) == [0x41]
  {
    var d := Ascii("65601");
    assert d == [0x36, 0x35, 0x36, 0x30, 0x31];
    FiveDigitValue(d);
    assert s == EntityMarker + d + [Semicolon] + [];
    ReferenceIsReplaced(d, []);
  }

  /** "&#" and two digits, followed by another '&', start no match and are copied as they are. */
  lemma UnclosedTwoDigits(text: JsString, rest: JsString)
    requires |text| == 4 && text[0] == Ampersand && text[1] == NumberSign
    requires IsDigit(text[2]) && IsDigit(text[3])
    requires 0 < |rest| && rest[0] == Ampersand
    ensures DecodeNumericRefs(text + rest) == text + DecodeNumericRefs(rest)
  {
    var s := text + rest;
    assert s[2..] == text[2..] + rest;
    DigitRunStops(text[2..], rest);
    assert s[0..] == s;
    assert forall i :: 0 <= i < |text| ==> ReferenceAt((text + rest)[i..]) == None;
    UnmatchedTextIsCopied(text, rest);
  }

  /** An unclosed "&#" and two digits are copied, and a reference right after them is still decoded. */
  lemma UnclosedBeforeReference(s: JsString, text: JsString, d: JsString)
    requires |text| == 4 && text[0] == Ampersand && text[1] == NumberSign
    requires IsDigit(text[2]) && IsDigit(text[3])
    requires 1 <= |d| && AllDigits(d)
    requires s == text + (EntityMarker + d + [Semicolon])
    ensures DecodeNumericRefs(s) == text + [FromCharCode(DecimalValue(d))]
  {
    var rest := EntityMarker + d + [Semicolon];
    UnclosedTwoDigits(text, rest);
    assert rest == rest + [];
    ReferenceIsReplaced(d, []);
  }

  /** The value of a two-digit run, digit by digit. */
  lemma TwoDigitValue(d: JsString)
    requires |d| == 2 && AllDigits(d)
    ensures DecimalValue(d) == 10 * (d[0] - DigitZero) + (d[1] - DigitZero)
  {
    assert d == [] + [d[0]] + [d[1]];
    DecimalValueSnoc([], d[0]);
    assert [] + [d[0]] == [d[0]];
    DecimalValueSnoc([d[0]], d[1]);
  }

  /** "&#12&#65;" gives "&#12A". */
  lemma UnclosedThenReference(s: JsString)
    requires s == Ascii("&#12&#65;")
    ensures DecodeNumericRefs(s) == Ascii("&#12A")
  {
    var text, d := Ascii("&#12"), Ascii("65");
    assert text == [0x26, 0x23, 0x31, 0x32];
    assert d == [0x36, 0x35];
    assert s == text + (EntityMarker + d + [Semicolon]);
    TwoDigitValue(d);
    UnclosedBeforeReference(s, text, d);
    assert Ascii("&#12A") == text + [0x41];
  }
}
