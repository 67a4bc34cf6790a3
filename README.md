# Broken Korean filename fixer, modelled in Dafny

This project models a browser extension that repairs garbled Korean filenames. It
acts on files downloaded from the school domain `handong.edu`. When the browser asks
for a filename, the listener checks that the download's URL is from the school. It
then takes the last `/`-segment of the suggested filename and repairs it with
`fixBrokenKoreanFilename`. If the repaired name differs, it suggests the path with
that segment replaced and asks the browser to uniquify on a name collision.

The repair uses one of two strategies:

- **Strategy A.** Used when the name contains `&#`. Every decimal numeric reference
  `&#digits;` becomes `String.fromCharCode(parseInt(digits, 10))`, which is one UTF-16
  code unit, the value mod 65536. The result is then NFC-normalised.
- **Strategy B.** Used otherwise. A byte buffer is filled with each code unit's low 8
  bits. Every `0xBC 0x5F` in it is patched in place to `0xBC 0xAD`, the EUC-KR bytes of
  the syllable U+C11C. The buffer is decoded as EUC-KR. If the decoder throws, the
  original name is kept.

Strings are sequences of UTF-16 code units (`JsText.CodeUnit`, 0..65535); bytes are
`JsText.Byte` (0..255). This keeps the `& 0xff` masking and the 16-bit truncation of
`fromCharCode` explicit. Three collaborators the program takes from the browser are
parameters of the model rather than definitions:

- the WHATWG URL parser, as a function from the URL string to `Option<hostname>`,
  where `None` is the case in which `new URL` throws;
- `normalize("NFC")`, as a function on code-unit strings;
- `new TextDecoder("euc-kr").decode`, as a function from bytes to `Option<string>`,
  where `None` is the case in which it throws.

Modules: `JsText` (code units, `includes`, `endsWith`), `SchoolDomain`
(`isFromSchool`), `NumericEntities` (`decodeHtmlNumericEntities`), `FilenameFix`
(`fixBrokenKoreanFilename` and its two byte loops), `PathSegment` (`split`, `join`,
`replaceLastPathSegment`) and `DownloadListener` (the listener body).

Three behaviours of the code are easy to misread:

- The school test is `hostname.endsWith("handong.edu")`, with no dot boundary, so
  `xhandong.edu` is accepted along with `handong.edu` and its subdomains
  (`SchoolDomain.SuffixWithoutDotBoundary`).
- `new TextDecoder("euc-kr")` is built without `fatal: true`. Such a decoder replaces
  invalid bytes with U+FFFD instead of throwing, so the `catch` that keeps the original
  name runs only when the decoder throws. The model leaves this to the decoder
  parameter: the original name is kept exactly when that parameter yields `None`.
- `&#48708;&#45936;&#53552;` is three references. They decode to the three syllables
  U+BE44, U+B370 and U+D130 (`NumericEntities.HangulReferences`).

## Model

| member | source | states |
|---|---|---|
| `JsText.Includes` | background.js:22 | `s.includes(p)`: `p` starts at the front of `s` or somewhere in its tail; `IncludesIffOccurs` characterises it |
| `JsText.IncludesIffOccurs` | background.js:22 | `includes(p)` holds exactly when `p` occurs at some offset of the string |
| `JsText.EndsWith` | background.js:5 | `s.endsWith(p)`: `s` is at least as long as `p` and its last units, as many as `p` has, are `p`; `EndsWithIffConcat` characterises it |
| `JsText.EndsWithIffConcat` | background.js:5 | `endsWith(p)` holds exactly when the string is some prefix followed by `p` |
| `SchoolDomain.IsFromSchool` | background.js:2-8 | `isFromSchool`: false when the URL does not parse, otherwise the raw `endsWith("handong.edu")` test on the hostname; `IsFromSchoolIff` characterises it |
| `SchoolDomain.IsFromSchoolIff` | background.js:2-8 | a URL is from school iff it parses and its hostname is some (possibly empty) string followed by `handong.edu` |
| `SchoolDomain.UnparsableIsNotFromSchool` | background.js:6-7 | a URL the parser rejects is never from school |
| `SchoolDomain.SuffixWithoutDotBoundary` | background.js:5 | `handong.edu`, `www.handong.edu` and also `xhandong.edu` are accepted: the suffix test has no dot boundary |
| `SchoolDomain.SchoolNameNotAtEnd` | background.js:5 | `handong.edu.example.com` and `handong.ed` are refused |
| `NumericEntities.DigitRun` | background.js:12 | the greedy `\d` run at the front: every unit in it is an ASCII digit and the unit after it is not |
| `NumericEntities.DecimalValue` | background.js:13 | `parseInt(digits, 10)` as the exact value of the digit run; `DecimalDigits` is its inverse |
| `NumericEntities.FromCharCode` | background.js:13 | `String.fromCharCode` keeps values below 65536 unchanged and otherwise the value with the same remainder mod 65536 |
| `NumericEntities.DecimalDigits` | background.js:13 | the decimal spelling of `n` is a non-empty digit run that `parseInt` reads back as `n` |
| `NumericEntities.ReferenceAt` | background.js:12-13 | a match at the front is exactly `&`, `#`, one or more ASCII digits and `;`, and it is replaced by the digits' value mod 65536 |
| `NumericEntities.SpelledReferenceIsMatched` | background.js:12 | conversely, every such spelling is the match, with that length: at most one match starts at any position |
| `NumericEntities.DecodeNumericRefs` | background.js:12-14 | the replacement pass never makes a string longer |
| `NumericEntities.DecodeHtmlNumericEntities` | background.js:11-17 | a string in which no match starts anywhere, including one holding only malformed `&#`, comes back as its NFC form |
| `NumericEntities.NoMarkerDecodesToItself` | background.js:12-14 | a string without `&#` holds no match, and the replacement pass is the identity on it |
| `NumericEntities.UnmatchedTextIsCopied` | background.js:12-14 | text at none of whose positions a match starts is copied unchanged ahead of whatever follows it, whatever it contains |
| `NumericEntities.UnmatchedPrefixIsCopied` | background.js:12-14 | the same for the first `k` units of a string: they are copied and scanning resumes at `k` |
| `NumericEntities.ReferenceShortens` | background.js:12-14 | a string in which some match starts gets strictly shorter |
| `NumericEntities.UnchangedIffNoReference` | background.js:12-14 | the replacement pass leaves a string unchanged exactly when no match starts anywhere in it |
| `NumericEntities.ReferenceIsReplaced` | background.js:12-14 | `&#d;` followed by anything becomes the single unit `parseInt(d) mod 65536`, and scanning resumes after the `;` |
| `NumericEntities.ReferencesDecode` | background.js:12-14 | adjacent references decode to one code unit each, in order, with no overlap |
| `NumericEntities.DecodeEncodeAll` | background.js:12-14 | writing every code unit as its decimal reference and decoding gives the string back |
| `NumericEntities.UnmatchedUnitIsCopied` | background.js:12 | a unit at which no match starts, a `&` included, is copied and scanning resumes at the next unit |
| `NumericEntities.MarkersWithoutDigits` | background.js:12 | a string in which every `&#` is followed by a non-digit holds no match |
| `NumericEntities.NoDigitsIsVerbatim` | background.js:12 | `&#;` is left verbatim |
| `NumericEntities.HexIsVerbatim` | background.js:12 | `&#x41;` is left verbatim: the pattern accepts decimal digits only |
| `NumericEntities.UnclosedIsVerbatim` | background.js:12 | `&#12` with no `;` is left verbatim |
| `NumericEntities.MalformedAmidTextIsVerbatim` | background.js:12 | `a&#x41;b&#;c` is left verbatim |
| `NumericEntities.UnclosedBeforeReference` | background.js:12-14 | `&#` and two digits with no `;` are copied, and a reference right after them is still decoded |
| `NumericEntities.UnclosedThenReference` | background.js:12-14 | `&#12&#65;` decodes to `&#12A` |
| `NumericEntities.HangulReferences` | background.js:12-14 | `&#48708;&#45936;&#53552;` decodes to U+BE44 U+B370 U+D130 |
| `NumericEntities.ReferenceWrapsModulo` | background.js:13 | `&#65601;` decodes to U+0041: `fromCharCode` keeps the value mod 65536 |
| `FilenameFix.LowBytes` | background.js:28-31 | the buffer has the name's length and byte `i` is `charCodeAt(i) mod 256` |
| `FilenameFix.LowBytesUndoLatin1` | background.js:28-31 | masking recovers every byte of a Latin-1 misreading of a byte string |
| `FilenameFix.Latin1OfLowBytes` | background.js:28-31 | a name whose code units are all below 256 is the Latin-1 reading of its own buffer |
| `FilenameFix.Patched` | background.js:35-39 | the patch, pointwise: byte `j` becomes `0xAD` exactly where `0xBC 0x5F` ends at `j`; `PatchedPointwise` and `PatchBrokenPairs` tie it to the loop |
| `FilenameFix.PatchedPointwise` | background.js:35-39 | the patch keeps the length; byte `j` changes exactly when `0xBC` is at `j-1` and `0x5F` at `j`, and then becomes `0xAD` |
| `FilenameFix.ShortBuffersUnpatched` | background.js:35 | buffers of length 0 or 1 are untouched |
| `FilenameFix.PatchedHasNoBrokenPair` | background.js:35-39 | no `0xBC 0x5F` pair is left after the patch |
| `FilenameFix.PatchedIdempotent` | background.js:35-39 | patching a patched buffer changes nothing |
| `FilenameFix.RepairFilename` | background.js:20-49 | the value `fixBrokenKoreanFilename` returns; `MarkerSelectsStrategyA`, `NoMarkerSelectsStrategyB` and `DecodeFailureKeepsName` state its dispatch |
| `FilenameFix.MarkerSelectsStrategyA` | background.js:22-23 | with `&#` present the result is `decodeHtmlNumericEntities` of the name, does not depend on the decoder, and is the NFC of the name when no match starts in it |
| `FilenameFix.NoMarkerSelectsStrategyB` | background.js:22-44 | without `&#` the result does not depend on NFC, and a decoder that returns a string on the patched low bytes has that string taken as the name |
| `FilenameFix.MaskLowBytes` | background.js:28-31 | the first loop fills a fresh buffer with exactly the low bytes of the name |
| `FilenameFix.PatchBrokenPairs` | background.js:35-39 | the in-place left-to-right loop leaves exactly the pointwise patch of the buffer it was given |
| `FilenameFix.FixBrokenKoreanFilename` | background.js:20-49 | the method, with its two byte loops, returns exactly `RepairFilename` of its arguments |
| `FilenameFix.BrokenSyllableIsPatched` | background.js:33-37 | the mojibake `¼_` reaches the decoder as `0xBC 0xAD` |
| `FilenameFix.DecodeFailureKeepsName` | background.js:41-48 | without `&#` and with a decoder that throws, the name comes back unchanged |
| `PathSegment.Split` | background.js:54 | `split("/")` returns at least one piece and no piece contains `/` |
| `PathSegment.Join` | background.js:56 | `join("/")`: the pieces with one `/` between each two; `JoinSplit`, `SplitJoin` and `JoinAppend` characterise it |
| `PathSegment.JoinSplit` | background.js:54-56 | `join("/")` of `split("/")` is the original path |
| `PathSegment.SplitJoin` | background.js:54-56 | splitting slash-free pieces joined by `/` gives back the pieces |
| `PathSegment.SplitWithoutSlash` | background.js:54 | a path with no `/` splits into itself alone |
| `PathSegment.SplitAtSlash` | background.js:54 | splitting `a/b` is splitting `a`, then splitting `b` |
| `PathSegment.JoinAppend` | background.js:56 | joining one more piece appends `/` and that piece |
| `PathSegment.Directory` | background.js:53-57 | the prefix up to and including the last `/`: a prefix, empty or ending in `/`, with no `/` after it |
| `PathSegment.DirectoryOfSplitPath` | background.js:53-57 | a prefix ending in `/` followed by slash-free text is exactly the directory |
| `PathSegment.SplitDirectory` | background.js:54 | a path splits as its directory's pieces followed by its last segment; with no `/`, into itself |
| `PathSegment.LastSegment` | background.js:71-72 | the last element of `split("/")`, the original base; `LastSegmentFollowsDirectory` characterises it |
| `PathSegment.LastSegmentFollowsDirectory` | background.js:71-72 | the original base (last element of the split) is all that follows the last `/`, and has no `/` |
| `PathSegment.ReplaceLastPathSegment` | background.js:53-57 | `replaceLastPathSegment`: split, overwrite the last element, join; `ReplaceKeepsDirectory`, `ReplaceBareName` and `ReplaceKeepsSegments` characterise it |
| `PathSegment.ReplaceKeepsDirectory` | background.js:53-57 | the result is the path up to and including its last `/`, followed by the new name |
| `PathSegment.ReplaceBareName` | background.js:53-57 | a path with no `/` is replaced by exactly the new name |
| `PathSegment.ReplaceKeepsSegments` | background.js:53-57 | a new name with no `/` keeps the segment count and every earlier segment, and becomes the last segment |
| `PathSegment.ReplaceExamples` | background.js:53-57 | `("a/b/c.txt", "d.txt")` gives `a/b/d.txt`; `("c.txt", "d.txt")` gives `d.txt` |
| `DownloadListener.OnDeterminingFilename` | background.js:61-89 | no override unless the URL is from school and the repaired base differs from the original; an override is `replaceLastPathSegment(filename, fixedBase)` with `uniquify`, keeps the directory, and never equals the original filename |

## Left out

- `new URL(...)` (background.js:4): the WHATWG URL parser is a parameter yielding the hostname or `None`.
- `decoded.normalize("NFC")` (background.js:16): Unicode composition is a parameter.
- `TextDecoder("euc-kr")` (background.js:42-43): the EUC-KR tables are a parameter. So the model cannot state which syllable particular bytes decode to. For the same reason it cannot state that the unpatched `0xBC 0x5F` decodes to a different syllable than U+C11C.
- `NumericEntities.DecimalValue`: `parseInt` is modelled as the exact integer value of the digits. For runs of more than about 15 digits, JavaScript's result is a rounded double, and `fromCharCode` of it can differ from the exact value mod 65536. Past about 309 digits `parseInt` gives `Infinity`, which `fromCharCode` maps to 0.
- `chrome.downloads.onDeterminingFilename.addListener` (background.js:61): registering the listener is left out. The model is the callback body, and its call to `suggest` becomes the returned `Suggestion`.
- `console.log` and `console.error` (background.js:46, 68-69, 75, 83): logging output is left out.
- `FilenameFix.MaskLowBytes` and `FilenameFix.PatchBrokenPairs`: in the source the two loops sit inline in `fixBrokenKoreanFilename`. Here they are two methods on the same `Uint8Array`-like buffer, called in the same order.
- Only ASCII string literals are used (`JsText.Ascii`). Surrogate pairs and code points above U+FFFF appear only as the code units a caller passes in.
