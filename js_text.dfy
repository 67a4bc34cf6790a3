/**
 * JavaScript strings as the extension sees them: sequences of UTF-16 code
 * units, together with the few String.prototype operations it relies on
 * (includes, endsWith) and the byte type of a Uint8Array.
 */
module JsText {

  /** One UTF-16 code unit, the value `charCodeAt` returns. */
  type CodeUnit = u: int | 0 <= u < 0x1_0000

  /** One element of a `Uint8Array`. */
  type Byte = b: int | 0 <= b < 0x100

  /** A JavaScript string value. */
  type JsString = seq<CodeUnit>

  /** The outcome of an operation that may throw. */
  datatype Option<+T> = None | Some(value: T)

  const Ampersand: CodeUnit := 0x26   // '&'
  const NumberSign: CodeUnit := 0x23  // '#'
  const Semicolon: CodeUnit := 0x3B   // ';'
  const Slash: CodeUnit := 0x2F       // '/'
  const DigitZero: CodeUnit := 0x30   // '0'

  /**
   * The code units of a string literal whose characters all lie in the
   * Basic Multilingual Plane, where one character is one code unit. Every
   * literal the model uses is ASCII.
   */
  function Ascii(s: string): JsString {
    seq(|s|, i requires 0 <= i < |s| => (s[i] as int) % 0x1_0000)
  }

  /** `s.startsWith(p)`. */
  predicate StartsWith(s: JsString, p: JsString) {
    |p| <= |s| && s[..|p|] == p
  }

  /** `s.endsWith(p)`. */
  predicate EndsWith(s: JsString, p: JsString) {
    |p| <= |s| && s[|s| - |p|..] == p
  }

  /** `s.includes(p)`: p starts at the front of s, or somewhere in its tail. */
  predicate Includes(s: JsString, p: JsString)
    decreases |s|
  {
    StartsWith(s, p) || (|s| > 0 && Includes(s[1..], p))
  }

  /** p occurs in s starting at offset i. */
  predicate OccursAt(s: JsString, p: JsString, i: int) {
    0 <= i <= |s| - |p| && s[i..i + |p|] == p
  }

  /** `includes` holds exactly when p occurs at some offset of s. */
  lemma {:induction false} IncludesIffOccurs(s: JsString, p: JsString)
    ensures Includes(s, p) <==> exists i :: OccursAt(s, p, i)
    decreases |s|
  {
    if |s| > 0 {
      IncludesIffOccurs(s[1..], p);
      if Includes(s[1..], p) {
        if StartsWith(s, p) {
          assert OccursAt(s, p, 0);
        } else {
          var i :| OccursAt(s[1..], p, i);
          assert OccursAt(s, p, i + 1) by {
            var window := s[i + 1..i + 1 + |p|];
            forall k | 0 <= k < |p| ensures window[k] == p[k] {
              assert window[k] == s[1..][i..i + |p|][k];
            }
          }
        }
      } else if StartsWith(s, p) {
        assert OccursAt(s, p, 0);
      }
      if i :| OccursAt(s, p, i) {
        if i == 0 {
          assert StartsWith(s, p);
        } else {
          assert s[1..][i - 1..i - 1 + |p|] == s[i..i + |p|];
          assert OccursAt(s[1..], p, i - 1);
        }
      }
    } else {
      if i :| OccursAt(s, p, i) {
        assert i == 0 && p == [];
        assert StartsWith(s, p);
      } else if Includes(s, p) {
        assert OccursAt(s, p, 0);
      }
    }
  }

  /** `endsWith` holds exactly when s is some string followed by p. */
  lemma EndsWithIffConcat(s: JsString, p: JsString)
    ensures EndsWith(s, p) <==> exists front: JsString :: s == front + p
  {
    if EndsWith(s, p) {
      assert s == s[..|s| - |p|] + p;
    }
    if front: JsString :| s == front + p {
      assert s[|s| - |p|..] == p;
    }
  }
}
