/**
 * The two facts about .NET strings that request validation depends on:
 * `string.IsNullOrWhiteSpace` and `string.Length`.
 */
module Text {

  import opened Optional

  /** `Char.IsWhiteSpace`: the Unicode space separators, the line and paragraph
      separators, the controls U+0009 to U+000D, and U+0085. */
  predicate IsWhiteSpace(c: char) {
    || ('\U{0009}' <= c <= '\U{000D}')
    || c == ' '
    || c == '\U{0085}'
    || c == '\U{00A0}'
    || c == '\U{1680}'
    || ('\U{2000}' <= c <= '\U{200A}')
    || c == '\U{2028}'
    || c == '\U{2029}'
    || c == '\U{202F}'
    || c == '\U{205F}'
    || c == '\U{3000}'
  }

  /** `string.IsNullOrWhiteSpace`: null, empty, or whitespace only. */
  predicate IsNullOrWhiteSpace(s: Option<string>)
    ensures s.Some? ==> (IsNullOrWhiteSpace(s) <==> !HasVisibleText(s.value))
    ensures s == Some([]) ==> IsNullOrWhiteSpace(s)
  {
    s.None? || forall i | 0 <= i < |s.value| :: IsWhiteSpace(s.value[i])
  }

  /** The string holds at least one character that is not whitespace. */
  predicate HasVisibleText(s: string) {
    exists i | 0 <= i < |s| :: !IsWhiteSpace(s[i])
  }

  /** A character outside the Basic Multilingual Plane is a surrogate pair in UTF-16. */
  predicate InBmp(c: char) {
    c as int <= 0xFFFF
  }

  /** `string.Length`: the number of UTF-16 code units, where a Dafny `char` is a
      Unicode scalar value. */
  function Utf16Length(s: string): (n: nat)
    ensures |s| <= n <= 2 * |s|
    ensures n == 0 <==> s == []
  {
    if s == [] then 0
    else (if InBmp(s[0]) then 1 else 2) + Utf16Length(s[1..])
  }

  /** On text made of Basic Multilingual Plane characters C#'s length is the character count. */
  lemma {:induction false} Utf16LengthOfBmp(s: string)
    requires forall i | 0 <= i < |s| :: InBmp(s[i])
    ensures Utf16Length(s) == |s|
  {
    if s != [] {
      assert InBmp(s[0]);
      Utf16LengthOfBmp(s[1..]);
    }
  }

}
