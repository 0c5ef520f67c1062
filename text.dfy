/**
 * String comparisons used by the .NET code: ordinal, ordinal-ignore-case and the
 * invariant lower-casing of a path extension. Case mapping is the ASCII one.
 */
module Text {

  /** Upper-case mapping of one character (ASCII letters only). */
  function UpperAscii(c: char): char
  {
    if 'a' <= c <= 'z' then (c as int - 32) as char else c
  }

  /** Lower-case mapping of one character (ASCII letters only). */
  function LowerAscii(c: char): char
  {
    if 'A' <= c <= 'Z' then (c as int + 32) as char else c
  }

  /** `string.ToLowerInvariant`. */
  function ToLower(s: string): (r: string)
    ensures |r| == |s|
    ensures forall i :: 0 <= i < |s| ==> r[i] == LowerAscii(s[i])
  {
    seq(|s|, i requires 0 <= i < |s| => LowerAscii(s[i]))
  }

  /** `a.Equals(b, StringComparison.OrdinalIgnoreCase)`: equal after upper-casing each character. */
  predicate EqualsIgnoreCase(a: string, b: string)
  {
    |a| == |b| && forall i :: 0 <= i < |a| ==> UpperAscii(a[i]) == UpperAscii(b[i])
  }

  /** `s.StartsWith(prefix, StringComparison.OrdinalIgnoreCase)`. */
  predicate StartsWithIgnoreCase(s: string, prefix: string)
  {
    |prefix| <= |s| && EqualsIgnoreCase(s[..|prefix|], prefix)
  }

  /** The key a dictionary built with `StringComparer.OrdinalIgnoreCase` files a string under. */
  function Fold(s: string): (r: string)
    ensures |r| == |s|
    ensures forall i :: 0 <= i < |s| ==> r[i] == UpperAscii(s[i])
  {
    seq(|s|, i requires 0 <= i < |s| => UpperAscii(s[i]))
  }

  /**
   * `char.IsWhiteSpace`: the Unicode space, line and paragraph separators (categories Zs, Zl
   * and Zp) and the control characters U+0009 to U+000D and U+0085.
   */
  predicate IsWhiteSpace(c: char)
  {
    || c == ' ' || '\t' <= c <= '\r' || c == '\U{0085}' || c == '\U{00A0}'
    || c == '\U{1680}' || '\U{2000}' <= c <= '\U{200A}' || c == '\U{2028}' || c == '\U{2029}'
    || c == '\U{202F}' || c == '\U{205F}' || c == '\U{3000}'
  }

  /** `string.IsNullOrWhiteSpace` for a non-null string. */
  predicate IsNullOrWhiteSpace(s: string)
  {
    forall i :: 0 <= i < |s| ==> IsWhiteSpace(s[i])
  }

  /** Two characters have the same upper-case form exactly when they have the same lower-case form. */
  lemma UpperLowerAgree(c: char, d: char)
    ensures UpperAscii(c) == UpperAscii(d) <==> LowerAscii(c) == LowerAscii(d)
  {
  }

  /** Comparing ignoring case is comparing the folded keys. */
  lemma EqualsIgnoreCaseIsFoldEquality(a: string, b: string)
    ensures EqualsIgnoreCase(a, b) <==> Fold(a) == Fold(b)
  {
    if Fold(a) == Fold(b) {
      assert |a| == |b|;
      forall i | 0 <= i < |a| ensures UpperAscii(a[i]) == UpperAscii(b[i]) {
        assert Fold(a)[i] == Fold(b)[i];
      }
    }
  }

  /** Comparing ignoring case is also comparing the lower-cased strings. */
  lemma EqualsIgnoreCaseIsLowerEquality(a: string, b: string)
    ensures EqualsIgnoreCase(a, b) <==> ToLower(a) == ToLower(b)
  {
    if ToLower(a) == ToLower(b) {
      forall i | 0 <= i < |a| ensures UpperAscii(a[i]) == UpperAscii(b[i]) {
        assert ToLower(a)[i] == ToLower(b)[i];
        UpperLowerAgree(a[i], b[i]);
      }
    }
    if EqualsIgnoreCase(a, b) {
      forall i | 0 <= i < |a| ensures ToLower(a)[i] == ToLower(b)[i] {
        UpperLowerAgree(a[i], b[i]);
      }
    }
  }
}
