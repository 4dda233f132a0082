/**
 The parts of the Java platform the controller leans on: references that may
 be null, `java.util.Optional`, and the length `String.length()` reports.
 */
module JavaLang {

  /** A Java reference that may be `null`. */
  datatype Nullable<+T> = Null | Ref(value: T)

  /** `java.util.Optional`: what a repository's `findById` returns. */
  datatype Optional<+T> = Empty | Present(value: T)

  /** A Dafny `char` is a Unicode scalar value; Java stores the ones above
      U+FFFF as a surrogate pair, that is, as two `char`s. A Java string
      holding an unpaired surrogate has no counterpart here. */
  predicate IsSupplementary(c: char) {
    c as int > 0xFFFF
  }

  function CodeUnits(c: char): nat {
    if IsSupplementary(c) then 2 else 1
  }

  /** The value of `String.length()` in Java: the number of UTF-16 code units,
      which exceeds the number of code points exactly when the string holds a
      character outside the Basic Multilingual Plane. Only well-formed UTF-16
      strings are covered. */
  function Utf16Length(s: string): (n: nat)
    ensures |s| <= n <= 2 * |s|
    ensures n == |s| <==> forall i :: 0 <= i < |s| ==> !IsSupplementary(s[i])
    ensures n == 2 * |s| <==> forall i :: 0 <= i < |s| ==> IsSupplementary(s[i])
  {
    if s == [] then 0
    else
      var rest := Utf16Length(s[1..]);
      assert forall i :: 1 <= i < |s| ==> s[i] == s[1..][i - 1];
      CodeUnits(s[0]) + rest
  }
}
