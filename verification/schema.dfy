/** What the request validators share: a failed check reports its field's name, and lengths count as JavaScript counts them. */
module Schema {

  /** The one-field report of a check: the field's name when it failed, nothing otherwise. */
  function Issue(failed: bool, field: string): (r: seq<string>)
    ensures failed <==> r == [field]
    ensures !failed <==> r == []
  {
    if failed then [field] else []
  }

  /** A character written as two UTF-16 code units (a surrogate pair). */
  predicate Astral(c: char) {
    c as int >= 0x10000
  }

  /**
   * The length a JavaScript string reports, which the schemas' `min`, `max`
   * and `length` compare: one code unit per character, two for a character
   * outside the Basic Multilingual Plane.
   */
  function Utf16Len(s: string): (n: nat)
    ensures |s| <= n <= 2 * |s|
  {
    if |s| == 0 then 0 else (if Astral(s[0]) then 2 else 1) + Utf16Len(s[1..])
  }

  /** Without astral characters the JavaScript length is the character count. */
  lemma {:induction false} Utf16LenPlain(s: string)
    requires forall i :: 0 <= i < |s| ==> !Astral(s[i])
    ensures Utf16Len(s) == |s|
  {
    if |s| > 0 {
      assert forall i :: 0 <= i < |s[1..]| ==> s[1..][i] == s[i + 1];
      Utf16LenPlain(s[1..]);
    }
  }

  /** A string of astral characters only reports twice its character count. */
  lemma {:induction false} Utf16LenAllAstral(s: string)
    requires forall i :: 0 <= i < |s| ==> Astral(s[i])
    ensures Utf16Len(s) == 2 * |s|
  {
    if |s| > 0 {
      assert forall i :: 0 <= i < |s[1..]| ==> s[1..][i] == s[i + 1];
      Utf16LenAllAstral(s[1..]);
    }
  }

  /** Lengths add up over concatenation. */
  lemma {:induction false} Utf16LenConcat(a: string, b: string)
    ensures Utf16Len(a + b) == Utf16Len(a) + Utf16Len(b)
  {
    if |a| > 0 {
      assert (a + b)[1..] == a[1..] + b;
      Utf16LenConcat(a[1..], b);
    } else {
      assert a + b == b;
    }
  }
}
