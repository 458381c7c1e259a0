/** JavaScript strings as sequences of UTF-16 code units, the white-space set that
    `String.prototype.trim` and the regular-expression class `\s` share, and `trim`. */
module Text {

  /** One UTF-16 code unit, the element of a JavaScript string. */
  type CodeUnit = c: int | 0 <= c < 0x1_0000

  type JsString = seq<CodeUnit>

  /** The WhiteSpace and LineTerminator code points of the ECMAScript language
      specification: what `trim` removes and what `\s` matches. All of them lie in
      the Basic Multilingual Plane, so testing single code units is exact. */
  predicate IsWhitespace(c: CodeUnit) {
    || c == 0x09 || c == 0x0A || c == 0x0B || c == 0x0C || c == 0x0D
    || c == 0x20 || c == 0xA0 || c == 0x1680
    || (0x2000 <= c <= 0x200A)
    || c == 0x2028 || c == 0x2029 || c == 0x202F || c == 0x205F
    || c == 0x3000 || c == 0xFEFF
  }

  predicate AllWhitespace(s: JsString) {
    forall i :: 0 <= i < |s| ==> IsWhitespace(s[i])
  }

  /** Neither end of `s` is white space. */
  predicate IsTrimmed(s: JsString) {
    s == [] || (!IsWhitespace(s[0]) && !IsWhitespace(s[|s| - 1]))
  }

  /** The length of the white-space run at the start of `s`. */
  function LeadingWhitespace(s: JsString): (n: nat)
    ensures n <= |s|
    ensures forall i :: 0 <= i < n ==> IsWhitespace(s[i])
    ensures n < |s| ==> !IsWhitespace(s[n])
  {
    if s != [] && IsWhitespace(s[0]) then 1 + LeadingWhitespace(s[1..]) else 0
  }

  /** The length of the white-space run at the end of `s`. */
  function TrailingWhitespace(s: JsString): (n: nat)
    ensures n <= |s|
    ensures forall i :: |s| - n <= i < |s| ==> IsWhitespace(s[i])
    ensures n < |s| ==> !IsWhitespace(s[|s| - 1 - n])
  {
    if s != [] && IsWhitespace(s[|s| - 1]) then 1 + TrailingWhitespace(s[..|s| - 1]) else 0
  }

  /** `s.trim()`: `s` without its leading and trailing white space. */
  function Trim(s: JsString): (r: JsString)
    ensures |r| <= |s|
    ensures IsTrimmed(r)
    ensures r == [] <==> AllWhitespace(s)
  {
    var lo := LeadingWhitespace(s);
    if lo == |s| then []
    else
      var hi := |s| - TrailingWhitespace(s);
      assert !IsWhitespace(s[lo]);
      s[lo..hi]
  }

  /** Trimming removes white space only: `s` is `Trim(s)` with a white-space run on
      either side. */
  lemma TrimRemovesOnlyWhitespace(s: JsString)
    ensures var lo := LeadingWhitespace(s);
      && lo + |Trim(s)| <= |s|
      && Trim(s) == s[lo..lo + |Trim(s)|]
      && AllWhitespace(s[..lo])
      && AllWhitespace(s[lo + |Trim(s)|..])
  {
    var lo := LeadingWhitespace(s);
    if lo < |s| {
      var n := TrailingWhitespace(s);
      assert !IsWhitespace(s[lo]);
      assert lo + |Trim(s)| == |s| - n;
    }
  }

  /** Trimming twice is trimming once. */
  lemma TrimIdempotent(s: JsString)
    ensures Trim(Trim(s)) == Trim(s)
  {
    var r := Trim(s);
    if r != [] {
      assert LeadingWhitespace(r) == 0;
      assert TrailingWhitespace(r) == 0;
      assert r[0..|r|] == r;
    }
  }

  /** The trimmed value has at least two code units exactly when `s` has two
      non-white-space code units somewhere. */
  lemma {:induction false} TrimAtLeastTwo(s: JsString)
    ensures |Trim(s)| >= 2 <==>
      exists i, j :: 0 <= i < j < |s| && !IsWhitespace(s[i]) && !IsWhitespace(s[j])
  {
    TrimRemovesOnlyWhitespace(s);
    var lo := LeadingWhitespace(s);
    var r := Trim(s);
    if |r| >= 2 {
      assert !IsWhitespace(s[lo]) && !IsWhitespace(s[lo + |r| - 1]) by {
        assert s[lo] == r[0] && s[lo + |r| - 1] == r[|r| - 1];
      }
    }
    if exists i, j :: 0 <= i < j < |s| && !IsWhitespace(s[i]) && !IsWhitespace(s[j]) {
      var i, j :| 0 <= i < j < |s| && !IsWhitespace(s[i]) && !IsWhitespace(s[j]);
      assert lo <= i;
      assert j < lo + |r|;
    }
  }
}
