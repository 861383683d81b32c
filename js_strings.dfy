/**
 * The JavaScript string primitives the row lookup relies on:
 * `String.prototype.trim`, `toLowerCase`, `includes` and `String(n)`
 * for integral numbers.
 */
module JsStrings {

  /**
   * The characters `trim` removes: ECMAScript WhiteSpace and LineTerminator.
   * The usual blanks are among them; no letter, digit or sign is.
   */
  predicate IsJsSpace(c: char): (b: bool)
    ensures c == ' ' || c == '\t' || c == '\n' || c == '\r' ==> b
    ensures b ==> !('a' <= c <= 'z') && !('A' <= c <= 'Z') && !('0' <= c <= '9') && c != '-'
  {
    var u := c as int;
    u == 0x09 || u == 0x0A || u == 0x0B || u == 0x0C || u == 0x0D || u == 0x20 ||
    u == 0xA0 || u == 0x1680 || (0x2000 <= u <= 0x200A) || u == 0x2028 ||
    u == 0x2029 || u == 0x202F || u == 0x205F || u == 0x3000 || u == 0xFEFF
  }

  /** A trimmed string neither starts nor ends with whitespace. */
  predicate IsTrimmed(s: string)
  {
    s == [] || (!IsJsSpace(s[0]) && !IsJsSpace(s[|s| - 1]))
  }

  /** `t` is the slice of `s` at offset `lo`, with only whitespace around it. */
  predicate SpacedSliceAt(s: string, t: string, lo: int)
  {
    0 <= lo <= |s| - |t| && t == s[lo..lo + |t|] &&
    (forall k :: 0 <= k < lo ==> IsJsSpace(s[k])) &&
    (forall k :: lo + |t| <= k < |s| ==> IsJsSpace(s[k]))
  }

  /** The first position at or after `i` that holds no whitespace, `|s|` if there is none. */
  function SkipSpaces(s: string, i: nat): (j: nat)
    requires i <= |s|
    ensures i <= j <= |s|
    ensures forall k :: i <= k < j ==> IsJsSpace(s[k])
    ensures j < |s| ==> !IsJsSpace(s[j])
    decreases |s| - i
  {
    if i < |s| && IsJsSpace(s[i]) then SkipSpaces(s, i + 1) else i
  }

  /** Scanning back from `j` to `lo`: the end of the last non-space of `s[lo..j]`, `lo` if there is none. */
  function SkipSpacesBack(s: string, lo: nat, j: nat): (e: nat)
    requires lo <= j <= |s|
    ensures lo <= e <= j
    ensures forall k :: e <= k < j ==> IsJsSpace(s[k])
    ensures e > lo ==> !IsJsSpace(s[e - 1])
  {
    if j > lo && IsJsSpace(s[j - 1]) then SkipSpacesBack(s, lo, j - 1) else j
  }

  /** `s.trim()`: a trimmed slice of `s` with only whitespace around it. */
  function Trim(s: string): (r: string)
    ensures IsTrimmed(r)
    ensures SpacedSliceAt(s, r, SkipSpaces(s, 0))
  {
    var lo := SkipSpaces(s, 0);
    s[lo..SkipSpacesBack(s, lo, |s|)]
  }

  /** A trimmed slice with only whitespace around it is the trim of the string: `Trim` is determined by its contract. */
  lemma TrimUnique(s: string, t: string, lo: int)
    requires IsTrimmed(t) && SpacedSliceAt(s, t, lo)
    ensures Trim(s) == t
  {
    var u, lo' := Trim(s), SkipSpaces(s, 0);
    assert t != [] ==> s[lo] == t[0] && s[lo + |t| - 1] == t[|t| - 1];
    assert u != [] ==> s[lo'] == u[0] && s[lo' + |u| - 1] == u[|u| - 1];
    assert t != [] && u != [] ==> lo == lo' && |t| == |u|;
  }

  /** Trimming twice is trimming once. */
  lemma TrimIdempotent(s: string)
    ensures Trim(Trim(s)) == Trim(s)
  {
    var t := Trim(s);
    assert SpacedSliceAt(t, t, 0);
    TrimUnique(t, t, 0);
  }

  /** Whitespace added around a string disappears under `trim`. */
  lemma TrimPadded(pre: string, s: string, post: string)
    requires forall k :: 0 <= k < |pre| ==> IsJsSpace(pre[k])
    requires forall k :: 0 <= k < |post| ==> IsJsSpace(post[k])
    ensures Trim(pre + s + post) == Trim(s)
  {
    var lo := SkipSpaces(s, 0);
    SpacedSlicePadded(pre, s, post, Trim(s), lo);
    TrimUnique(pre + s + post, Trim(s), |pre| + lo);
  }

  /** Padding a string with whitespace keeps a spaced slice spaced. */
  lemma SpacedSlicePadded(pre: string, s: string, post: string, t: string, lo: int)
    requires forall k :: 0 <= k < |pre| ==> IsJsSpace(pre[k])
    requires forall k :: 0 <= k < |post| ==> IsJsSpace(post[k])
    requires SpacedSliceAt(s, t, lo)
    ensures SpacedSliceAt(pre + s + post, t, |pre| + lo)
  {
    var x := pre + s + post;
    assert forall k :: 0 <= k < |s| ==> x[|pre| + k] == s[k];
    assert x[|pre| + lo..|pre| + lo + |t|] == s[lo..lo + |t|];
  }

  /** ASCII `toLowerCase` of one character. */
  function LowerChar(c: char): (d: char)
    ensures 'A' <= c <= 'Z' ==> d as int == c as int + 32
    ensures !('A' <= c <= 'Z') ==> d == c
  {
    if 'A' <= c <= 'Z' then (c as int + 32) as char else c
  }

  /** `s.toLowerCase()`, restricted to ASCII letters. */
  function ToLower(s: string): (r: string)
    ensures |r| == |s|
    ensures forall k :: 0 <= k < |s| ==> r[k] == LowerChar(s[k])
  {
    seq(|s|, k requires 0 <= k < |s| => LowerChar(s[k]))
  }

  /** A lower-cased string has no upper-case ASCII letter, and lower-casing leaves it unchanged. */
  lemma ToLowerIdempotent(s: string)
    ensures forall k :: 0 <= k < |ToLower(s)| ==> !('A' <= ToLower(s)[k] <= 'Z')
    ensures ToLower(ToLower(s)) == ToLower(s)
  {
  }

  /** Lower-casing maps spaces to spaces and non-spaces to non-spaces. */
  lemma LowerCharSpace(c: char)
    ensures IsJsSpace(LowerChar(c)) == IsJsSpace(c)
  {
  }

  /** Lower-casing keeps every position's whitespace status. */
  lemma ToLowerKeepsSpaces(s: string)
    ensures forall k :: 0 <= k < |s| ==> IsJsSpace(ToLower(s)[k]) == IsJsSpace(s[k])
  {
    forall k | 0 <= k < |s|
      ensures IsJsSpace(ToLower(s)[k]) == IsJsSpace(s[k])
    {
      LowerCharSpace(s[k]);
    }
  }

  /** Lower-casing a slice is slicing the lower-cased string. */
  lemma ToLowerSlice(s: string, lo: int, hi: int)
    requires 0 <= lo <= hi <= |s|
    ensures ToLower(s[lo..hi]) == ToLower(s)[lo..hi]
  {
    assert forall k :: 0 <= k < hi - lo ==> ToLower(s[lo..hi])[k] == LowerChar(s[lo + k]);
  }

  /** Trimming and lower-casing commute, so `lower(trim(x))` and `trim(lower(x))` agree. */
  lemma TrimToLowerCommute(s: string)
    ensures Trim(ToLower(s)) == ToLower(Trim(s))
  {
    var t, lo := Trim(s), SkipSpaces(s, 0);
    ToLowerSlice(s, lo, lo + |t|);
    ToLowerKeepsSpaces(s);
    ToLowerKeepsSpaces(t);
    TrimUnique(ToLower(s), ToLower(t), lo);
  }

  /** `sub` occurs in `s` starting at offset `k`. */
  predicate OccursAt(s: string, sub: string, k: int)
  {
    0 <= k <= |s| - |sub| && s[k..k + |sub|] == sub
  }

  /** `s.includes(sub)`: `sub` occurs in `s` at some offset. */
  function Contains(s: string, sub: string): (b: bool)
    ensures b <==> exists k :: OccursAt(s, sub, k)
    decreases |s|
  {
    if |s| < |sub| then false
    else if s[..|sub|] == sub then assert OccursAt(s, sub, 0); true
    else
      var b := Contains(s[1..], sub);
      assert forall k :: OccursAt(s, sub, k) ==> k >= 1 && OccursAt(s[1..], sub, k - 1);
      assert b ==> exists k :: OccursAt(s, sub, k) by {
        if b {
          var k :| OccursAt(s[1..], sub, k);
          assert OccursAt(s, sub, k + 1);
        }
      }
      b
  }

  /** The decimal digit for `d`. */
  function DigitChar(d: nat): (c: char)
    requires d < 10
    ensures '0' <= c <= '9' && c as int - '0' as int == d
  {
    (d + '0' as int) as char
  }

  /** `String(n)` for a non-negative integral number: its decimal digits, without leading zeros. */
  function NatToDecimal(n: nat): (s: string)
    ensures |s| >= 1
    ensures forall k :: 0 <= k < |s| ==> '0' <= s[k] <= '9'
    ensures |s| > 1 ==> s[0] != '0'
  {
    if n < 10 then [DigitChar(n)] else NatToDecimal(n / 10) + [DigitChar(n % 10)]
  }

  /** `String(n)` for an integral number: a minus sign before the magnitude when negative. */
  function IntToDecimal(n: int): (s: string)
    ensures n < 0 ==> |s| >= 2 && s[0] == '-' && s[1..] == NatToDecimal(-n)
    ensures n >= 0 ==> s == NatToDecimal(n)
  {
    if n < 0 then "-" + NatToDecimal(-n) else NatToDecimal(n)
  }

  /** Reads decimal digits back: the inverse of `NatToDecimal`. */
  function DecimalValue(s: string): nat
    requires forall k :: 0 <= k < |s| ==> '0' <= s[k] <= '9'
  {
    if s == [] then 0 else DecimalValue(s[..|s| - 1]) * 10 + (s[|s| - 1] as int - '0' as int)
  }

  /** Distinct numbers stringify to distinct texts: reading the digits back gives the number. */
  lemma {:induction false} DecimalRoundTrip(n: nat)
    ensures DecimalValue(NatToDecimal(n)) == n
  {
    if n >= 10 {
      var s := NatToDecimal(n);
      assert s[..|s| - 1] == NatToDecimal(n / 10);
      DecimalRoundTrip(n / 10);
    }
  }

  /**
   * Lower-case letters, digits and minus signs are neither whitespace nor
   * upper-case, so trimming and lower-casing keep a string made of them.
   */
  lemma PlainTextIsNormal(s: string)
    requires forall k :: 0 <= k < |s| ==> 'a' <= s[k] <= 'z' || '0' <= s[k] <= '9' || s[k] == '-'
    ensures Trim(s) == s && ToLower(s) == s
  {
    assert IsTrimmed(s) && SpacedSliceAt(s, s, 0);
    TrimUnique(s, s, 0);
  }

  /** The text of a number is kept by trimming and lower-casing. */
  lemma DecimalIsNormal(n: int)
    ensures Trim(IntToDecimal(n)) == IntToDecimal(n)
    ensures ToLower(IntToDecimal(n)) == IntToDecimal(n)
  {
    var s := IntToDecimal(n);
    assert forall k :: 0 <= k < |s| ==> s[k] == '-' || '0' <= s[k] <= '9';
    PlainTextIsNormal(s);
  }
}
