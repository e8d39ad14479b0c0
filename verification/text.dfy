/**
 * The JavaScript string built-ins the components rely on: `trim`, `toLowerCase`,
 * `indexOf`, `includes`, `Number.prototype.toString` for non-negative integers
 * and `padStart(2, "0")`. Strings are sequences of characters.
 */
module Text {

  /** The white-space and line-terminator characters `String.prototype.trim` strips
      (the ASCII ones, no-break space, byte-order mark and the two Unicode line separators). */
  predicate IsSpace(c: char) {
    c == ' ' || c == '\t' || c == '\n' || c == '\r' || c == '\U{000B}' || c == '\U{000C}'
    || c == '\U{00A0}' || c == '\U{FEFF}' || c == '\U{2028}' || c == '\U{2029}'
  }

  predicate AllSpace(s: string) {
    forall i :: 0 <= i < |s| ==> IsSpace(s[i])
  }

  /** The end of the run of white space starting at `i`. */
  function SkipSpaces(s: string, i: nat): (k: nat)
    requires i <= |s|
    ensures i <= k <= |s|
    ensures forall j :: i <= j < k ==> IsSpace(s[j])
    ensures k < |s| ==> !IsSpace(s[k])
    decreases |s| - i
  {
    if i < |s| && IsSpace(s[i]) then SkipSpaces(s, i + 1) else i
  }

  /** The start of the run of white space ending at `j`, not going below `lo`. */
  function SkipSpacesBack(s: string, lo: nat, j: nat): (k: nat)
    requires lo <= j <= |s|
    ensures lo <= k <= j
    ensures forall x :: k <= x < j ==> IsSpace(s[x])
    ensures k > lo ==> !IsSpace(s[k - 1])
    decreases j
  {
    if j > lo && IsSpace(s[j - 1]) then SkipSpacesBack(s, lo, j - 1) else j
  }

  /** `r` occurs in `s` at offset `i`. */
  predicate InfixAt(s: string, r: string, i: int) {
    0 <= i && i + |r| <= |s| && s[i..i + |r|] == r
  }

  /** `s.trim()`: the longest infix of `s` that neither starts nor ends with white space,
      that is, `s` with only its leading and trailing white space removed. */
  function Trim(s: string): (r: string)
    ensures exists i :: InfixAt(s, r, i) && AllSpace(s[..i]) && AllSpace(s[i + |r|..])
    ensures r == [] || (!IsSpace(r[0]) && !IsSpace(r[|r| - 1]))
    ensures r == [] <==> AllSpace(s)
  {
    var a := SkipSpaces(s, 0);
    var b := SkipSpacesBack(s, a, |s|);
    assert InfixAt(s, s[a..b], a) && AllSpace(s[..a]) && AllSpace(s[b..]);
    assert a == b ==> AllSpace(s) by {
      if a == b {
        assert forall x :: 0 <= x < |s| ==> (x < a ==> IsSpace(s[x])) && (b <= x ==> IsSpace(s[x]));
      }
    }
    s[a..b]
  }

  /** A string that `trim` reduces to the empty string: falsy after trimming. */
  predicate IsBlank(s: string) {
    Trim(s) == []
  }

  /** ASCII case folding; the model's stand-in for `toLowerCase`. */
  function LowerChar(c: char): char {
    if 'A' <= c <= 'Z' then (c as int + 32) as char else c
  }

  function Lower(s: string): (r: string)
    ensures |r| == |s|
    ensures forall i :: 0 <= i < |s| ==> r[i] == LowerChar(s[i])
  {
    seq(|s|, i requires 0 <= i < |s| => LowerChar(s[i]))
  }

  /** `pat` occurs in `text` starting at position `pos`. */
  predicate OccursAt(text: string, pat: string, pos: int) {
    0 <= pos && pos + |pat| <= |text| && text[pos..pos + |pat|] == pat
  }

  function IndexOfFrom(text: string, pat: string, start: nat): (r: int)
    requires start <= |text|
    ensures r == -1 || (start <= r <= |text| && OccursAt(text, pat, r))
    ensures forall p :: start <= p && (r == -1 || p < r) ==> !OccursAt(text, pat, p)
    decreases |text| - start
  {
    if OccursAt(text, pat, start) then start
    else if start == |text| then -1
    else IndexOfFrom(text, pat, start + 1)
  }

  /** `text.indexOf(pat, from)`: the first occurrence at or after `from`, which is
      first clamped into `[0, |text|]`; -1 when there is none. */
  function IndexOf(text: string, pat: string, from: int): (r: int)
    ensures r == -1 || (from <= r && OccursAt(text, pat, r)) || (from > |text| && r == |text| && pat == [])
    ensures r == -1 ==> forall p :: from <= p ==> !OccursAt(text, pat, p)
    ensures r != -1 ==> forall p :: from <= p < r ==> !OccursAt(text, pat, p)
  {
    var start := if from < 0 then 0 else if from > |text| then |text| else from;
    IndexOfFrom(text, pat, start)
  }

  /** `text.includes(pat)`. */
  predicate Contains(text: string, pat: string) {
    IndexOf(text, pat, 0) != -1
  }

  lemma ContainsIff(text: string, pat: string)
    ensures Contains(text, pat) <==> exists p :: OccursAt(text, pat, p)
  {
  }

  function Digit(d: nat): char
    requires d < 10
  {
    "0123456789"[d]
  }

  predicate IsDigit(c: char) {
    '0' <= c <= '9'
  }

  /** Decimal rendering of a non-negative integer, as `String(n)` prints it. */
  function NatToString(n: nat): (r: string)
    ensures |r| >= 1
    ensures forall i :: 0 <= i < |r| ==> IsDigit(r[i])
    ensures n < 10 <==> |r| == 1
    ensures n < 100 ==> |r| <= 2
  {
    if n < 10 then [Digit(n)] else NatToString(n / 10) + [Digit(n % 10)]
  }

  /** The value a string of decimal digits denotes; an independent reading of `NatToString`. */
  function DigitsValue(s: string): nat
    requires forall i :: 0 <= i < |s| ==> IsDigit(s[i])
  {
    if s == [] then 0
    else
      var last := s[|s| - 1];
      assert IsDigit(last);
      10 * DigitsValue(s[..|s| - 1]) + (last as int - '0' as int)
  }

  lemma {:induction false} NatToStringRoundTrip(n: nat)
    ensures DigitsValue(NatToString(n)) == n
  {
    if n >= 10 {
      var s := NatToString(n);
      assert s[..|s| - 1] == NatToString(n / 10);
      NatToStringRoundTrip(n / 10);
    }
  }

  /** `String(i)` for an integer. */
  function IntToString(i: int): (r: string)
    ensures |r| >= 1
    ensures i < 0 <==> r[0] == '-'
  {
    if i < 0 then "-" + NatToString(-i) else NatToString(i)
  }

  /** `s.padStart(2, "0")`. */
  function PadStart2(s: string): (r: string)
    ensures |r| == if |s| >= 2 then |s| else 2
    ensures r[|r| - |s|..] == s
    ensures forall i :: 0 <= i < |r| - |s| ==> r[i] == '0'
  {
    if |s| >= 2 then s else seq(2 - |s|, _ => '0') + s
  }
}
