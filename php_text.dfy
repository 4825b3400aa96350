/**
 * The PHP string built-ins the guestbook relies on, over strings as sequences of
 * Unicode code points (so mb_strlen is |s|): trim, strpos for a one-character
 * needle, strtolower, the extension part of pathinfo, the digit patterns
 * matched with preg_match, and the byte-range test for non-ASCII text.
 */
module PhpText {
  import opened Wrappers

  /** The characters trim() strips by default: space, tab, LF, CR, NUL and vertical tab. */
  predicate IsTrimmed(c: char) {
    c == ' ' || c == '\t' || c == '\n' || c == '\r' || c == '\0' || c == '\U{000B}'
  }

  /** The first index at or after k that holds no trimmed character (|s| if none). */
  function FirstKept(s: string, k: nat): (n: nat)
    requires k <= |s|
    decreases |s| - k
    ensures k <= n <= |s|
    ensures forall i :: k <= i < n ==> IsTrimmed(s[i])
    ensures n < |s| ==> !IsTrimmed(s[n])
  {
    if k < |s| && IsTrimmed(s[k]) then FirstKept(s, k + 1) else k
  }

  /** One past the last index before k that holds no trimmed character (0 if none). */
  function LastKept(s: string, k: nat): (n: nat)
    requires k <= |s|
    ensures n <= k
    ensures forall i :: n <= i < k ==> IsTrimmed(s[i])
    ensures n > 0 ==> !IsTrimmed(s[n - 1])
  {
    if k > 0 && IsTrimmed(s[k - 1]) then LastKept(s, k - 1) else k
  }

  /** trim(): drops the longest prefix and the longest suffix of trimmed characters. */
  function Trim(s: string): (r: string)
    ensures |r| <= |s|
    ensures r == [] || (!IsTrimmed(r[0]) && !IsTrimmed(r[|r| - 1]))
    ensures r == [] <==> forall i :: 0 <= i < |s| ==> IsTrimmed(s[i])
    ensures (forall i :: 0 <= i < |s| ==> !IsTrimmed(s[i])) ==> r == s
  {
    var a := FirstKept(s, 0);
    var b := if a == |s| then a else LastKept(s, |s|);
    assert a < |s| ==> a < b;
    s[a..b]
  }

  /**
   * trim() removes a stripped prefix and a stripped suffix and nothing else:
   * the result is the slice between them.
   */
  lemma TrimIsInfix(s: string)
    ensures exists a, b :: (0 <= a <= b <= |s| && Trim(s) == s[a..b]
                            && (forall i :: 0 <= i < a ==> IsTrimmed(s[i]))
                            && (forall i :: b <= i < |s| ==> IsTrimmed(s[i])))
  {
    var a := FirstKept(s, 0);
    var b := if a == |s| then a else LastKept(s, |s|);
    assert Trim(s) == s[a..b];
  }

  /**
   * strpos($s, $c) for a one-character needle: the index of the first
   * occurrence, or None where PHP returns false.
   */
  function StrPos(s: string, c: char): (r: Option<nat>)
    ensures r.None? <==> c !in s
    ensures r.Some? ==> r.value < |s| && s[r.value] == c && c !in s[..r.value]
  {
    if s == [] then None
    else if s[0] == c then Some(0)
    else match StrPos(s[1..], c)
      case None => None
      case Some(i) =>
        assert s[..i + 1] == [s[0]] + s[1..][..i];
        Some(i + 1)
  }

  /** `!strpos($s, $c)`: false and the index 0 are both falsy in PHP. */
  predicate StrPosFalsy(s: string, c: char) {
    StrPos(s, c).None? || StrPos(s, c) == Some(0)
  }

  predicate IsDigit(c: char) {
    '0' <= c <= '9'
  }

  predicate AllDigits(s: string) {
    forall i :: 0 <= i < |s| ==> IsDigit(s[i])
  }

  predicate InRange(n: nat, min: nat, max: Option<nat>) {
    min <= n && (max.None? || n <= max.value)
  }

  /**
   * preg_match('/^[0-9]{min,max}$/', $s) without the m or D modifier: the end
   * anchor `$` matches at the end of the subject and also just before a final
   * "\n", so one trailing newline is accepted.
   */
  predicate MatchesDigits(s: string, min: nat, max: Option<nat>) {
    || (AllDigits(s) && InRange(|s|, min, max))
    || (|s| > 0 && s[|s| - 1] == '\n' && AllDigits(s[..|s| - 1]) && InRange(|s| - 1, min, max))
  }

  /** preg_match('/[^\x00-\x7F]/', $s): some code point (equivalently, some UTF-8 byte) lies outside ASCII. */
  predicate HasNonAscii(s: string) {
    exists i :: 0 <= i < |s| && s[i] as int > 0x7F
  }

  /** strtolower() as PHP 8.2 defines it: ASCII letters only. */
  function LowerChar(c: char): char {
    if 'A' <= c <= 'Z' then (c as int + 32) as char else c
  }

  function ToLower(s: string): (r: string)
    ensures |r| == |s|
    ensures forall i :: 0 <= i < |r| ==> !('A' <= r[i] <= 'Z')
    ensures forall i :: 0 <= i < |s| && !('A' <= s[i] <= 'Z') ==> r[i] == s[i]
    ensures forall i :: 0 <= i < |s| && 'A' <= s[i] <= 'Z' ==> r[i] as int == s[i] as int + 32
  {
    seq(|s|, i requires 0 <= i < |s| => LowerChar(s[i]))
  }

  /** Lower-casing twice is lower-casing once. */
  lemma ToLowerIsIdempotent(s: string)
    ensures ToLower(ToLower(s)) == ToLower(s)
  {
    var t := ToLower(s);
    assert forall i :: 0 <= i < |t| ==> ToLower(t)[i] == t[i];
  }

  /** The index of the last '.' before position k, if any. */
  function LastDot(s: string, k: nat): (d: Option<nat>)
    requires k <= |s|
    ensures d.None? ==> forall i :: 0 <= i < k ==> s[i] != '.'
    ensures d.Some? ==> d.value < k && s[d.value] == '.' && forall i :: d.value < i < k ==> s[i] != '.'
  {
    if k == 0 then None
    else if s[k - 1] == '.' then Some(k - 1)
    else LastDot(s, k - 1)
  }

  /**
   * pathinfo($filename, PATHINFO_EXTENSION) for a base name: the text after
   * the last '.', or "" when there is no '.'.
   */
  function Extension(filename: string): (r: string)
    ensures '.' !in r
    ensures '.' !in filename ==> r == ""
  {
    match LastDot(filename, |filename|)
    case None => ""
    case Some(d) => filename[d + 1..]
  }

  /** PHP's trim leaves a trimmed value without a final newline, so `$` has nothing extra to match. */
  lemma TrimmedMatchesDigits(s: string, min: nat, max: Option<nat>)
    ensures MatchesDigits(Trim(s), min, max) <==> AllDigits(Trim(s)) && InRange(|Trim(s)|, min, max)
  {
  }

  /** A digit string is its own trim, and so is a digit string followed by one newline, minus that newline. */
  lemma {:induction false} TrimDigits(d: string)
    requires AllDigits(d) && d != []
    ensures Trim(d) == d
    ensures Trim(d + "\n") == d
  {
    var s := d + "\n";
    assert !IsTrimmed(d[0]) && !IsTrimmed(d[|d| - 1]);
    assert FirstKept(d, 0) == 0 && LastKept(d, |d|) == |d|;
    assert d[0..|d|] == d;
    assert s[0] == d[0] && s[|d| - 1] == d[|d| - 1];
    assert FirstKept(s, 0) == 0;
    assert LastKept(s, |s|) == LastKept(s, |d|) == |d|;
    assert s[0..|d|] == d;
  }

  /** A value matching /^[0-9]+$/ still consists of digits once trimmed. */
  lemma DigitPatternSurvivesTrim(s: string)
    requires MatchesDigits(s, 1, None)
    ensures AllDigits(Trim(s))
  {
    if AllDigits(s) {
      TrimDigits(s);
    } else {
      var d := s[..|s| - 1];
      assert d + "\n" == s;
      TrimDigits(d);
    }
  }
}
