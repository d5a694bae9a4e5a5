/**
  ASCII models of the Python string operations the searcher relies on:
  `str.strip()`, `str.strip('"')`, `str.lower()`, `str.isdigit()`, `int()`
  on a digit string, and the substring test `t in s`.
 */
module Text {

  /** `str.isspace()` on the ASCII range: tab through carriage return,
      the four separator controls 0x1C-0x1F, and the space. */
  predicate IsSpace(c: char) {
    ('\t' <= c <= '\r') || (28 <= c as int <= 31) || c == ' '
  }

  /** Drops leading characters for which `drop` holds. */
  function TrimStart(s: string, drop: char -> bool): string {
    if s != [] && drop(s[0]) then TrimStart(s[1..], drop) else s
  }

  /** Drops trailing characters for which `drop` holds. */
  function TrimEnd(s: string, drop: char -> bool): string {
    if s != [] && drop(s[|s| - 1]) then TrimEnd(s[..|s| - 1], drop) else s
  }

  /** `s.strip(chars)`: both ends, every character satisfying `drop`. */
  function StripBy(s: string, drop: char -> bool): string {
    TrimEnd(TrimStart(s, drop), drop)
  }

  /** `s.strip()` with no argument. */
  function Strip(s: string): string {
    StripBy(s, IsSpace)
  }

  lemma {:induction false} TrimStartIndex(s: string, drop: char -> bool) returns (i: nat)
    ensures i <= |s| && TrimStart(s, drop) == s[i..]
    ensures forall k :: 0 <= k < i ==> drop(s[k])
    ensures i < |s| ==> !drop(s[i])
    decreases |s|
  {
    if s != [] && drop(s[0]) {
      var i' := TrimStartIndex(s[1..], drop);
      i := i' + 1;
      assert s[1..][i'..] == s[i..];
    } else {
      i := 0;
    }
  }

  lemma {:induction false} TrimEndIndex(s: string, drop: char -> bool) returns (j: nat)
    ensures j <= |s| && TrimEnd(s, drop) == s[..j]
    ensures forall k :: j <= k < |s| ==> drop(s[k])
    ensures 0 < j ==> !drop(s[j - 1])
    decreases |s|
  {
    if s != [] && drop(s[|s| - 1]) {
      j := TrimEndIndex(s[..|s| - 1], drop);
      assert s[..|s| - 1][..j] == s[..j];
    } else {
      j := |s|;
    }
  }

  /** What `strip` promises: the result is the slice of `s` left after
      removing a maximal run of droppable characters from each end. */
  lemma StripBySpec(s: string, drop: char -> bool)
    ensures exists i, j ::
              && 0 <= i <= j <= |s| && StripBy(s, drop) == s[i..j]
              && (forall k :: 0 <= k < i ==> drop(s[k]))
              && (forall k :: j <= k < |s| ==> drop(s[k]))
              && (i < j ==> !drop(s[i]) && !drop(s[j - 1]))
  {
    var i := TrimStartIndex(s, drop);
    var j := TrimEndIndex(s[i..], drop);
    assert StripBy(s, drop) == s[i..i + j];
    assert forall k :: i + j <= k < |s| ==> s[k] == s[i..][k - i];
  }

  /** The stripped string neither starts nor ends with a droppable character. */
  lemma StripByTrimmed(s: string, drop: char -> bool)
    ensures var r := StripBy(s, drop); r == [] || (!drop(r[0]) && !drop(r[|r| - 1]))
  {
    StripBySpec(s, drop);
  }

  /** `str.lower()` on ASCII letters; every other character is unchanged. */
  function LowerChar(c: char): char {
    if 'A' <= c <= 'Z' then (c as int + 32) as char else c
  }

  function Lower(s: string): string {
    seq(|s|, i requires 0 <= i < |s| => LowerChar(s[i]))
  }

  predicate IsDigit(c: char) {
    '0' <= c <= '9'
  }

  /** `str.isdigit()` on ASCII: non-empty and all decimal digits. */
  predicate IsDigits(s: string) {
    |s| > 0 && forall i :: 0 <= i < |s| ==> IsDigit(s[i])
  }

  /** `int(s)` for a string of ASCII digits (leading zeros allowed). */
  function ParseNat(s: string): nat
    requires forall i :: 0 <= i < |s| ==> IsDigit(s[i])
  {
    if s == [] then 0
    else
      assert IsDigit(s[|s| - 1]);
      ParseNat(s[..|s| - 1]) * 10 + (s[|s| - 1] as int - '0' as int)
  }

  /** The canonical decimal spelling of `n`, as a user would type it. */
  function DecimalString(n: nat): string
    decreases n
  {
    if n < 10 then [('0' as int + n) as char]
    else DecimalString(n / 10) + [('0' as int + n % 10) as char]
  }

  /** Typing the decimal spelling of `n` passes `isdigit()` and `int()` gives back `n`. */
  lemma {:induction false} ParseDecimalString(n: nat)
    ensures IsDigits(DecimalString(n)) && ParseNat(DecimalString(n)) == n
    decreases n
  {
    if n >= 10 {
      ParseDecimalString(n / 10);
      var s := DecimalString(n);
      assert s[..|s| - 1] == DecimalString(n / 10);
    }
  }

  /** Python's `t in s` for strings: `t` occurs as a contiguous slice of `s`. */
  predicate OccursAt(s: string, t: string, i: nat) {
    i + |t| <= |s| && s[i..i + |t|] == t
  }

  predicate Contains(s: string, t: string) {
    exists i :: 0 <= i <= |s| && OccursAt(s, t, i)
  }
}
