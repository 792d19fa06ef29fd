/** The few java.lang.String and java.lang.Long behaviours the services rely on. */
module Strings {
  import opened Wrappers

  /** String.trim() strips every character at or below U+0020 from both ends. */
  predicate IsTrimmable(c: char) {
    c <= ' '
  }

  /** The first index at or after i whose character is kept: trim()'s forward scan. */
  function SkipLeading(s: string, i: nat): (k: nat)
    requires i <= |s|
    ensures i <= k <= |s|
    ensures forall m :: i <= m < k ==> IsTrimmable(s[m])
    ensures k == |s| || !IsTrimmable(s[k])
    decreases |s| - i
  {
    if i < |s| && IsTrimmable(s[i]) then SkipLeading(s, i + 1) else i
  }

  /** The end, at or before j and not below lo, after dropping trimmable characters: trim()'s backward scan. */
  function SkipTrailing(s: string, lo: nat, j: nat): (k: nat)
    requires lo <= j <= |s|
    ensures lo <= k <= j
    ensures forall m :: k <= m < j ==> IsTrimmable(s[m])
    ensures k == lo || !IsTrimmable(s[k - 1])
    decreases j - lo
  {
    if j > lo && IsTrimmable(s[j - 1]) then SkipTrailing(s, lo, j - 1) else j
  }

  /** r is s[i..j], and every character cut off before i or from j on is trimmable. */
  predicate TrimmedAt(s: string, r: string, i: int, j: int) {
    && 0 <= i <= j <= |s| && r == s[i..j]
    && (forall k :: 0 <= k < i ==> IsTrimmable(s[k]))
    && (forall k :: j <= k < |s| ==> IsTrimmable(s[k]))
  }

  /** String.trim(): the longest slice of s that neither starts nor ends with a trimmable character. */
  function Trim(s: string): (r: string)
    ensures exists i, j :: TrimmedAt(s, r, i, j)
    ensures r == [] || (!IsTrimmable(r[0]) && !IsTrimmable(r[|r| - 1]))
  {
    var i := SkipLeading(s, 0);
    var j := SkipTrailing(s, i, |s|);
    assert TrimmedAt(s, s[i..j], i, j);
    s[i..j]
  }

  /** `s.trim().isEmpty()` */
  predicate IsBlank(s: string) {
    Trim(s) == []
  }

  /** A string is blank exactly when every one of its characters is trimmable. */
  lemma BlankIffAllTrimmable(s: string)
    ensures IsBlank(s) <==> forall i :: 0 <= i < |s| ==> IsTrimmable(s[i])
  {
  }

  /** Character.toUpperCase restricted to ASCII letters. */
  function UpperChar(c: char): char {
    if 'a' <= c <= 'z' then (c as int - 32) as char else c
  }

  /** String.toUpperCase() with ASCII case folding. */
  function ToUpper(s: string): (r: string)
    ensures |r| == |s|
    ensures forall i :: 0 <= i < |s| ==> r[i] == UpperChar(s[i])
  {
    if s == [] then [] else [UpperChar(s[0])] + ToUpper(s[1..])
  }

  /** String.equalsIgnoreCase with ASCII case folding. */
  predicate EqualsIgnoreCase(a: string, b: string) {
    |a| == |b| && forall i :: 0 <= i < |a| ==> UpperChar(a[i]) == UpperChar(b[i])
  }

  /** Comparing the upper-cased string with an upper-case constant is a case-insensitive comparison. */
  lemma UpperEqualsIffIgnoreCase(s: string, k: string)
    requires forall i :: 0 <= i < |k| ==> UpperChar(k[i]) == k[i]
    ensures ToUpper(s) == k <==> EqualsIgnoreCase(s, k)
  {
    if EqualsIgnoreCase(s, k) {
      assert forall i :: 0 <= i < |s| ==> ToUpper(s)[i] == k[i];
    }
  }

  function DigitChar(d: nat): char
    requires d < 10
  {
    "0123456789"[d]
  }

  /** Decimal text of a non-negative number. */
  function NatText(n: nat): (r: string)
    ensures |r| >= 1
    decreases n
  {
    if n < 10 then [DigitChar(n)] else NatText(n / 10) + [DigitChar(n % 10)]
  }

  /** `"" + id` for a java.lang.Long that may be null. */
  function LongText(id: Option<int>): string {
    match id
    case None => "null"
    case Some(n) => if n < 0 then "-" + NatText(-n) else NatText(n)
  }

  /** `"" + s` for a String that may be null. */
  function NullableText(s: Option<string>): string {
    s.GetOr("null")
  }

  const TWO_POW_32: int := 0x1_0000_0000
  const TWO_POW_31: int := 0x8000_0000

  /** Reduction to a 32-bit two's complement int, as Java's int arithmetic wraps. */
  function Wrap32(x: int): (r: int)
    ensures -TWO_POW_31 <= r < TWO_POW_31
    ensures (x - r) % TWO_POW_32 == 0
  {
    var m := x % TWO_POW_32;
    if m >= TWO_POW_31 then m - TWO_POW_32 else m
  }

  /** String.hashCode(): h := 31 * h + c over the characters, in int arithmetic. */
  function StringHash(s: string): (h: int)
    ensures -TWO_POW_31 <= h < TWO_POW_31
  {
    if s == [] then 0 else Wrap32(31 * StringHash(s[..|s| - 1]) + s[|s| - 1] as int)
  }

  /** Objects.hash(x) for one argument: 31 * 1 + x.hashCode(). */
  function SingleFieldHash(fieldHash: int): (h: int)
    ensures -TWO_POW_31 <= h < TWO_POW_31
  {
    Wrap32(31 + fieldHash)
  }
}
