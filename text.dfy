/** Python string operations the model needs: `in`, `str.replace`, and the
    character classes `\w`, `\d` and `\s` of the `re` module (ASCII only). */
module Text {

  /** Python's `p in s`: `p` occurs somewhere in `s`. */
  predicate Contains(s: string, p: string)
    decreases |s|
  {
    p <= s || (|s| > 0 && Contains(s[1..], p))
  }

  /** An occurrence of `p` in the middle of a string is found by `Contains`. */
  lemma {:induction false} ContainsInfix(x: string, p: string, y: string)
    ensures Contains(x + p + y, p)
    decreases |x|
  {
    if x == [] {
      assert x + p + y == p + y;
    } else {
      assert (x + p + y)[1..] == x[1..] + p + y;
      ContainsInfix(x[1..], p, y);
    }
  }

  /** An occurrence of `p` in `a + x` starts inside `a` or lies wholly in `x`. */
  lemma {:induction false} ContainsAppend(a: string, x: string, p: string)
    requires Contains(a + x, p)
    ensures (exists i :: 0 <= i < |a| && p <= (a + x)[i..]) || Contains(x, p)
    decreases |a|
  {
    if a == [] {
      assert a + x == x;
    } else if p <= a + x {
      assert p <= (a + x)[0..];
    } else {
      assert (a + x)[1..] == a[1..] + x;
      ContainsAppend(a[1..], x, p);
      if i :| 0 <= i < |a[1..]| && p <= (a[1..] + x)[i..] {
        assert (a + x)[i + 1..] == (a[1..] + x)[i..];
      }
    }
  }

  /** Python's `s.replace(p, r)`: every occurrence of `p`, scanning left to
      right without overlap, is replaced by `r`. */
  function ReplaceAll(s: string, p: string, r: string): string
    requires p != []
    decreases |s|
  {
    if s == [] then []
    else if p <= s then r + ReplaceAll(s[|p|..], p, r)
    else [s[0]] + ReplaceAll(s[1..], p, r)
  }

  /** Replacing a pattern that does not occur leaves the string as it was. */
  lemma {:induction false} ReplaceAbsent(s: string, p: string, r: string)
    requires p != [] && !Contains(s, p)
    ensures ReplaceAll(s, p, r) == s
    decreases |s|
  {
    if s != [] {
      ReplaceAbsent(s[1..], p, r);
    }
  }

  /** `\d` */
  predicate IsDigit(c: char) {
    '0' <= c <= '9'
  }

  /** `\w` restricted to ASCII: letters, digits and underscore. */
  predicate IsWord(c: char) {
    IsDigit(c) || 'a' <= c <= 'z' || 'A' <= c <= 'Z' || c == '_'
  }

  /** `\s` restricted to ASCII. */
  predicate IsSpace(c: char) {
    c == ' ' || c == '\t' || c == '\n' || c == '\r' || c == '\U{B}' || c == '\U{C}'
  }

  predicate AllDigits(s: string) {
    forall i :: 0 <= i < |s| ==> IsDigit(s[i])
  }

  predicate AllWord(s: string) {
    forall i :: 0 <= i < |s| ==> IsWord(s[i])
  }

  /** Python's `int(s)` on a string of decimal digits. */
  function DigitsValue(s: string): (n: nat)
    requires AllDigits(s)
    decreases |s|
  {
    if s == [] then 0
    else DigitsValue(s[..|s| - 1]) * 10 + (s[|s| - 1] as int - '0' as int)
  }

  /** Python's `str(n)` on a natural number. */
  function NatToString(n: nat): (s: string)
    ensures s != [] && AllDigits(s)
    decreases n
  {
    var d := ['0' + (n % 10) as char];
    if n < 10 then d else NatToString(n / 10) + d
  }

  /** `s * n` for a string `s`. */
  function Repeat(s: string, n: nat): (r: string)
    ensures |r| == |s| * n
    decreases n
  {
    if n == 0 then [] else s + Repeat(s, n - 1)
  }

  /** Index just past the run of word characters that starts at `i`. */
  function WordEnd(s: string, i: nat): (j: nat)
    requires i <= |s|
    ensures i <= j <= |s|
    ensures AllWord(s[i..j])
    ensures j < |s| ==> !IsWord(s[j])
    decreases |s| - i
  {
    if i < |s| && IsWord(s[i]) then WordEnd(s, i + 1) else i
  }

  /** Python's `s.strip()` restricted to ASCII whitespace. */
  function Strip(s: string): (r: string)
    ensures exists i, j :: 0 <= i <= j <= |s| && r == s[i..j]
    ensures r != [] ==> !IsSpace(r[0]) && !IsSpace(r[|r| - 1])
    ensures (forall i :: 0 <= i < |s| ==> IsSpace(s[i])) <==> r == []
  {
    var i := LeadingSpace(s, 0);
    var j := TrailingEnd(s, i, |s|);
    s[i..j]
  }

  /** Index of the first non-whitespace character at or after `i`. */
  function LeadingSpace(s: string, i: nat): (k: nat)
    requires i <= |s|
    ensures i <= k <= |s| && (k < |s| ==> !IsSpace(s[k]))
    ensures forall m :: i <= m < k ==> IsSpace(s[m])
    decreases |s| - i
  {
    if i < |s| && IsSpace(s[i]) then LeadingSpace(s, i + 1) else i
  }

  /** End of `s[lo..hi]` once its trailing whitespace is dropped. */
  function TrailingEnd(s: string, lo: nat, hi: nat): (k: nat)
    requires lo <= hi <= |s|
    ensures lo <= k <= hi && (k > lo ==> !IsSpace(s[k - 1]))
    ensures forall m :: k <= m < hi ==> IsSpace(s[m])
    decreases hi - lo
  {
    if hi > lo && IsSpace(s[hi - 1]) then TrailingEnd(s, lo, hi - 1) else hi
  }
}
