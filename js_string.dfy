/** The three JavaScript string operations the client's date-time helpers are made of:
    String.prototype.indexOf for one character, String.prototype.replace with a
    one-character string pattern (which replaces the first occurrence only), and
    String.prototype.slice(0, n). JavaScript strings are sequences of UTF-16 code units; here
    they are sequences of `char`, which are Unicode scalar values, so the two agree only on
    text without characters outside the Basic Multilingual Plane. */
module JsString {

  /** s.indexOf(c), except that "not found" is |s| rather than -1: the first position
      holding c, or |s| when c does not occur. */
  function IndexOf(s: string, c: char): (r: nat)
    ensures r <= |s|
    ensures r < |s| ==> s[r] == c
    ensures forall i :: 0 <= i < r ==> s[i] != c
    ensures c in s <==> r < |s|
  {
    if |s| == 0 then 0
    else if s[0] == c then 0
    else 1 + IndexOf(s[1..], c)
  }

  /** The characterisation above pins the index down. */
  lemma IndexOfIs(s: string, c: char, k: nat)
    requires k <= |s|
    requires k < |s| ==> s[k] == c
    requires forall i :: 0 <= i < k ==> s[i] != c
    ensures IndexOf(s, c) == k
  {
  }

  /** s.replace(a, b) for one-character strings a and b: the first a, if any, becomes b
      and every other character stays where it was. */
  function ReplaceFirst(s: string, a: char, b: char): (r: string)
    ensures |r| == |s|
    ensures forall i :: 0 <= i < |s| && i != IndexOf(s, a) ==> r[i] == s[i]
    ensures a in s ==> r[IndexOf(s, a)] == b
    ensures a !in s ==> r == s
  {
    var k := IndexOf(s, a);
    if k < |s| then s[..k] + [b] + s[k + 1..] else s
  }

  /** s.slice(0, n) for n >= 0: the first n characters, or all of s when it is shorter. */
  function Slice(s: string, n: nat): (r: string)
    ensures |r| == if |s| < n then |s| else n
    ensures r <= s
  {
    if |s| < n then s else s[..n]
  }
}
