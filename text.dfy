/** Small value types and the C string helpers (strlen, strcasecmp) the shell relies on. */
module Text {

  datatype Option<+T> = None | Some(value: T)

  /** `tolower` restricted to ASCII, as `strcasecmp` applies it in the C locale. */
  function LowerChar(c: char): char
  {
    if 'A' <= c <= 'Z' then (c as int + 32) as char else c
  }

  function Lower(s: string): (r: string)
    ensures |r| == |s|
    ensures forall i :: 0 <= i < |s| ==> r[i] == LowerChar(s[i])
  {
    seq(|s|, i requires 0 <= i < |s| => LowerChar(s[i]))
  }

  /** `strcasecmp(a, b) == 0`. */
  predicate EqualsIgnoreCase(a: string, b: string)
  {
    Lower(a) == Lower(b)
  }

  /** `strlen`: the index of the first NUL, or the whole buffer when there is none. */
  function StrLen(s: seq<char>): (n: nat)
    ensures n <= |s|
    ensures n < |s| ==> s[n] == '\0'
    ensures forall k :: 0 <= k < n ==> s[k] != '\0'
  {
    if s == [] || s[0] == '\0' then 0 else 1 + StrLen(s[1..])
  }

  /** What `%s` prints of a buffer: the characters before its first NUL. */
  function CString(s: seq<char>): (t: string)
    ensures |t| <= |s| && t == s[..|t|]
    ensures |t| == |s| || s[|t|] == '\0'
  {
    if s == [] || s[0] == '\0' then [] else [s[0]] + CString(s[1..])
  }

  /** What `%s` prints is what `strlen` measures, and it holds no NUL. */
  lemma {:induction false} CStringNoNul(s: seq<char>)
    ensures |CString(s)| == StrLen(s)
    ensures forall k :: 0 <= k < |CString(s)| ==> CString(s)[k] != '\0'
  {
    if s != [] && s[0] != '\0' {
      CStringNoNul(s[1..]);
    }
  }

  /** A buffer without NUL is printed whole. */
  lemma {:induction false} CStringWhole(s: seq<char>)
    requires forall k :: 0 <= k < |s| ==> s[k] != '\0'
    ensures CString(s) == s
  {
    if s != [] {
      CStringWhole(s[1..]);
    }
  }

  /** `n` copies of `c`. */
  function Repeat(c: char, n: nat): (r: string)
    ensures |r| == n
    ensures forall i :: 0 <= i < n ==> r[i] == c
  {
    if n == 0 then [] else [c] + Repeat(c, n - 1)
  }

  /** The parts in order with `sep` between neighbours and nowhere else. */
  function Join(parts: seq<string>, sep: string): string
  {
    if |parts| == 0 then []
    else if |parts| == 1 then parts[0]
    else parts[0] + sep + Join(parts[1..], sep)
  }

  /** A slice of a slice is a slice of the whole. */
  lemma SliceOfSlice<T>(a: seq<T>, lo: nat, hi: nat, i: nat, j: nat)
    requires lo <= hi <= |a| && i <= j <= hi - lo
    ensures a[lo..hi][i..j] == a[lo + i..lo + j]
  {
    forall k | 0 <= k < j - i ensures a[lo..hi][i..j][k] == a[lo + i..lo + j][k] {
      assert a[lo..hi][i..j][k] == a[lo + i + k];
    }
  }
}
