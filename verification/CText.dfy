/** C strings as character sequences, and the few C library functions that
    several components share. */
module CText {

  const NUL: char := '\0'

  datatype Option<+T> = None | Some(value: T)

  /** The value of a NUL-terminated string: what precedes the terminator. */
  predicate IsCString(s: string) {
    NUL !in s
  }

  /** strlen: the index of the first NUL (the end of s when it holds none). */
  function StrLen(s: string): (n: nat)
    ensures n <= |s|
    ensures n < |s| ==> s[n] == NUL
  {
    if s == [] || s[0] == NUL then 0 else 1 + StrLen(s[1..])
  }

  lemma {:induction false} StrLenIsFirst(s: string)
    ensures IsCString(s[..StrLen(s)])
  {
    if s == "" || s[0] == NUL {
    } else {
      StrLenIsFirst(s[1..]);
      assert s[..StrLen(s)] == [s[0]] + s[1..][..StrLen(s[1..])];
    }
  }

  /** strlen of an array of char whose first NUL is at n. */
  lemma {:induction false} StrLenAt(s: string, n: nat)
    requires n < |s| && s[n] == NUL && NUL !in s[..n]
    ensures StrLen(s) == n
  {
    if n == 0 {
    } else {
      assert s[0] == s[..n][0];
      assert s[1..][..n - 1] == s[..n][1..];
      StrLenAt(s[1..], n - 1);
    }
  }

  lemma {:induction false} StrLenOfCString(s: string)
    requires IsCString(s)
    ensures StrLen(s) == |s|
  {
    if s == "" {
    } else {
      StrLenOfCString(s[1..]);
    }
  }

  /** Reading s[i] in C, where the terminator stands just past the end. */
  function At(s: string, i: nat): char
    requires i <= |s|
  {
    if i < |s| then s[i] else NUL
  }

  function Repeat(c: char, n: nat): (r: string)
    ensures |r| == n
    ensures forall i :: 0 <= i < n ==> r[i] == c
  {
    seq(n, _ => c)
  }

  /** isspace() in the C locale. */
  predicate IsSpace(c: char) {
    c == ' ' || ('\t' <= c <= '\r')
  }

  predicate IsDigit(c: char) {
    '0' <= c <= '9'
  }

  function Min(a: int, b: int): int {
    if a <= b then a else b
  }

  function Max(a: int, b: int): int {
    if a >= b then a else b
  }

  /** The first n characters of s, or all of it when it is shorter. */
  function Prefix(s: string, n: nat): string {
    s[..Min(|s|, n)]
  }

  lemma RepeatSplit(c: char, a: nat, b: nat)
    ensures Repeat(c, a) + Repeat(c, b) == Repeat(c, a + b)
  {
  }

  lemma Assoc<T>(a: seq<T>, b: seq<T>, c: seq<T>)
    ensures (a + b) + c == a + (b + c)
  {
  }

  /** The white space of the C locale, written out. */
  lemma SpaceIs(c: char)
    ensures IsSpace(c) <==> c as int == 32 || 9 <= c as int <= 13
  {
  }

  /** The sign of strcmp. */
  function StrCmp(a: string, b: string): int {
    if a == [] then (if b == [] then 0 else -1)
    else if b == [] then 1
    else if a[0] < b[0] then -1
    else if a[0] > b[0] then 1
    else StrCmp(a[1..], b[1..])
  }

  /** The first character in which two strings differ decides, and a string
      precedes those it is the beginning of. */
  lemma {:induction false} StrCmpIs(a: string, b: string, k: nat)
    requires k <= |a| && k <= |b| && a[..k] == b[..k]
    ensures k < |a| && k < |b| && a[k] < b[k] ==> StrCmp(a, b) < 0 && StrCmp(b, a) > 0
    ensures k == |a| && k < |b| ==> StrCmp(a, b) < 0 && StrCmp(b, a) > 0
    decreases k
  {
    if k == 0 {
    } else {
      assert a[0] == a[..k][0] == b[..k][0] == b[0];
      assert a[1..][..k - 1] == a[..k][1..] == b[..k][1..] == b[1..][..k - 1];
      StrCmpIs(a[1..], b[1..], k - 1);
    }
  }

  lemma {:induction false} StrCmpIsOrder(a: string, b: string, c: string)
    ensures StrCmp(a, b) == 0 <==> a == b
    ensures StrCmp(a, b) <= 0 || StrCmp(b, a) <= 0
    ensures StrCmp(a, b) <= 0 && StrCmp(b, c) <= 0 ==> StrCmp(a, c) <= 0
    ensures StrCmp(a, b) <= 0 && StrCmp(b, a) <= 0 ==> a == b
    decreases |a|
  {
    if a == [] || b == [] {
    } else {
      assert a == [a[0]] + a[1..] && b == [b[0]] + b[1..];
      StrCmpIsOrder(a[1..], b[1..], if c != [] then c[1..] else []);
    }
  }
}
