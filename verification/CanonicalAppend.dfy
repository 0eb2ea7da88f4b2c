/** Joining two parts of a path with one slash between them
    (dd_canonical_append.c, with the bounded copy of dd_safe_strcpy.c). */
module CanonicalAppend {
  import opened CText

  const SLASH: char := '/'

  /** Where s[..n] ends without its trailing slashes. */
  function End(s: string, n: nat): (e: nat)
    requires n <= |s|
    ensures e <= n
    ensures forall i :: e <= i < n ==> s[i] == SLASH
    ensures e > 0 ==> s[e - 1] != SLASH
  {
    if n > 0 && s[n - 1] == SLASH then End(s, n - 1) else n
  }

  /** Where s[i..] starts without its leading slashes. */
  function Start(s: string, i: nat): (b: nat)
    requires i <= |s|
    ensures i <= b <= |s|
    ensures forall k :: i <= k < b ==> s[k] == SLASH
    ensures b < |s| ==> s[b] != SLASH
    decreases |s| - i
  {
    if i < |s| && s[i] == SLASH then Start(s, i + 1) else i
  }

  function TrimRight(s: string): string {
    s[..End(s, |s|)]
  }

  function TrimLeft(s: string): string {
    s[Start(s, 0)..]
  }

  function Join(a: string, b: string): string {
    TrimRight(a) + [SLASH] + TrimLeft(b)
  }

  /** dd_safe_strcpy into out[at..at + outlen]: it copies what fits and always
      terminates it, unless there is no room at all. */
  method SafeStrcpy(out: array<char>, at: nat, outlen: nat, s: string, inlen: nat)
    requires IsCString(s) && inlen <= |s| && at + outlen <= out.Length
    modifies out
    ensures outlen == 0 ==> out[..] == old(out[..])
    ensures outlen > 0 ==>
      var n := Min(inlen, outlen - 1);
      out[at..at + n] == s[..n] && out[at + n] == NUL && SameElsewhere(out[..], old(out[..]), at, at + n)
  {
    var end: nat := inlen;
    if inlen + 1 >= outlen {
      if outlen == 0 {
        return;
      }
      end := outlen - 1;
    }
    var k := 0;
    while At(s, k) != NUL && k < end
      invariant k <= end && at + end < out.Length
      decreases end - k
      invariant forall i :: 0 <= i < k ==> out[at + i] == s[i]
      invariant forall i :: 0 <= i < out.Length && !(at <= i < at + k) ==> out[i] == old(out[i])
    {
      out[at + k] := s[k];
      k := k + 1;
    }
    out[at + k] := NUL;
  }

  predicate SameElsewhere(s: string, was: string, from: nat, to: nat) {
    |s| == |was| && forall i :: 0 <= i < |s| && !(from <= i <= to) ==> s[i] == was[i]
  }

  /** The path, terminated, in a buffer that had room for it; false stands for
      NULL, and the buffer is then as it was. */
  method CanonicalAppend(target: array<char>, targetSize: nat, first: string, second: string) returns (ok: bool)
    requires IsCString(first) && IsCString(second) && targetSize <= target.Length
    modifies target
    ensures ok <==> |first| + |second| + 2 < targetSize
    ensures !ok ==> target[..] == old(target[..])
    ensures ok ==>
      var path := Join(first, second);
      && |path| < targetSize && target[..|path| + 1] == path + [NUL]
      && SameElsewhere(target[..], old(target[..]), 0, |path|)
  {
    var firstlen: nat := |first|;
    if firstlen + |second| + 1 + 1 >= targetSize {
      return false;
    }
    var from := 0;
    while At(second, from) == SLASH
      invariant from <= |second| && Start(second, 0) == Start(second, from)
      decreases |second| - from
    {
      from := from + 1;
    }
    while firstlen > 0 && first[firstlen - 1] == SLASH
      invariant firstlen <= |first| && End(first, |first|) == End(first, firstlen)
    {
      firstlen := firstlen - 1;
    }
    WriteJoined(target, targetSize, first, firstlen, second[from..]);
    Assembled(target[..], TrimRight(first), TrimLeft(second));
    ok := true;
  }

  /** The writing half: the first part, the slash, the second part. */
  method WriteJoined(target: array<char>, targetSize: nat, first: string, firstlen: nat, second: string)
    requires IsCString(first) && IsCString(second) && targetSize <= target.Length
    requires firstlen <= |first| && firstlen + 1 + |second| < targetSize
    modifies target
    ensures target[..firstlen] == first[..firstlen] && target[firstlen] == SLASH
    ensures target[firstlen + 1..firstlen + 1 + |second|] == second && target[firstlen + 1 + |second|] == NUL
    ensures SameElsewhere(target[..], old(target[..]), 0, firstlen + 1 + |second|)
  {
    target[0] := NUL;
    if firstlen > 0 {
      SafeStrcpy(target, 0, targetSize, first, firstlen);
    }
    ghost var written := target[..firstlen];
    target[firstlen] := SLASH;
    target[firstlen + 1] := NUL;
    assert target[..firstlen] == written && second[..|second|] == second;
    SafeStrcpy(target, firstlen + 1, targetSize - (firstlen + 1), second, |second|);
    assert forall i :: 0 <= i < firstlen ==> target[i] == written[i];
  }

  lemma Assembled(t: string, r: string, l: string)
    requires |r| + 1 + |l| < |t| && t[..|r|] == r && t[|r|] == SLASH
    requires t[|r| + 1..|r| + 1 + |l|] == l && t[|r| + 1 + |l|] == NUL
    ensures t[..|r| + 1 + |l| + 1] == r + [SLASH] + l + [NUL]
  {
    assert t[..|r| + 1 + |l| + 1] == t[..|r|] + [t[|r|]] + t[|r| + 1..|r| + 1 + |l|] + [t[|r| + 1 + |l|]];
  }

  // Laws.

  /** TrimRight is known by what it leaves. */
  lemma TrimRightIs(r: string, s: string, t: string)
    requires s == r + t && (r != "" ==> r[|r| - 1] != SLASH)
    requires forall i :: 0 <= i < |t| ==> t[i] == SLASH
    ensures TrimRight(s) == r
  {
    forall i | |r| <= i < |s| ensures s[i] == SLASH {
      assert s[i] == t[i - |r|];
    }
    assert r != "" ==> s[|r| - 1] == r[|r| - 1];
    assert End(s, |s|) == |r|;
  }

  lemma TrimLeftIs(l: string, s: string, t: string)
    requires s == t + l && (l != "" ==> l[0] != SLASH)
    requires forall i :: 0 <= i < |t| ==> t[i] == SLASH
    ensures TrimLeft(s) == l
  {
    forall i | 0 <= i < |t| ensures s[i] == SLASH {
      assert s[i] == t[i];
    }
    assert l != "" ==> s[|t|] == l[0];
    assert Start(s, 0) == |t|;
  }

  /** The path: the first part without the slashes it ends in, one slash, and the
      second part without the slashes it begins with. */
  lemma JoinIs(a: string, b: string, r: string, l: string, t: string, u: string)
    requires a == r + t && (r != "" ==> r[|r| - 1] != '/') && forall i :: 0 <= i < |t| ==> t[i] == '/'
    requires b == u + l && (l != "" ==> l[0] != '/') && forall i :: 0 <= i < |u| ==> u[i] == '/'
    ensures Join(a, b) == r + "/" + l
  {
    TrimRightIs(r, a, t);
    TrimLeftIs(l, b, u);
  }

  /** A part that is not all slashes: its two trims meet in one core. */
  lemma CoreOf(b: string) returns (left: string, core: string, right: string)
    requires TrimLeft(b) != ""
    ensures b == left + core + right && core != "" && core[0] != SLASH && core[|core| - 1] != SLASH
    ensures TrimLeft(b) == core + right && TrimRight(b) == left + core
    ensures forall i :: 0 <= i < |left| ==> left[i] == SLASH
    ensures forall i :: 0 <= i < |right| ==> right[i] == SLASH
  {
    var s, e := Start(b, 0), End(b, |b|);
    assert b[s] != SLASH && s < e;
    left, core, right := b[..s], b[s..e], b[e..];
  }

  /** Joining is associative, for all strings. */
  lemma JoinIsAssociative(a: string, b: string, c: string)
    ensures Join(Join(a, b), c) == Join(a, Join(b, c))
  {
    if TrimLeft(b) == "" {
      JoinAroundSlashes(a, b, c);
    } else {
      var ra, lc := TrimRight(a), TrimLeft(c);
      var left, core, right := CoreOf(b);
      TrimRightIs(ra + [SLASH] + core, Join(a, b), right);
      TrimLeftIs(core + [SLASH] + lc, Join(b, c), left);
      Around(ra, core, lc);
    }
  }

  /** A part that is empty, or all slashes. */
  lemma JoinAroundSlashes(a: string, b: string, c: string)
    requires TrimLeft(b) == ""
    ensures Join(Join(a, b), c) == Join(a, Join(b, c))
  {
    TrimRightIs(TrimRight(a), Join(a, b), [SLASH]);
    TrimRightIs("", b, b);
    TrimLeftIs(TrimLeft(c), Join(b, c), [SLASH]);
  }

  lemma Around(a: string, b: string, c: string)
    ensures (a + [SLASH] + b) + [SLASH] + c == a + [SLASH] + (b + [SLASH] + c)
  {
  }

  ghost predicate DoubleSlash(s: string) {
    exists i :: 0 < i < |s| && s[i - 1] == SLASH && s[i] == SLASH
  }

  /** Joining makes no double slash: the path holds one exactly when a part
      holds one that its trimming leaves. */
  lemma JoinMakesNoDoubleSlash(a: string, b: string)
    ensures DoubleSlash(Join(a, b)) <==> DoubleSlash(TrimRight(a)) || DoubleSlash(TrimLeft(b))
  {
    var ra, lb, path := TrimRight(a), TrimLeft(b), Join(a, b);
    if i :| 0 < i < |ra| && ra[i - 1] == SLASH && ra[i] == SLASH {
      assert path[i - 1] == SLASH && path[i] == SLASH;
    }
    if i :| 0 < i < |lb| && lb[i - 1] == SLASH && lb[i] == SLASH {
      var j := |ra| + 1 + i;
      assert path[j - 1] == SLASH && path[j] == SLASH;
    }
    if i :| 0 < i < |path| && path[i - 1] == SLASH && path[i] == SLASH {
      if i < |ra| {
        assert ra[i - 1] == SLASH && ra[i] == SLASH;
      } else {
        var j := i - |ra| - 1;
        assert j > 0 && lb[j - 1] == SLASH && lb[j] == SLASH;
      }
    }
  }

  /** The string a buffer holds. */
  function Held(buffer: array<char>): string
    reads buffer
  {
    buffer[..StrLen(buffer[..])]
  }

  lemma HeldIs(s: string, path: string)
    requires IsCString(path) && |path| < |s| && s[..|path| + 1] == path + [NUL]
    ensures s[..StrLen(s)] == path
  {
    assert s[..|path|] == s[..|path| + 1][..|path|] == path;
    assert s[|path|] == s[..|path| + 1][|path|];
    StrLenAt(s, |path|);
  }

  /** Joining (a, b) with c through a buffer. */
  method JoinLeft(target: array<char>, scratch: array<char>, a: string, b: string, c: string) returns (ok: bool)
    requires IsCString(a) && IsCString(b) && IsCString(c) && target != scratch
    modifies target, scratch
    ensures ok ==> Held(target) == Join(a, Join(b, c))
    ensures |a| + |b| + |c| + 3 < Min(scratch.Length, target.Length) ==> ok
  {
    ok := CanonicalAppend(scratch, scratch.Length, a, b);
    if ok {
      HeldIs(scratch[..], Join(a, b));
      ok := CanonicalAppend(target, target.Length, Held(scratch), c);
      if ok {
        JoinIsAssociative(a, b, c);
        HeldIs(target[..], Join(Join(a, b), c));
      }
    }
  }

  /** Joining a with (b, c) through a buffer: the same path. */
  method JoinRight(target: array<char>, scratch: array<char>, a: string, b: string, c: string) returns (ok: bool)
    requires IsCString(a) && IsCString(b) && IsCString(c) && target != scratch
    modifies target, scratch
    ensures ok ==> Held(target) == Join(Join(a, b), c)
    ensures |a| + |b| + |c| + 3 < Min(scratch.Length, target.Length) ==> ok
  {
    ok := CanonicalAppend(scratch, scratch.Length, b, c);
    if ok {
      HeldIs(scratch[..], Join(b, c));
      ok := CanonicalAppend(target, target.Length, a, Held(scratch));
      if ok {
        JoinIsAssociative(a, b, c);
        HeldIs(target[..], Join(a, Join(b, c)));
      }
    }
  }
}
