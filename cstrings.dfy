/** NUL-terminated character buffers and the string routines of the command
    (grub_strstr, grub_strrchr, grub_strchr, grub_strncmp, grub_strlen, memcpy). */
module CStrings {
  import opened Types

  const NUL: char := 0 as char

  /** A C string's contents: no NUL inside. Every line the line reader delivers is one. */
  predicate IsCString(s: seq<char>) {
    NUL !in s
  }

  /** grub_strlen seen from the buffer: the index of the first NUL at or after p, or |s|. */
  function NulAt(s: seq<char>, p: nat): (q: nat)
    requires p <= |s|
    ensures p <= q <= |s|
    decreases |s| - p
  {
    if p == |s| || s[p] == NUL then p else NulAt(s, p + 1)
  }

  /** NulAt finds the first NUL at or after p. */
  lemma {:induction false} NulAtIsFirstNul(s: seq<char>, p: nat)
    requires p <= |s|
    ensures forall j :: p <= j < NulAt(s, p) ==> s[j] != NUL
    ensures NulAt(s, p) < |s| ==> s[NulAt(s, p)] == NUL
    decreases |s| - p
  {
    if p < |s| && s[p] != NUL {
      NulAtIsFirstNul(s, p + 1);
    }
  }

  /** The C string that starts at index p of a buffer. */
  function CStr(s: seq<char>, p: nat): string
    requires p <= |s|
  {
    s[p..NulAt(s, p)]
  }

  /** A NUL at q with none between p and q ends the C string at p. */
  lemma {:induction false} CStrUpTo(s: seq<char>, p: nat, q: nat)
    requires p <= q < |s| && s[q] == NUL
    requires forall j :: p <= j < q ==> s[j] != NUL
    ensures NulAt(s, p) == q && CStr(s, p) == s[p..q]
    decreases q - p
  {
    if p < q {
      CStrUpTo(s, p + 1, q);
    }
  }

  /** The C string of a buffer holding `line` and its terminator is `line`, from any start. */
  lemma CStrOfLine(line: string, p: nat)
    requires IsCString(line) && p <= |line|
    ensures CStr(line + [NUL], p) == line[p..]
  {
    var s := line + [NUL];
    assert forall j :: p <= j < |line| ==> s[j] == line[j];
    CStrUpTo(s, p, |line|);
  }

  /** A slice of a C string is a C string. */
  lemma SliceIsCString(s: string, i: nat, j: nat)
    requires IsCString(s) && i <= j <= |s|
    ensures IsCString(s[i..j])
  {
    assert forall x :: x in s[i..j] ==> x in s;
  }

  /** pat occurs in s at index i. */
  predicate OccursAt(s: string, pat: string, i: nat) {
    i + |pat| <= |s| && s[i..i + |pat|] == pat
  }

  /** FIND: grub_strstr followed by a step over the pattern: the index just after the first
      occurrence of pat in s, or None when pat does not occur (see FindIsFirstOccurrence). */
  function Find(s: string, pat: string): (r: Option<nat>)
    ensures r.Some? ==> |pat| <= r.value <= |s|
  {
    FindFrom(s, pat, 0)
  }

  function FindFrom(s: string, pat: string, k: nat): (r: Option<nat>)
    requires k <= |s|
    ensures r.Some? ==> k + |pat| <= r.value <= |s|
    decreases |s| - k
  {
    if k + |pat| > |s| then None
    else if s[k..k + |pat|] == pat then Some(k + |pat|)
    else FindFrom(s, pat, k + 1)
  }

  lemma {:induction false} FindFromIsFirstOccurrence(s: string, pat: string, k: nat)
    requires k <= |s|
    ensures FindFrom(s, pat, k).Some? ==>
      OccursAt(s, pat, FindFrom(s, pat, k).value - |pat|) &&
      forall i: nat :: k <= i < FindFrom(s, pat, k).value - |pat| ==> !OccursAt(s, pat, i)
    ensures FindFrom(s, pat, k).None? <==> forall i: nat :: k <= i ==> !OccursAt(s, pat, i)
    decreases |s| - k
  {
    if k + |pat| > |s| {
    } else if s[k..k + |pat|] == pat {
      assert OccursAt(s, pat, k);
    } else {
      FindFromIsFirstOccurrence(s, pat, k + 1);
    }
  }

  /** FIND returns the end of the first occurrence, and None exactly when there is none. */
  lemma FindIsFirstOccurrence(s: string, pat: string)
    ensures Find(s, pat).Some? ==>
      OccursAt(s, pat, Find(s, pat).value - |pat|) &&
      forall i: nat :: i < Find(s, pat).value - |pat| ==> !OccursAt(s, pat, i)
    ensures Find(s, pat).None? <==> forall i: nat :: !OccursAt(s, pat, i)
  {
    FindFromIsFirstOccurrence(s, pat, 0);
  }

  /** The first occurrence of pat ending at r makes FIND return r. */
  lemma FindAt(s: string, pat: string, r: nat)
    requires |pat| <= r && OccursAt(s, pat, r - |pat|)
    requires forall i: nat :: i < r - |pat| ==> !OccursAt(s, pat, i)
    ensures Find(s, pat) == Some(r)
  {
    FindIsFirstOccurrence(s, pat);
    var f := Find(s, pat);
    assert f.Some?;
    assert !(f.value - |pat| < r - |pat|);
    assert !(r - |pat| < f.value - |pat|);
  }

  /** grub_strrchr: the index of the last c in s (see LastIndexIsLast). */
  function LastIndex(s: string, c: char): (r: Option<nat>)
    ensures r.Some? ==> r.value < |s|
  {
    LastIndexBelow(s, c, |s|)
  }

  function LastIndexBelow(s: string, c: char, n: nat): (r: Option<nat>)
    requires n <= |s|
    ensures r.Some? ==> r.value < n
  {
    if n == 0 then None
    else if s[n - 1] == c then Some(n - 1)
    else LastIndexBelow(s, c, n - 1)
  }

  lemma {:induction false} LastIndexBelowIsLast(s: string, c: char, n: nat)
    requires n <= |s|
    ensures LastIndexBelow(s, c, n).Some? ==>
      s[LastIndexBelow(s, c, n).value] == c &&
      forall j :: LastIndexBelow(s, c, n).value < j < n ==> s[j] != c
    ensures LastIndexBelow(s, c, n).None? ==> forall j :: 0 <= j < n ==> s[j] != c
  {
    if n > 0 && s[n - 1] != c {
      LastIndexBelowIsLast(s, c, n - 1);
    }
  }

  /** strrchr finds the last c, and None exactly when s holds no c. */
  lemma LastIndexIsLast(s: string, c: char)
    ensures LastIndex(s, c).Some? ==>
      s[LastIndex(s, c).value] == c && forall j :: LastIndex(s, c).value < j < |s| ==> s[j] != c
    ensures LastIndex(s, c).None? ==> forall j :: 0 <= j < |s| ==> s[j] != c
  {
    LastIndexBelowIsLast(s, c, |s|);
  }

  /** A c at e with none after it makes strrchr return e. */
  lemma LastIndexAt(s: string, c: char, e: nat)
    requires e < |s| && s[e] == c && forall j :: e < j < |s| ==> s[j] != c
    ensures LastIndex(s, c) == Some(e)
  {
    LastIndexIsLast(s, c);
    var r := LastIndex(s, c);
    assert r.Some?;
    assert !(r.value < e);
    assert !(e < r.value);
  }

  /** grub_strchr: the index of the first c in s (see IndexOfIsFirst). */
  function IndexOf(s: string, c: char): (r: Option<nat>)
    ensures r.Some? ==> r.value < |s|
  {
    IndexFrom(s, c, 0)
  }

  function IndexFrom(s: string, c: char, k: nat): (r: Option<nat>)
    requires k <= |s|
    ensures r.Some? ==> k <= r.value < |s|
    decreases |s| - k
  {
    if k == |s| then None
    else if s[k] == c then Some(k)
    else IndexFrom(s, c, k + 1)
  }

  lemma {:induction false} IndexFromIsFirst(s: string, c: char, k: nat)
    requires k <= |s|
    ensures IndexFrom(s, c, k).Some? ==>
      s[IndexFrom(s, c, k).value] == c && forall j :: k <= j < IndexFrom(s, c, k).value ==> s[j] != c
    ensures IndexFrom(s, c, k).None? ==> forall j :: k <= j < |s| ==> s[j] != c
    decreases |s| - k
  {
    if k < |s| && s[k] != c {
      IndexFromIsFirst(s, c, k + 1);
    }
  }

  /** strchr finds the first c, and None exactly when s holds no c. */
  lemma IndexOfIsFirst(s: string, c: char)
    ensures IndexOf(s, c).Some? ==>
      s[IndexOf(s, c).value] == c && forall j :: 0 <= j < IndexOf(s, c).value ==> s[j] != c
    ensures IndexOf(s, c).None? ==> forall j :: 0 <= j < |s| ==> s[j] != c
  {
    IndexFromIsFirst(s, c, 0);
  }

  /** The character a C string position designates: its first character, or the terminator. */
  function Head(s: string): int {
    if |s| == 0 then 0 else s[0] as int
  }

  /** grub_strncmp: compares at most n characters, stopping at a terminator or a difference,
      and returns the difference of the characters where it stopped. */
  function StrNCmp(a: string, b: string, n: nat): int
    decreases n
  {
    if n == 0 then 0
    else if |a| == 0 || |b| == 0 || a[0] != b[0] || n == 1 then Head(a) - Head(b)
    else StrNCmp(a[1..], b[1..], n - 1)
  }

  /** CMPHEAD: zero exactly when s starts with head. */
  function CmpHead(s: string, head: string): int {
    StrNCmp(s, head, |head|)
  }

  lemma {:induction false} StrNCmpIsPrefix(a: string, b: string, n: nat)
    requires IsCString(a) && IsCString(b) && n == |b|
    ensures StrNCmp(a, b, n) == 0 <==> b <= a
    decreases n
  {
    if n == 0 {
    } else if |a| == 0 {
      assert Head(b) != 0;
    } else if a[0] != b[0] {
      assert !(b <= a) by { assert b[0] != a[0]; }
    } else if n == 1 {
      assert b == [b[0]];
      assert b <= a by { assert a[..1] == [a[0]]; }
    } else {
      assert IsCString(a[1..]) && IsCString(b[1..]) by {
        assert forall x :: x in a[1..] ==> x in a;
        assert forall x :: x in b[1..] ==> x in b;
      }
      StrNCmpIsPrefix(a[1..], b[1..], n - 1);
      if b[1..] <= a[1..] {
        assert b == [b[0]] + b[1..];
        assert a[..|b|] == [a[0]] + a[1..][..|b| - 1];
      }
      if b <= a {
        assert b[1..] == a[1..][..|b| - 1];
      }
    }
  }

  /** The prefix test CMPHEAD performs, on the C strings of the command. */
  lemma CmpHeadIsPrefix(s: string, head: string)
    requires IsCString(s) && IsCString(head)
    ensures CmpHead(s, head) == 0 <==> head <= s
  {
    StrNCmpIsPrefix(s, head, |head|);
  }

  /** A fresh buffer holding `line` and its terminator, as grub_file_getline returns it. */
  method NewLineBuffer(line: string) returns (buf: array<char>)
    ensures fresh(buf) && buf[..] == line + [NUL]
  {
    buf := new char[|line| + 1];
    var k := 0;
    while k < |line|
      invariant 0 <= k <= |line|
      invariant buf[..k] == line[..k]
    {
      buf[k] := line[k];
      k := k + 1;
    }
    buf[|line|] := NUL;
    assert buf[..|line|] == line;
  }

  /** memcpy of src into dst at index at. */
  method CopyInto(dst: array<char>, at: nat, src: string)
    requires at + |src| <= dst.Length
    modifies dst
    ensures forall j :: 0 <= j < at || at + |src| <= j < dst.Length ==> dst[j] == old(dst[j])
    ensures forall j :: at <= j < at + |src| ==> dst[j] == src[j - at]
  {
    var k := 0;
    while k < |src|
      invariant 0 <= k <= |src|
      invariant forall j :: 0 <= j < at || at + k <= j < dst.Length ==> dst[j] == old(dst[j])
      invariant forall j :: at <= j < at + k ==> dst[j] == src[j - at]
    {
      dst[at + k] := src[k];
      k := k + 1;
    }
  }
}
