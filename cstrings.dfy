/** The C library string routines the launcher relies on (`tolower` in the C
    locale, `strstr`, `strcasecmp`, and the truncation done by `strncpy` and
    `snprintf`), over strings whose characters stand for the bytes of a C
    string. */
module CStrings {

  datatype Option<T> = None | Some(value: T)

  function Min(a: int, b: int): int { if a <= b then a else b }

  function Max(a: int, b: int): int { if a >= b then a else b }

  /** A C string holds no NUL byte before its terminator. */
  predicate NulFree(s: string) {
    forall i :: 0 <= i < |s| ==> s[i] != '\0'
  }

  /** `tolower` in the C locale: only 'A'..'Z' change. */
  function Lower(c: char): (r: char)
    ensures !('A' <= r <= 'Z')
    ensures r != c ==> 'A' <= c <= 'Z' && r as int == c as int + 32
  {
    if 'A' <= c <= 'Z' then (c as int + 32) as char else c
  }

  /** The string lower-cased character by character. */
  function Fold(s: string): (r: string)
    ensures |r| == |s|
  {
    seq(|s|, i requires 0 <= i < |s| => Lower(s[i]))
  }

  /** At most the first `n` characters of `s`. */
  function Take(s: string, n: nat): (r: string)
    ensures |r| == Min(|s|, n) && r <= s
    ensures |s| <= n ==> r == s
  {
    if |s| <= n then s else s[..n]
  }

  /** `needle` occurs in `hay` starting at position `i`. */
  predicate OccursAt(hay: string, needle: string, i: int) {
    0 <= i && i + |needle| <= |hay| && hay[i..i + |needle|] == needle
  }

  /** The first occurrence of `needle` at or after position `i`. */
  function FindFrom(hay: string, needle: string, i: nat): (r: Option<nat>)
    decreases |hay| - i
    ensures r.Some? ==> i <= r.value && OccursAt(hay, needle, r.value)
    ensures r.Some? ==> forall j :: i <= j < r.value ==> !OccursAt(hay, needle, j)
    ensures r.None? ==> forall j :: i <= j ==> !OccursAt(hay, needle, j)
  {
    if i + |needle| > |hay| then None
    else if hay[i..i + |needle|] == needle then Some(i)
    else FindFrom(hay, needle, i + 1)
  }

  /** `strstr`: the position of the first occurrence of `needle` in `hay`. */
  function StrStr(hay: string, needle: string): (r: Option<nat>)
    ensures r.Some? ==> OccursAt(hay, needle, r.value)
    ensures r.Some? ==> forall j :: 0 <= j < r.value ==> !OccursAt(hay, needle, j)
    ensures r.None? <==> forall j :: !OccursAt(hay, needle, j)
  {
    FindFrom(hay, needle, 0)
  }

  /** `strstr(hay, needle) != NULL`. */
  function Contains(hay: string, needle: string): (r: bool)
    ensures r <==> exists i :: OccursAt(hay, needle, i)
  {
    StrStr(hay, needle).Some?
  }

  /** The byte `strcasecmp` compares at the head of `s`; the terminator reads as 0. */
  function Code(s: string): int {
    if s == [] then 0 else Lower(s[0]) as int
  }

  /** `strcasecmp`: the difference of the first pair of lower-cased bytes that
      differ, the terminator counting as byte 0. */
  function StrCaseCmp(a: string, b: string): (r: int)
    ensures Fold(a) == Fold(b) ==> r == 0
  {
    if a == [] || b == [] || Lower(a[0]) != Lower(b[0]) then
      assert a != [] && b != [] ==> Fold(a)[0] == Lower(a[0]) && Fold(b)[0] == Lower(b[0]);
      Code(a) - Code(b)
    else
      assert Fold(a[1..]) == Fold(a)[1..] && Fold(b[1..]) == Fold(b)[1..];
      StrCaseCmp(a[1..], b[1..])
  }

  lemma LowerIdempotent(c: char)
    ensures Lower(Lower(c)) == Lower(c)
  {
  }

  lemma FoldIdempotent(s: string)
    ensures Fold(Fold(s)) == Fold(s)
  {
    forall i | 0 <= i < |s| ensures Fold(Fold(s))[i] == Fold(s)[i] {
      LowerIdempotent(s[i]);
    }
  }

  lemma FoldSlice(s: string, i: nat, j: nat)
    requires i <= j <= |s|
    ensures Fold(s)[i..j] == Fold(s[i..j])
  {
  }

  lemma FoldTake(s: string, n: nat)
    ensures Take(Fold(s), n) == Fold(Take(s, n))
  {
    if |s| > n {
      FoldSlice(s, 0, n);
    }
  }

  lemma NulFreeTail(s: string)
    requires NulFree(s) && s != []
    ensures NulFree(s[1..])
  {
    forall k | 0 <= k < |s| - 1 ensures s[1..][k] != '\0' {
      assert s[1..][k] == s[k + 1];
    }
  }

  /** A non-empty C string reads a non-zero byte first. */
  lemma CodePositive(s: string)
    requires NulFree(s) && s != []
    ensures Code(s) > 0
  {
    assert s[0] != '\0';
  }

  /** `strcasecmp(a, b)` and `strcasecmp(b, a)` have opposite signs. */
  lemma {:induction false} StrCaseCmpAntisymmetric(a: string, b: string)
    ensures StrCaseCmp(a, b) == -StrCaseCmp(b, a)
  {
    if a != [] && b != [] && Lower(a[0]) == Lower(b[0]) {
      StrCaseCmpAntisymmetric(a[1..], b[1..]);
    }
  }

  /** Any two strings are comparable: `strcasecmp` is a total preorder. */
  lemma StrCaseCmpTotal(a: string, b: string)
    ensures StrCaseCmp(a, b) <= 0 || StrCaseCmp(b, a) <= 0
  {
    StrCaseCmpAntisymmetric(a, b);
  }

  /** On C strings, "sorts no later than" under `strcasecmp` is transitive. */
  lemma {:induction false} StrCaseCmpTransitive(a: string, b: string, c: string)
    requires NulFree(a) && NulFree(b) && NulFree(c)
    requires StrCaseCmp(a, b) <= 0 && StrCaseCmp(b, c) <= 0
    ensures StrCaseCmp(a, c) <= 0
  {
    if a == [] {
    } else if b == [] {
      CodePositive(a);
    } else if c == [] {
      CodePositive(b);
    } else if Lower(a[0]) == Lower(b[0]) && Lower(b[0]) == Lower(c[0]) {
      NulFreeTail(a); NulFreeTail(b); NulFreeTail(c);
      StrCaseCmpTransitive(a[1..], b[1..], c[1..]);
    }
  }

  /** On C strings, `strcasecmp` returns 0 exactly when the lower-cased strings are equal. */
  lemma {:induction false} StrCaseCmpZero(a: string, b: string)
    requires NulFree(a) && NulFree(b)
    ensures StrCaseCmp(a, b) == 0 <==> Fold(a) == Fold(b)
  {
    if a == [] && b == [] {
    } else if a == [] {
      CodePositive(b);
    } else if b == [] {
      CodePositive(a);
    } else if Lower(a[0]) != Lower(b[0]) {
      assert Fold(a)[0] != Fold(b)[0];
    } else {
      NulFreeTail(a); NulFreeTail(b);
      StrCaseCmpZero(a[1..], b[1..]);
      assert Fold(a[1..]) == Fold(a)[1..] && Fold(b[1..]) == Fold(b)[1..];
      assert Fold(a) == [Lower(a[0])] + Fold(a[1..]);
      assert Fold(b) == [Lower(b[0])] + Fold(b[1..]);
    }
  }

  /** The first position where the lower-cased strings differ decides the
      sign: `strcasecmp` is the lexicographic order of the lower-cased bytes. */
  lemma {:induction false} StrCaseCmpFirstDifference(a: string, b: string, i: nat)
    requires i < |a| && i < |b| && Fold(a)[..i] == Fold(b)[..i] && Lower(a[i]) != Lower(b[i])
    ensures StrCaseCmp(a, b) < 0 <==> Lower(a[i]) < Lower(b[i])
  {
    if i > 0 {
      assert Lower(a[0]) == Fold(a)[..i][0] == Fold(b)[..i][0] == Lower(b[0]);
      assert Fold(a[1..])[..i - 1] == Fold(a)[1..i] == Fold(a)[..i][1..];
      assert Fold(b[1..])[..i - 1] == Fold(b)[1..i] == Fold(b)[..i][1..];
      StrCaseCmpFirstDifference(a[1..], b[1..], i - 1);
    }
  }

  /** A string that is, up to case, a proper prefix of a C string sorts before it. */
  lemma {:induction false} StrCaseCmpProperPrefix(a: string, b: string)
    requires NulFree(b) && |a| < |b| && Fold(a) == Fold(b)[..|a|]
    ensures StrCaseCmp(a, b) < 0
  {
    if a == [] {
      CodePositive(b);
    } else {
      assert Lower(a[0]) == Fold(a)[0] == Fold(b)[0] == Lower(b[0]);
      NulFreeTail(b);
      assert Fold(a[1..]) == Fold(a)[1..];
      assert Fold(b[1..])[..|a| - 1] == Fold(b)[1..|a|];
      StrCaseCmpProperPrefix(a[1..], b[1..]);
    }
  }
}
