/**
 * The hand-written NUL-terminated string helpers (src/rnbench.c:35-83).
 * A C character buffer is an `array<char>` (or, for read-only text such as
 * string literals, a `seq<char>`); the C string it holds is everything before
 * its first NUL.
 */
module CStrings {

  /**
   * `rnb_iswhitespace`: only newline, space, tab and carriage return. Each
   * is a character after NUL and no greater than a space, so the terminator
   * never separates words, and of the printable characters only the space does.
   */
  function IsWhitespace(c: char): (b: bool)
    ensures b ==> '\0' < c <= ' '
    ensures ' ' <= c <= '~' ==> (b <==> c == ' ')
  {
    c == '\n' || c == ' ' || c == '\t' || c == '\r'
  }

  /** A buffer that holds a C string: it contains a NUL somewhere. */
  predicate IsCString(s: seq<char>)
  {
    '\0' in s
  }

  /** The index of the first NUL of the buffer: the length of the C string it holds. */
  function CLen(s: seq<char>): (n: nat)
    requires IsCString(s)
    ensures n < |s| && s[n] == '\0'
    ensures forall k :: 0 <= k < n ==> s[k] != '\0'
  {
    if s[0] == '\0' then 0
    else
      assert '\0' in s[1..] by {
        var k :| 0 <= k < |s| && s[k] == '\0';
        assert s[1..][k - 1] == '\0';
      }
      CLen(s[1..]) + 1
  }

  /** The C string held by a buffer: the characters before its first NUL. */
  function CStr(s: seq<char>): (t: seq<char>)
    requires IsCString(s)
    ensures '\0' !in t && |t| < |s|
    ensures t + ['\0'] == s[..|t| + 1]
  {
    s[..CLen(s)]
  }

  /** A NUL at index `n` with none before it is the first NUL. */
  lemma CLenAt(s: seq<char>, n: nat)
    requires n < |s| && s[n] == '\0'
    requires forall k :: 0 <= k < n ==> s[k] != '\0'
    ensures IsCString(s) && CLen(s) == n
  {
  }

  /**
   * Lexicographic order on character codes, a proper prefix coming first.
   * For byte characters this is the order `rnb_strcmp` reports, because a
   * C string's terminating NUL is smaller than any character it holds.
   */
  predicate LexLess(a: seq<char>, b: seq<char>)
  {
    |b| > 0 && (|a| == 0 || a[0] < b[0] || (a[0] == b[0] && LexLess(a[1..], b[1..])))
  }

  /** Past a common prefix, the order is decided by what follows it. */
  lemma {:induction false} LexLessAfterPrefix(a: seq<char>, b: seq<char>, i: nat)
    requires i <= |a| && i <= |b| && a[..i] == b[..i]
    ensures LexLess(a, b) == LexLess(a[i..], b[i..])
  {
    if i > 0 {
      assert a[0] == b[0] by { assert a[..i][0] == b[..i][0]; }
      assert a[1..][..i - 1] == b[1..][..i - 1] by {
        assert a[1..][..i - 1] == a[..i][1..];
        assert b[1..][..i - 1] == b[..i][1..];
      }
      LexLessAfterPrefix(a[1..], b[1..], i - 1);
      assert a[1..][i - 1..] == a[i..];
      assert b[1..][i - 1..] == b[i..];
    }
  }

  /** `rnb_strzero`: the first `size` characters become NUL, the rest is untouched. */
  method StrZero(dst: array<char>, size: nat)
    requires size <= dst.Length
    modifies dst
    ensures forall k :: 0 <= k < size ==> dst[k] == '\0'
    ensures forall k :: size <= k < dst.Length ==> dst[k] == old(dst[k])
  {
    var p := 0;
    var left := size;
    while left > 0
      invariant p + left == size && p <= size
      invariant forall k :: 0 <= k < p ==> dst[k] == '\0'
      invariant forall k :: p <= k < dst.Length ==> dst[k] == old(dst[k])
    {
      dst[p] := '\0';
      p := p + 1;
      left := left - 1;
    }
  }

  /** `rnb_strlen`: the index of the first NUL. */
  method StrLen(text: array<char>) returns (len: nat)
    requires IsCString(text[..])
    ensures len < text.Length && text[len] == '\0'
    ensures forall k :: 0 <= k < len ==> text[k] != '\0'
    ensures len == |CStr(text[..])|
  {
    ghost var n := CLen(text[..]);
    len := 0;
    while text[len] != '\0'
      invariant 0 <= len <= n
      invariant forall k :: 0 <= k < len ==> text[k] != '\0'
      decreases n - len
    {
      len := len + 1;
    }
  }

  /**
   * `rnb_strcat`: find the end of the C string in `dst`, then copy `txt` up
   * to and including its NUL from there. The caller guarantees the room.
   * `txt` is a string literal in every call, hence a value here.
   * `CatCString` shows that the buffer then holds the concatenated C string.
   */
  method StrCat(dst: array<char>, txt: seq<char>)
    requires IsCString(dst[..]) && IsCString(txt)
    requires CLen(dst[..]) + CLen(txt) < dst.Length
    modifies dst
    ensures dst[..] == old(dst[..])[..old(CLen(dst[..]))] + txt[..CLen(txt) + 1]
                       + old(dst[..])[old(CLen(dst[..])) + CLen(txt) + 1..]
  {
    ghost var od := dst[..];
    ghost var ld := CLen(od);
    ghost var lt := CLen(txt);
    var e := 0;
    while dst[e] != '\0'
      invariant 0 <= e <= ld
      decreases ld - e
    {
      e := e + 1;
    }
    assert e == ld;
    var m := 0;
    while txt[m] != '\0'
      invariant 0 <= m <= lt
      invariant forall k :: 0 <= k < e ==> dst[k] == od[k]
      invariant forall k :: 0 <= k < m ==> dst[e + k] == txt[k]
      invariant forall k :: e + m <= k < dst.Length ==> dst[k] == od[k]
      decreases lt - m
    {
      dst[e + m] := txt[m];
      m := m + 1;
    }
    assert m == lt;
    dst[e + m] := '\0';
    SplicedBuffer(dst[..], od, txt, ld, lt);
  }

  /** A buffer that agrees with `od` outside `[ld, ld + lt]` and holds `txt[..lt + 1]` inside it. */
  lemma SplicedBuffer(a: seq<char>, od: seq<char>, txt: seq<char>, ld: nat, lt: nat)
    requires |a| == |od| && ld + lt < |od| && lt < |txt|
    requires forall k :: 0 <= k < ld ==> a[k] == od[k]
    requires forall k :: 0 <= k <= lt ==> a[ld + k] == txt[k]
    requires forall k :: ld + lt < k < |a| ==> a[k] == od[k]
    ensures a == od[..ld] + txt[..lt + 1] + od[ld + lt + 1..]
  {
    var r := od[..ld] + txt[..lt + 1] + od[ld + lt + 1..];
    forall k | 0 <= k < |a|
      ensures a[k] == r[k]
    {
      if ld <= k <= ld + lt {
        assert a[ld + (k - ld)] == txt[k - ld];
      }
    }
  }

  /** Writing `txt` with its NUL over the end of a C string yields the concatenated C string. */
  lemma CatCString(s: seq<char>, txt: seq<char>)
    requires IsCString(s) && IsCString(txt) && CLen(s) + CLen(txt) < |s|
    ensures var r := s[..CLen(s)] + txt[..CLen(txt) + 1] + s[CLen(s) + CLen(txt) + 1..];
      IsCString(r) && CStr(r) == CStr(s) + CStr(txt)
  {
    var r := s[..CLen(s)] + txt[..CLen(txt) + 1] + s[CLen(s) + CLen(txt) + 1..];
    CLenAt(r, CLen(s) + CLen(txt));
  }

  /**
   * `rnb_strcmp`: walk both strings while they agree and the first has not
   * ended, then subtract the two characters as unsigned bytes. The result is
   * zero exactly for equal strings and its sign is their lexicographic order.
   * A model character stands for one C byte, so the `(unsigned char)` casts
   * leave its code as it is.
   */
  method StrCmp(str1: seq<char>, str2: seq<char>) returns (r: int)
    requires IsCString(str1) && IsCString(str2)
    ensures r == 0 <==> CStr(str1) == CStr(str2)
    ensures r < 0 <==> LexLess(CStr(str1), CStr(str2))
    ensures r > 0 <==> LexLess(CStr(str2), CStr(str1))
  {
    var a, b := CStr(str1), CStr(str2);
    var i := 0;
    while str1[i] != '\0' && str1[i] == str2[i]
      invariant 0 <= i <= |a| && i <= |b|
      invariant str1[..i] == str2[..i]
      decreases |a| - i
    {
      i := i + 1;
    }
    r := str1[i] as int - str2[i] as int;
    assert a[..i] == b[..i] by {
      assert a[..i] == str1[..i] && b[..i] == str2[..i];
    }
    LexLessAfterPrefix(a, b, i);
    LexLessAfterPrefix(b, a, i);
    if str1[i] == '\0' {
      assert |a| == i;
      if str2[i] == '\0' {
        assert |b| == i;
      } else {
        assert |b| > i;
      }
    } else {
      assert |a| > i && a[i] == str1[i];
      if str2[i] == '\0' {
        assert |b| == i;
      } else {
        assert |b| > i && b[i] == str2[i];
      }
    }
  }
}
