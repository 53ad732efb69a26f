/** The C library's block operations on byte arrays, and NUL-terminated strings. */
module Memory {
  import opened Words

  /** s with the bytes of d written at offset `at`. */
  function Splice<T>(s: seq<T>, at: nat, d: seq<T>): (r: seq<T>)
    requires at + |d| <= |s|
    ensures |r| == |s|
  {
    s[..at] + d + s[at + |d|..]
  }

  /** Writing d and then e right behind it is writing d + e. */
  lemma SpliceAppend<T>(s: seq<T>, at: nat, d: seq<T>, e: seq<T>)
    requires at + |d| + |e| <= |s|
    ensures Splice(Splice(s, at, d), at + |d|, e) == Splice(s, at, d + e)
  {
  }

  /** Writing over what was just written. */
  lemma SpliceOver<T>(s: seq<T>, at: nat, d: seq<T>, e: seq<T>)
    requires |d| == |e| && at + |d| <= |s|
    ensures Splice(s, at, d)[at..at + |d|] == d
    ensures Splice(Splice(s, at, d), at, e) == Splice(s, at, e)
  {
  }

  lemma SplicePrefix<T>(s: seq<T>, at: nat, d: seq<T>)
    requires at + |d| <= |s|
    ensures Splice(s, at, d)[..at + |d|] == s[..at] + d
    ensures d == [] ==> Splice(s, at, d) == s
  {
  }

  /** Writing over everything. */
  lemma SpliceAll<T>(s: seq<T>, d: seq<T>)
    requires |s| == |d|
    ensures Splice(s, 0, d) == d
  {
  }

  lemma SpliceIs<T>(s: seq<T>, at: nat, d: seq<T>, r: seq<T>)
    requires at + |d| <= |s| == |r|
    requires forall j :: 0 <= j < |s| ==> r[j] == if at <= j < at + |d| then d[j - at] else s[j]
    ensures r == Splice(s, at, d)
  {
  }

  lemma SpliceAt<T>(s: seq<T>, at: nat, d: seq<T>, x: nat)
    requires at + |d| <= |s| && x < |s|
    ensures Splice(s, at, d)[x] == if at <= x < at + |d| then d[x - at] else s[x]
  {
  }

  /** A write seen in a window that contains it. */
  lemma SpliceInWindow<T>(s: seq<T>, lo: nat, n: nat, at: nat, d: seq<T>)
    requires lo + n <= |s| && at + |d| <= n
    ensures Splice(s, lo + at, d)[lo..lo + n] == Splice(s[lo..lo + n], at, d)
  {
    var c := Splice(s, lo + at, d)[lo..lo + n];
    forall x | 0 <= x < n
      ensures c[x] == if at <= x < at + |d| then d[x - at] else s[lo..lo + n][x]
    {
      SpliceAt(s, lo + at, d, lo + x);
    }
    SpliceIs(s[lo..lo + n], at, d, c);
  }

  /** A write is not seen in a window apart from it. */
  lemma SpliceOutside<T>(s: seq<T>, at: nat, d: seq<T>, lo: nat, hi: nat)
    requires at + |d| <= |s| && lo <= hi <= |s| && (hi <= at || at + |d| <= lo)
    ensures Splice(s, at, d)[lo..hi] == s[lo..hi]
  {
    var c := Splice(s, at, d);
    forall x | lo <= x < hi
      ensures c[x] == s[x]
    {
      SpliceAt(s, at, d, x);
    }
  }

  /** Cutting t + m inside m. */
  lemma CutConcat<T>(t: seq<T>, m: seq<T>, k: nat)
    requires k <= |m|
    ensures (t + m)[..|t| + k] == t + m[..k]
    ensures (t + m)[|t| + k..] == m[k..]
  {
  }

  lemma SliceOfSlice<T>(s: seq<T>, from: nat, n: nat, i: nat, j: nat)
    requires from + n <= |s| && i <= j <= n
    ensures s[from..from + n][i..j] == s[from + i..from + j]
  {
    var t := s[from..from + n];
    assert forall x :: 0 <= x < j - i ==> t[i..j][x] == t[i + x] == s[from + i..from + j][x];
  }

  /** Storing bytes that are at hand as a value: a C string literal, or the PUT_UINT32_BE of a word. */
  method Store<T>(dst: array<T>, to: nat, d: seq<T>)
    requires to + |d| <= dst.Length
    modifies dst
    ensures dst[..] == Splice(old(dst[..]), to, d)
  {
    for i := 0 to |d|
      invariant forall j :: 0 <= j < dst.Length ==> dst[j] == if to <= j < to + i then d[j - to] else old(dst[j])
    {
      dst[to + i] := d[i];
    }
    SpliceIs(old(dst[..]), to, d, dst[..]);
  }

  /** memcpy(dst + to, src + from, n) */
  method Memcpy<T>(dst: array<T>, to: nat, src: array<T>, from: nat, n: nat)
    requires to + n <= dst.Length && from + n <= src.Length && dst != src
    modifies dst
    ensures dst[..] == Splice(old(dst[..]), to, src[from..from + n])
  {
    for i := 0 to n
      invariant forall j :: 0 <= j < dst.Length ==>
                  dst[j] == if to <= j < to + i then src[from + (j - to)] else old(dst[j])
    {
      dst[to + i] := src[from + i];
    }
    SpliceIs(old(dst[..]), to, src[from..from + n], dst[..]);
  }

  /** memset(dst + to, v, n) */
  method Memset<T>(dst: array<T>, to: nat, v: T, n: nat)
    requires to + n <= dst.Length
    modifies dst
    ensures dst[..] == Splice(old(dst[..]), to, seq(n, _ => v))
  {
    for i := 0 to n
      invariant forall j :: 0 <= j < dst.Length ==> dst[j] == if to <= j < to + i then v else old(dst[j])
    {
      dst[to + i] := v;
    }
    SpliceIs(old(dst[..]), to, seq(n, _ => v), dst[..]);
  }
}
