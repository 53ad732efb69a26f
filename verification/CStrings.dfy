/** NUL-terminated strings in byte memory. */
module CStrings {
  import opened Words

  /** No NUL inside. */
  predicate IsText(s: seq<byte>) {
    forall i :: 0 <= i < |s| ==> s[i] != 0
  }

  /** strlen: the index of the first NUL. */
  function StrLen(s: seq<byte>): (n: nat)
    ensures n <= |s|
    ensures n < |s| ==> s[n] == 0
    ensures IsText(s[..n])
  {
    if s == [] || s[0] == 0 then 0
    else
      var n := StrLen(s[1..]);
      assert s[..n + 1] == [s[0]] + s[1..][..n];
      n + 1
  }

  function CString(s: seq<byte>): (t: seq<byte>)
    ensures IsText(t)
  {
    s[..StrLen(s)]
  }

  /** What C asks of a `const char *`. */
  ghost predicate IsCString(a: array<byte>)
    reads a
  {
    StrLen(a[..]) < a.Length
  }

  lemma {:induction false} StrLenIs(s: seq<byte>, t: seq<byte>)
    requires |t| < |s| && s[..|t|] == t && s[|t|] == 0 && IsText(t)
    ensures StrLen(s) == |t|
    decreases |t|
  {
    if t != [] {
      assert s[0] == t[0];
      assert s[1..][..|t| - 1] == t[1..];
      StrLenIs(s[1..], t[1..]);
    }
  }
}
