/** NUL-terminated strings in byte arrays, and the library loops over them. */
module CStrings {
  import opened Prelude

  /** The bytes before the first NUL. */
  function CStr(s: seq<byte>): (r: seq<byte>)
    ensures |r| <= |s| && r == s[..|r|] && NUL !in r
    ensures |r| < |s| ==> s[|r|] == NUL
  {
    if s == [] || s[0] == NUL then [] else [s[0]] + CStr(s[1..])
  }

  /** The first NUL decides. */
  lemma {:induction false} CStrIs(s: seq<byte>, n: nat)
    requires n <= |s| && NUL !in s[..n] && (n < |s| ==> s[n] == NUL)
    ensures CStr(s) == s[..n]
  {
    if n > 0 {
      assert s[..n][0] == s[0] && s[..n][1..] == s[1..][..n - 1];
      CStrIs(s[1..], n - 1);
    }
  }

  predicate Terminated(s: seq<byte>) { |CStr(s)| < |s| }

  /** Walking along a string: it ends at position k if a NUL is there, and goes on otherwise. */
  lemma {:induction false} Ends(s: seq<byte>, k: nat)
    requires k <= |CStr(s)| && k < |s| && s[k] == NUL
    ensures k == |CStr(s)|
  {
    if k > 0 { Ends(s[1..], k - 1); }
  }

  lemma Continues(s: seq<byte>, k: nat)
    requires k <= |CStr(s)| && k < |s| && s[k] != NUL
    ensures k < |CStr(s)| && CStr(s)[k] == s[k]
  {
  }

  /** `strlen`.  A pointer to constant bytes is the sequence of bytes from there on. */
  method StrLen(s: seq<byte>) returns (n: nat)
    requires Terminated(s)
    ensures n == |CStr(s)|
  {
    n := 0;
    while s[n] != NUL
      invariant n <= |CStr(s)|
      decreases |s| - n
    {
      Continues(s, n);
      n := n + 1;
    }
    Ends(s, n);
  }

  function Take(s: seq<byte>, n: nat): seq<byte> { if n <= |s| then s[..n] else s }

  lemma DifferAt(s: seq<byte>, t: seq<byte>, n: nat, k: nat)
    requires k < n && k <= |s| && k <= |t| && (k < |s| || k < |t|)
    requires k < |s| && k < |t| ==> s[k] != t[k]
    ensures Take(s, n) != Take(t, n)
  {
    if k < |s| && k < |t| { assert Take(s, n)[k] == s[k] && Take(t, n)[k] == t[k]; }
  }

  /** Strings a and b agree up to their k-th bytes and differ there. */
  predicate FirstDifference(a: seq<byte>, b: seq<byte>, k: nat) {
    k <= |CStr(a)| && k < |a| && k < |b| && a[..k] == b[..k] && a[k] != b[k]
  }

  /** `ece391_strncmp`: zero exactly when the strings agree on their first n bytes, else what the
      first differing bytes differ by. */
  method StrNCmp(a: seq<byte>, b: seq<byte>, n: nat) returns (r: int)
    requires Terminated(a) && Terminated(b)
    ensures r == 0 <==> Take(CStr(a), n) == Take(CStr(b), n)
    ensures r != 0 ==> exists k :: 0 <= k < n && FirstDifference(a, b, k) && r == a[k] as int - b[k] as int
  {
    ghost var s, t := CStr(a), CStr(b);
    if n == 0 { return 0; }
    var k := 0;
    while a[k] == b[k]
      invariant k < n && k <= |s| && k <= |t|
      invariant s[..k] == t[..k]
      decreases n - k
    {
      if a[k] == NUL {
        Ends(a, k);
        Ends(b, k);
        return 0;
      }
      Continues(a, k);
      Continues(b, k);
      assert s[..k + 1] == s[..k] + [s[k]] && t[..k + 1] == t[..k] + [t[k]];
      if n - k == 1 { return 0; }
      k := k + 1;
    }
    if a[k] == NUL { Ends(a, k); } else { Continues(a, k); }
    if b[k] == NUL { Ends(b, k); } else { Continues(b, k); }
    DifferAt(s, t, n, k);
    assert a[..k] == s[..k] && b[..k] == t[..k] && FirstDifference(a, b, k);
    var x: int, y: int := a[k], b[k];
    return x - y;
  }
}
