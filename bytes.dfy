/** Bytes and the C string view of a byte buffer (strlen, strncpy, memset). */
module Bytes {

  newtype byte = b: int | 0 <= b < 256

  const CR: byte := 0x0d
  const LF: byte := 0x0a
  const LBrace: byte := 0x7b
  const RBrace: byte := 0x7d

  /** `n` zero bytes, what memset(.., '\0', n) leaves behind. */
  function Zeros(n: nat): (z: seq<byte>)
    ensures |z| == n
  {
    seq(n, _ => 0)
  }

  predicate AllZero(s: seq<byte>)
  {
    forall i :: 0 <= i < |s| ==> s[i] == 0
  }

  /** strlen: the number of bytes before the first NUL (or the whole sequence when there is none). */
  function CStrLen(s: seq<byte>): (n: nat)
    ensures n <= |s|
    ensures forall j :: 0 <= j < n ==> s[j] != 0
    ensures n < |s| ==> s[n] == 0
  {
    if s == [] || s[0] == 0 then 0 else 1 + CStrLen(s[1..])
  }

  /** The string a C reader sees in `s`: everything before the first NUL. */
  function CString(s: seq<byte>): (c: seq<byte>)
    ensures c <= s
    ensures forall j :: 0 <= j < |c| ==> c[j] != 0
  {
    s[..CStrLen(s)]
  }

  /** `s` followed by NUL bytes up to `size`. */
  function ZeroPad(s: seq<byte>, size: nat): (r: seq<byte>)
    requires |s| <= size
  {
    s + Zeros(size - |s|)
  }

  /** The first NUL found by a scan is the one strlen finds. */
  lemma CStrLenAt(s: seq<byte>, i: nat)
    requires i <= |s|
    requires forall j :: 0 <= j < i ==> s[j] != 0
    requires i == |s| || s[i] == 0
    ensures CStrLen(s) == i
  {
  }

  /** A byte string without NUL is its own C string. */
  lemma CStringOfNulFree(s: seq<byte>)
    requires forall j :: 0 <= j < |s| ==> s[j] != 0
    ensures CString(s) == s
  {
  }

  /** Padding with NULs does not change what strlen sees. */
  lemma {:induction false} CStringOfPadded(s: seq<byte>, size: nat)
    requires |s| <= size
    ensures CString(ZeroPad(s, size)) == CString(s)
  {
    var p := ZeroPad(s, size);
    var n := CStrLen(s);
    assert forall j :: 0 <= j < n ==> p[j] == s[j];
    if n < |s| {
      assert p[n] == s[n];
    } else if n < size {
      assert p[n] == 0;
    }
    CStrLenAt(p, n);
  }

  /** memset(a, '\0', sizeof a). */
  method Memset(a: array<byte>)
    modifies a
    ensures a[..] == Zeros(a.Length)
  {
    for i := 0 to a.Length
      invariant forall j :: 0 <= j < i ==> a[j] == 0
    {
      a[i] := 0;
    }
  }
}
