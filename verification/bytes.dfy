/**
 * Shared vocabulary of the model: bytes, optional values, the library's
 * error codes and a few sequence helpers used by every layer.
 */
module Bytes {

  /** An unsigned 8-bit value, the unit every stream transfers. */
  newtype byte = x: int | 0 <= x < 256

  /** The line delimiter '\n'. */
  const NEWLINE: byte := 10

  /** The C string terminator. */
  const NUL: byte := 0

  datatype Option<+T> = None | Some(value: T)

  /** The codes the library stores in its last-error slot. */
  datatype Error = InvalidParameter | OutOfMemory | IO | Unknown

  datatype Result<+T> = Ok(value: T) | Err(error: Error)

  /** `a` is an initial segment of `b`. */
  predicate IsPrefix<T(==)>(a: seq<T>, b: seq<T>) {
    |a| <= |b| && b[..|a|] == a
  }

  /** Concatenation is associative; stated once so that proofs can regroup
      without searching. */
  lemma AppendAssoc<T>(a: seq<T>, b: seq<T>, c: seq<T>)
    ensures (a + b) + c == a + (b + c)
  {
  }

  /** A non-empty sequence followed by `t`, seen from its first element. */
  lemma ConsAppend<T>(s: seq<T>, t: seq<T>)
    requires |s| > 0
    ensures s + t == [s[0]] + (s[1..] + t)
  {
  }

  /** Cutting a sequence at `n` and gluing the halves gives it back. */
  lemma TakeDrop<T>(s: seq<T>, n: nat)
    requires n <= |s|
    ensures s[..n] + s[n..] == s
  {
  }

  /** The concatenation of a sequence of sequences, in order. */
  function Concat<T>(chunks: seq<seq<T>>): seq<T>
    decreases |chunks|
  {
    if |chunks| == 0 then [] else chunks[0] + Concat(chunks[1..])
  }

  function Min(a: int, b: int): int {
    if a <= b then a else b
  }

  /** The first `n` elements of `s`, or all of `s` when it is shorter. */
  function Clamp<T(==)>(s: seq<T>, n: nat): (r: seq<T>)
    ensures |r| == Min(|s|, n)
    ensures IsPrefix(r, s)
  {
    if |s| <= n then s else s[..n]
  }

  /** Clamping twice to the same bound is clamping once, whatever follows. */
  lemma ClampAppend<T>(a: seq<T>, b: seq<T>, n: nat)
    ensures Clamp(Clamp(a, n) + b, n) == Clamp(a + b, n)
  {
    if |a| > n {
      assert (a[..n] + b)[..n] == a[..n];
      assert (a + b)[..n] == a[..n];
    } else if |a + b| > n {
      assert Clamp(a, n) == a;
    }
  }

  /** Index of the first occurrence of `x` in `s`, if any. */
  function IndexOf<T(==)>(s: seq<T>, x: T): (r: Option<nat>)
    ensures r.Some? ==> r.value < |s| && s[r.value] == x
    ensures r.Some? ==> forall i :: 0 <= i < r.value ==> s[i] != x
    ensures r.None? <==> x !in s
  {
    if |s| == 0 then None
    else if s[0] == x then Some(0)
    else match IndexOf(s[1..], x)
      case None => None
      case Some(k) => Some(k + 1)
  }

  /** Searching past a first element that does not match. */
  lemma IndexOfTail<T>(s: seq<T>, x: T)
    requires |s| > 0 && s[0] != x
    ensures IndexOf(s, x).Some? <==> IndexOf(s[1..], x).Some?
    ensures IndexOf(s, x).Some? ==> IndexOf(s, x).value == IndexOf(s[1..], x).value + 1
  {
  }

  /** A match inside `s` is still the first match when more follows. */
  lemma IndexOfBefore<T>(s: seq<T>, t: seq<T>, x: T)
    requires IndexOf(s, x).Some?
    ensures IndexOf(s + t, x) == IndexOf(s, x)
  {
    var k := IndexOf(s, x).value;
    assert (s + t)[k] == x;
  }

  /** Searching past a prefix that does not contain `x`. */
  lemma {:induction false} IndexOfAfter<T>(a: seq<T>, b: seq<T>, x: T)
    requires x !in a
    ensures IndexOf(a + b, x).Some? <==> IndexOf(b, x).Some?
    ensures IndexOf(b, x).Some? ==> IndexOf(a + b, x).value == |a| + IndexOf(b, x).value
    decreases |a|
  {
    if |a| == 0 {
      assert a + b == b;
    } else {
      assert (a + b)[1..] == a[1..] + b;
      IndexOfTail(a + b, x);
      IndexOfAfter(a[1..], b, x);
    }
  }

  /** The bytes of a NUL-terminated C string: everything before the first NUL. */
  function CString(s: seq<byte>): (r: seq<byte>)
    ensures IsPrefix(r, s)
    ensures NUL !in r
    ensures |r| < |s| ==> s[|r|] == NUL
  {
    match IndexOf(s, NUL)
    case None => s
    case Some(k) => s[..k]
  }
}
