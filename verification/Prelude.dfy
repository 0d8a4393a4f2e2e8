/** Shared vocabulary: optional values, and the byte-wise string order of C's `strcmp`. */
module Prelude {
  datatype Option<+T> = None | Some(value: T)

  function Min(a: int, b: int): int { if a < b then a else b }

  type byte = x: int | 0 <= x < 256

  /** C's `isspace`. */
  predicate IsSpace(c: char) { c == ' ' || 9 <= c as int <= 13 }

  /** The value of a 64-bit integer after conversion to a 32-bit `int`. */
  function ToInt32(n: int): int {
    var r := n % 0x1_0000_0000;
    if r < 0x8000_0000 then r else r - 0x1_0000_0000
  }

  /** C's `strcmp`: the sign of the first difference, with a proper prefix first. */
  function StrCmp(a: string, b: string): int {
    if a == [] then (if b == [] then 0 else -1)
    else if b == [] then 1
    else if a[0] < b[0] then -1
    else if b[0] < a[0] then 1
    else StrCmp(a[1..], b[1..])
  }

  /** `a` comes strictly before `b` in a dictionary: after a common prefix, `a` ends or has the smaller character. */
  ghost predicate StrLess(a: string, b: string) {
    exists n: nat :: DiffersAt(a, b, n)
  }

  ghost predicate DiffersAt(a: string, b: string, n: nat) {
    n <= |a| && n < |b| && a[..n] == b[..n] && (n == |a| || a[n] < b[n])
  }

  lemma {:induction false} StrCmpSign(a: string, b: string)
    ensures StrCmp(a, b) == 0 <==> a == b
    ensures StrCmp(a, b) == -StrCmp(b, a)
    ensures StrCmp(a, b) < 0 <==> StrLess(a, b)
  {
    if a == [] {
      if b != [] { assert DiffersAt(a, b, 0); }
    } else if b == [] {
    } else if a[0] != b[0] {
      if a[0] < b[0] { assert DiffersAt(a, b, 0); }
      forall n: nat | DiffersAt(a, b, n) ensures a[0] < b[0] {
        if n > 0 { assert a[..n][0] == b[..n][0]; }
      }
    } else {
      StrCmpSign(a[1..], b[1..]);
      assert a == [a[0]] + a[1..] && b == [b[0]] + b[1..];
      forall n: nat | DiffersAt(a[1..], b[1..], n) ensures DiffersAt(a, b, n + 1) {
        assert a[..n + 1] == [a[0]] + a[1..][..n];
        assert b[..n + 1] == [b[0]] + b[1..][..n];
      }
      forall n: nat | DiffersAt(a, b, n) ensures n > 0 && DiffersAt(a[1..], b[1..], n - 1) {
        assert a[1..][..n - 1] == a[..n][1..];
        assert b[1..][..n - 1] == b[..n][1..];
      }
    }
  }

  lemma {:induction false} StrCmpTransitive(a: string, b: string, c: string)
    requires StrCmp(a, b) <= 0 && StrCmp(b, c) <= 0
    ensures StrCmp(a, c) <= 0
    ensures StrCmp(a, b) < 0 || StrCmp(b, c) < 0 ==> StrCmp(a, c) < 0
  {
    if a != [] && b != [] && c != [] && a[0] == b[0] == c[0] {
      StrCmpTransitive(a[1..], b[1..], c[1..]);
    }
  }
}
