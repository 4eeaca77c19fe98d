/** Bytes, little-endian pairs and splicing: the vocabulary shared by every module. */
module Bytes {

  type byte = b: int | 0 <= b < 0x100

  datatype Option<+T> = None | Some(value: T)

  function Min(a: int, b: int): int {
    if a > b then b else a
  }

  /** A 16-bit value in two bytes, least significant first; wider values lose their upper bits. */
  function Le16(x: nat): (r: seq<byte>) {
    [x % 0x100, (x / 0x100) % 0x100]
  }

  function FromLe16(lo: byte, hi: byte): (r: nat) {
    hi * 0x100 + lo
  }

  lemma Assoc<T>(a: seq<T>, b: seq<T>, c: seq<T>)
    ensures (a + b) + c == a + (b + c)
  {
  }

  lemma CutAt<T>(a: seq<T>, b: seq<T>)
    ensures (a + b)[..|a|] == a && (a + b)[|a|..] == b
  {
  }

  lemma MiddleOf<T>(a: seq<T>, b: seq<T>, c: seq<T>)
    ensures (a + b + c)[|a|..|a| + |b|] == b && (a + b + c)[|a| + |b|..] == c
  {
  }

  /** `now` is `before` with `w` written over the bytes from `at` on, and nothing else changed. */
  ghost predicate Wrote(before: seq<byte>, now: seq<byte>, at: nat, w: seq<byte>) {
    at + |w| <= |now| && now[at..at + |w|] == w && SameOutside(before, now, at, |w|)
  }

  /** Bytes outside the `n` bytes from `at` on are untouched. */
  ghost predicate SameOutside(before: seq<byte>, now: seq<byte>, at: nat, n: nat) {
    |before| == |now| && forall k :: 0 <= k < |now| && !(at <= k < at + n) ==> now[k] == before[k]
  }

  lemma WroteThen(s: seq<byte>, t: seq<byte>, u: seq<byte>, at: nat, v: seq<byte>, w: seq<byte>)
    requires Wrote(s, t, at, v) && Wrote(t, u, at + |v|, w)
    ensures Wrote(s, u, at, v + w)
  {
    assert u[at..at + |v|] == t[at..at + |v|];
    assert u[at..at + |v + w|] == u[at..at + |v|] + u[at + |v|..at + |v| + |w|];
  }

  /** A buffer that was written from end to end holds what was written. */
  lemma WroteAll(s: seq<byte>, t: seq<byte>, w: seq<byte>)
    requires Wrote(s, t, 0, w) && |t| == |w|
    ensures t == w
  {
  }
}
