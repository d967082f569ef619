/** Types and small helpers shared by every component. */
module Basics {

  type byte = x: int | 0 <= x < 0x100

  type uint32 = x: int | 0 <= x < 0x1_0000_0000

  datatype Option<+T> = None | Some(value: T)

  function Min(a: int, b: int): int {
    if a < b then a else b
  }

  function Max(a: int, b: int): int {
    if a > b then a else b
  }

  function Abs(x: real): real {
    if x < 0.0 then -x else x
  }

  function Zeros(n: nat): (z: seq<byte>)
    ensures |z| == n
  {
    seq(n, _ => 0)
  }

  /** Concatenation of a list of pieces, built from the front. */
  function Flatten<T>(pieces: seq<seq<T>>): seq<T> {
    if pieces == [] then []
    else Flatten(pieces[..|pieces| - 1]) + pieces[|pieces| - 1]
  }

  lemma FlattenPrefix<T>(pieces: seq<seq<T>>, i: nat)
    requires i < |pieces|
    ensures Flatten(pieces[..i + 1]) == Flatten(pieces[..i]) + pieces[i]
  {
    assert pieces[..i + 1][..i] == pieces[..i];
  }

  /** A buffer with `p` written at `at`. */
  function Overwrite<T>(buf: seq<T>, at: nat, p: seq<T>): (r: seq<T>)
    requires at + |p| <= |buf|
    ensures |r| == |buf|
  {
    buf[..at] + p + buf[at + |p|..]
  }

  /** Writing one piece after the other is writing both. */
  lemma OverwriteMore<T>(buf: seq<T>, at: nat, p: seq<T>, q: seq<T>)
    requires at + |p| + |q| <= |buf|
    ensures Overwrite(Overwrite(buf, at, p), at + |p|, q) == Overwrite(buf, at, p + q)
  {
  }

  lemma OverwriteOne<T>(buf: seq<T>, at: nat, x: T)
    requires at < |buf|
    ensures Overwrite(buf, at, [x]) == buf[at := x]
  {
  }

  lemma OverwriteNothing<T>(buf: seq<T>, at: nat)
    requires at <= |buf|
    ensures Overwrite(buf, at, []) == buf
  {
  }

  /** What was written is there. */
  lemma Overwritten<T>(buf: seq<T>, at: nat, p: seq<T>)
    requires at + |p| <= |buf|
    ensures Overwrite(buf, at, p)[at..at + |p|] == p
    ensures forall j | 0 <= j < |buf| && (j < at || at + |p| <= j) :: Overwrite(buf, at, p)[j] == buf[j]
  {
  }
}
