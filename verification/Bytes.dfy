/** Bytes, byte strings and the few facts about sequences the other modules share. */
module Bytes {

  newtype byte = x: int | 0 <= x < 256

  type bytes = seq<byte>

  /** The largest 64-bit unsigned value: the source's -1 for offsets and lengths. */
  const UINT64_MAX: nat := 0xFFFF_FFFF_FFFF_FFFF

  datatype Option<+T> = None | Some(value: T)

  /** A header or a parameter as the caller gives it; either half may be missing. */
  datatype KeyValue = KeyValue(key: Option<bytes>, value: Option<bytes>)

  function Min(a: nat, b: nat): nat { if a < b then a else b }

  function Max(a: nat, b: nat): nat { if a < b then b else a }

  function Concat(parts: seq<bytes>): bytes {
    if parts == [] then [] else parts[0] + Concat(parts[1..])
  }

  predicate Free(text: bytes, c: byte) {
    forall i :: 0 <= i < |text| ==> text[i] != c
  }

  lemma Assoc<T>(xs: seq<T>, ys: seq<T>, zs: seq<T>)
    ensures xs + (ys + zs) == xs + ys + zs
  {
  }

  lemma FrontAndLast<T>(xs: seq<T>)
    requires xs != []
    ensures xs == xs[..|xs| - 1] + [xs[|xs| - 1]]
  {
  }

  lemma Regroup(xs: bytes, ys: bytes, zs: bytes, j: nat)
    requires j <= |ys|
    ensures xs + ys + zs == (xs + ys[..j]) + (ys[j..] + zs)
  {
    assert ys == ys[..j] + ys[j..];
  }

  lemma {:induction false} ConcatAppend(xs: seq<bytes>, ys: seq<bytes>)
    ensures Concat(xs + ys) == Concat(xs) + Concat(ys)
  {
    if xs == [] {
      assert xs + ys == ys;
    } else {
      ConcatAppend(xs[1..], ys);
      Assoc(xs[0], Concat(xs[1..]), Concat(ys));
      assert (xs + ys)[1..] == xs[1..] + ys;
    }
  }

  lemma ConcatOne(x: bytes)
    ensures Concat([x]) == x
  {
    assert [x][1..] == [];
  }
}
