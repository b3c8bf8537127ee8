/** Bytes, C strings and the result of a look-up that may fail. */
module CTypes {
  type byte = x: int | 0 <= x < 256

  // A C string without its terminating NUL.
  type Text = seq<byte>

  // How a shared file is announced: its name, its size in bytes and the CRC of its data.
  datatype FileInfo = FileInfo(name: Text, size: nat, checksum: bv32)

  datatype Option<+T> = None | Some(value: T)

  // `a` is `b` with some elements left out: `f` says which elements stay.
  ghost predicate Picks<T>(a: seq<T>, b: seq<T>, f: seq<int>) {
    && |f| == |a|
    && (forall i :: 0 <= i < |f| ==> 0 <= f[i] < |b| && a[i] == b[f[i]])
    && (forall i, j :: 0 <= i < j < |f| ==> f[i] < f[j])
  }

  ghost predicate Subsequence<T>(a: seq<T>, b: seq<T>) {
    exists f :: Picks(a, b, f)
  }
}
