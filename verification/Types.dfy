/** The values every component of the cache passes around. */
module Types {

  newtype byte = x: int | 0 <= x < 256

  /** A Go string: a sequence of bytes. */
  datatype Key = Key(bytes: seq<byte>)

  /** A cached value: an interface that may be nil, otherwise an object that knows its length. */
  datatype Value = Nil | Object(id: nat, len: nat)

  datatype Option<+T> = None | Some(value: T)

  /** A key together with a value, as handed to the eviction callback. */
  datatype Item = Item(key: Key, val: Value)

  const EMPTY: Key := Key([])

  ghost predicate NoDuplicates<T>(s: seq<T>) {
    forall i, j :: 0 <= i < j < |s| ==> s[i] != s[j]
  }

  /** `s` lists every element of `xs` once and nothing else, in some order. */
  ghost predicate Enumerates<T(!new)>(s: seq<T>, xs: set<T>) {
    NoDuplicates(s) && forall x :: x in s <==> x in xs
  }

  function Without<T>(s: seq<T>, i: nat): seq<T>
    requires i < |s|
  {
    s[..i] + s[i + 1..]
  }
}
