/** The operations of Vector<scalar, CPU> (vector/cpu_vector.cpp) that the model uses; a vector is
    an array. */
module Vectors {
  import opened Sequences

  /** set: fill with one value. */
  method Fill<T>(v: array<T>, value: T)
    modifies v
    ensures forall k :: 0 <= k < v.Length ==> v[k] == value
  {
    for i := 0 to v.Length
      invariant forall k :: 0 <= k < i ==> v[k] == value
    {
      v[i] := value;
    }
  }

  /** The counting constructor: begin, begin + 1, and so on. */
  method Counting(begin: int, size: nat) returns (v: array<int>)
    ensures fresh(v) && v.Length == size
    ensures forall k :: 0 <= k < size ==> v[k] == begin + k
  {
    v := new int[size];
    var value := begin;
    for i := 0 to size
      invariant value == begin + i
      invariant forall k :: 0 <= k < i ==> v[k] == begin + k
    {
      v[i] := value;
      value := value + 1;
    }
  }

  /** A new array with the first elements of an old one, as many as fit. */
  method Resized<T(0)>(v: array<T>, size: nat) returns (r: array<T>)
    ensures fresh(r) && r.Length == size
    ensures r[..Min(v.Length, size)] == v[..Min(v.Length, size)]
  {
    r := new T[size];
    for i := 0 to Min(v.Length, size)
      invariant forall k :: 0 <= k < i ==> r[k] == v[k]
    {
      r[i] := v[i];
    }
  }

  /** An element-by-element copy. */
  method Copy<T>(source: array<T>, dest: array<T>)
    requires source != dest && source.Length == dest.Length
    modifies dest
    ensures dest[..] == source[..]
  {
    for i := 0 to source.Length
      invariant forall k :: 0 <= k < i ==> dest[k] == source[k]
    {
      dest[i] := source[i];
    }
  }
}
