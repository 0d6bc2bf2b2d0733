/** The growable integer buffer `Storage` of
    writing/2018/cpp11_set/code/move1.cpp: a heap array of `reserved` ints
    of which the first `size` are in use, deep-copied by its copy
    constructor and grown by doubling in `append`. */
module Growable {

  /** `Storage`: the buffer `data` (its length is the allocation), `size`
      and `reserved`. */
  datatype Storage = Storage(data: seq<int>, size: nat, reserved: nat)

  /** The buffer is as long as `reserved` says and holds the `size`
      elements in use. */
  predicate Valid(s: Storage) {
    |s.data| == s.reserved && s.size <= s.reserved
  }

  /** The elements in use. */
  function Contents(s: Storage): seq<int>
    requires Valid(s)
  {
    s.data[..s.size]
  }

  /** `Storage(size, reserved)`: allocates `reserved` ints and records both
      numbers without checking them; the new ints are indeterminate and are
      modelled as zeros. */
  function New(size: nat, reserved: nat): (s: Storage)
    ensures s.size == size && s.reserved == reserved && |s.data| == reserved
    ensures Valid(s) <==> size <= reserved
  {
    Storage(seq(reserved, _ => 0), size, reserved)
  }

  /** `Storage(Storage const &)`: a buffer of `other.reserved` ints into
      which the `other.size` elements in use are copied. */
  method Copy(other: Storage) returns (s: Storage)
    requires Valid(other)
    ensures Valid(s) && s.size == other.size && s.reserved == other.reserved
    ensures Contents(s) == Contents(other)
  {
    var data := seq(other.reserved, _ => 0);
    var i := 0;
    while i < other.size
      invariant i <= other.size && |data| == other.reserved
      invariant data[..i] == other.data[..i]
    {
      data := data[i := other.data[i]];
      i := i + 1;
    }
    s := Storage(data, other.size, other.reserved);
  }

  /** `append(v)`: when the buffer is full, reallocate `(size + 1) * 2` ints
      and move the elements in use; then store `v` after them. */
  method Append(s: Storage, v: int) returns (t: Storage)
    requires Valid(s)
    ensures Valid(t) && t.size == s.size + 1
    ensures Contents(t) == Contents(s) + [v]
    ensures s.size < s.reserved ==> t.reserved == s.reserved && t.data == s.data[s.size := v]
    ensures s.reserved <= s.size ==> t.reserved == (s.size + 1) * 2
  {
    var data := s.data;
    var reserved := s.reserved;
    if reserved <= s.size {
      reserved := (s.size + 1) * 2;
      var newdata := seq(reserved, _ => 0);
      var i := 0;
      while i < s.size
        invariant i <= s.size && |newdata| == reserved
        invariant newdata[..i] == s.data[..i]
      {
        newdata := newdata[i := data[i]];
        i := i + 1;
      }
      data := newdata;
    }
    data := data[s.size := v];
    t := Storage(data, s.size + 1, reserved);
  }

  /** `extend(stor)`: the argument is copied in, its last element appended
      to the copy, and the copy returned (copied out again). The caller's
      storage is not touched. */
  method Extend(stor: Storage) returns (r: Storage)
    requires Valid(stor) && stor.size >= 1
    ensures Valid(r) && r.size == stor.size + 1
    ensures Contents(r) == Contents(stor) + [stor.data[stor.size - 1]]
    ensures stor.size < stor.reserved ==> r.reserved == stor.reserved
  {
    var param := Copy(stor);
    assert param.data[param.size - 1] == Contents(param)[param.size - 1];
    param := Append(param, param.data[param.size - 1]);
    r := Copy(param);
  }

  /** The program's `main`: `Storage(2, 4)` extended gives a storage of size 3
      in the same 4 slots, its third element a duplicate of the second. */
  method ExtendExample() returns (stor1: Storage, stor2: Storage)
    ensures stor1.size == 2 && stor1.reserved == 4
    ensures stor2.size == 3 && stor2.reserved == 4
    ensures Valid(stor1) && Valid(stor2) && stor2.data[2] == stor2.data[1] == stor1.data[1]
  {
    stor1 := New(2, 4);
    stor2 := Extend(stor1);
    assert Contents(stor2)[2] == stor2.data[2];
    assert Contents(stor2)[1] == stor2.data[1];
  }
}
