/**
 * `StringVector` (src/main/cpp/exqudens/vulkan/model/StringVector.hpp): a
 * vector of strings together with the vector of their `c_str()` pointers,
 * the form Vulkan's create infos take. A pointer is modelled by what it
 * designates: the character buffer of element `index` of the string
 * storage `owner`. Each `std::vector<std::string>` owns one storage; swapping
 * two vectors swaps their storages, copying one makes a new storage.
 */
module StringVector {

  datatype CStr = CStr(owner: nat, index: nat)

  datatype StringVector = StringVector(storage: nat, values: seq<string>, pointers: seq<CStr>)

  /** The class invariant: `pointers[i]` is `values[i].c_str()` of this object's own storage. */
  predicate Mirror(v: StringVector) {
    |v.pointers| == |v.values| && forall i :: 0 <= i < |v.pointers| ==> v.pointers[i] == CStr(v.storage, i)
  }

  /** The text a pointer reads as, if it points into `v`'s storage. */
  function Read(v: StringVector, p: CStr): (r: string)
    requires p.owner == v.storage && p.index < |v.values|
  {
    v.values[p.index]
  }

  /** `toPointers`: `c_str()` of each element, in order. */
  function ToPointers(storage: nat, values: seq<string>): (r: seq<CStr>)
    ensures |r| == |values|
    ensures forall i :: 0 <= i < |r| ==> r[i].owner == storage && r[i].index == i
  {
    seq(|values|, (i: nat) => CStr(storage, i))
  }

  /** The constructor from values, which move into the new storage. */
  function Construct(storage: nat, values: seq<string>): (r: StringVector)
    ensures Mirror(r) && r.values == values && r.storage == storage
    ensures forall i :: 0 <= i < |r.pointers| ==> Read(r, r.pointers[i]) == values[i]
  {
    StringVector(storage, values, ToPointers(storage, values))
  }

  /** The default constructor: both vectors empty. */
  function Default(storage: nat): (r: StringVector)
    ensures Mirror(r) && |r.values| == 0 && |r.pointers| == 0
  {
    StringVector(storage, [], [])
  }

  /** The copy constructor delegates to the value constructor, so the copy's
      pointers are rebuilt over the copy's own (new) storage. */
  function Copy(other: StringVector, storage: nat): (r: StringVector)
    ensures Mirror(r) && r.values == other.values && r.storage == storage
  {
    Construct(storage, other.values)
  }

  /** Not a function of the class: the member-wise copy a defaulted copy
      constructor would perform, keeping pointers into the source's storage.
      It exists only to state `MemberwiseCopyBreaksMirror`. */
  function MemberwiseCopy(other: StringVector, storage: nat): StringVector {
    StringVector(storage, other.values, other.pointers)
  }

  /** Hence the user-written copy constructor: a member-wise copy of a
      non-empty vector into a new storage breaks the invariant. */
  lemma MemberwiseCopyBreaksMirror(other: StringVector, storage: nat)
    requires Mirror(other) && |other.values| > 0 && storage != other.storage
    ensures !Mirror(MemberwiseCopy(other, storage))
    ensures Mirror(Copy(other, storage))
  {
    assert MemberwiseCopy(other, storage).pointers[0].owner == other.storage;
  }

  /** `swap`: both vectors (and so their storages) are exchanged. */
  function Swap(first: StringVector, second: StringVector): (r: (StringVector, StringVector))
    ensures r.0.values == second.values && r.1.values == first.values
    ensures Mirror(first) && Mirror(second) ==> Mirror(r.0) && Mirror(r.1)
  {
    (second, first)
  }

  /** Swapping twice restores both objects. */
  lemma SwapInvolution(first: StringVector, second: StringVector)
    ensures var (a, b) := Swap(first, second); Swap(a, b) == (first, second)
  {
  }

  /** The move constructor: default-construct, then swap. The new object takes
      the source's storage; the source is left empty. */
  function Move(other: StringVector, storage: nat): (r: (StringVector, StringVector))
    ensures r.0 == other
    ensures Mirror(r.1) && |r.1.values| == 0
  {
    Swap(Default(storage), other)
  }

  /** By-value assignment: copy the argument into a parameter (new storage),
      swap it in; the parameter leaves with the old contents. */
  function Assign(target: StringVector, other: StringVector, storage: nat): (r: StringVector)
    ensures Mirror(r) && r.values == other.values
  {
    Swap(target, Copy(other, storage)).0
  }

  /** Copying and assigning yield equal-valued objects whose pointers read
      back as the source's strings. */
  lemma CopyReadsSource(target: StringVector, other: StringVector, storage: nat)
    ensures var c := Copy(other, storage);
      forall i :: 0 <= i < |c.pointers| ==> Read(c, c.pointers[i]) == other.values[i]
    ensures var a := Assign(target, other, storage);
      forall i :: 0 <= i < |a.pointers| ==> Read(a, a.pointers[i]) == other.values[i]
  {
  }
}
