/** Linear searches over sequences, shared by the selection loops. */
module Search {
  import opened Wrappers

  /** The index at which a `for ... if (p) return/break` loop stops. */
  function FirstIndex<T>(xs: seq<T>, p: T -> bool): (r: Option<nat>)
    ensures r.Some? ==> r.value < |xs| && p(xs[r.value])
    ensures r.Some? ==> forall j :: 0 <= j < r.value ==> !p(xs[j])
    ensures r.None? ==> forall j :: 0 <= j < |xs| ==> !p(xs[j])
    decreases |xs|
  {
    if |xs| == 0 then None
    else if p(xs[0]) then Some(0)
    else match FirstIndex(xs[1..], p)
      case None => None
      case Some(i) => Some(i + 1)
  }

  /** The indices `i < |xs|` with `p(xs[i])`, ascending: a loop that
      `emplace_back`s each matching index. */
  function IndicesWhere<T>(xs: seq<T>, p: T -> bool): (r: seq<nat>)
    ensures forall k :: 0 <= k < |r| ==> r[k] < |xs| && p(xs[r[k]])
    ensures forall i :: 0 <= i < |xs| && p(xs[i]) ==> i in r
    ensures forall k, l :: 0 <= k < l < |r| ==> r[k] < r[l]
    decreases |xs|
  {
    if |xs| == 0 then []
    else
      var rest := IndicesWhere(xs[..|xs| - 1], p);
      if p(xs[|xs| - 1]) then rest + [|xs| - 1] else rest
  }

  /** Strictly ascending, hence without repetition. */
  predicate StrictlyAscending(xs: seq<nat>) {
    forall k, l :: 0 <= k < l < |xs| ==> xs[k] < xs[l]
  }

  /** A strictly ascending sequence is fixed by its elements. */
  lemma {:induction false} AscendingSameElements(xs: seq<nat>, ys: seq<nat>)
    requires StrictlyAscending(xs) && StrictlyAscending(ys)
    requires forall v :: v in xs <==> v in ys
    ensures xs == ys
    decreases |xs|
  {
    if |xs| == 0 {
      HeadIn(ys);
    } else {
      assert xs[0] in ys;
      assert ys[0] in xs;
      var a :| 0 <= a < |ys| && ys[a] == xs[0];
      var b :| 0 <= b < |xs| && xs[b] == ys[0];
      assert xs[0] <= xs[b] && ys[0] <= ys[a];
      forall v ensures v in xs[1..] <==> v in ys[1..] {
        if v in xs[1..] {
          var i :| 1 <= i < |xs| && xs[i] == v;
          assert v in ys && v != ys[0];
        }
        if v in ys[1..] {
          var i :| 1 <= i < |ys| && ys[i] == v;
          assert v in xs && v != xs[0];
        }
      }
      AscendingSameElements(xs[1..], ys[1..]);
      assert xs == [xs[0]] + xs[1..] && ys == [ys[0]] + ys[1..];
    }
  }

  lemma HeadIn(xs: seq<nat>)
    ensures xs != [] ==> xs[0] in xs
  {
  }
}
