/** Order-preserving selections from sequences, shared by the column check, the
    deduplication and the coordinate filter. */
module Seqs {

  /** `sub` is `s` with some elements left out and the others kept in their order. */
  ghost predicate IsSubseq<T>(sub: seq<T>, s: seq<T>)
    decreases |s|
  {
    if s == [] then sub == []
    else
      IsSubseq(sub, s[..|s| - 1])
      || (sub != [] && sub[|sub| - 1] == s[|s| - 1] && IsSubseq(sub[..|sub| - 1], s[..|s| - 1]))
  }

  /** The elements of `s` that `keep` accepts, in their original order. */
  function Filter<T>(s: seq<T>, keep: T -> bool): (r: seq<T>)
    ensures IsSubseq(r, s)
    ensures forall k :: 0 <= k < |r| ==> r[k] in s && keep(r[k])
    ensures forall i :: 0 <= i < |s| && keep(s[i]) ==> s[i] in r
    decreases |s|
  {
    if s == [] then []
    else
      var init, last := s[..|s| - 1], s[|s| - 1];
      assert s == init + [last];
      var kept := Filter(init, keep);
      if keep(last) then
        assert (kept + [last])[..|kept|] == kept;
        kept + [last]
      else
        kept
  }

  ghost predicate Increasing(idx: seq<nat>)
  {
    forall k, l :: 0 <= k < l < |idx| ==> idx[k] < idx[l]
  }

  /** The indices of the elements of `s` that `keep` accepts, in increasing order. */
  function Positions<T>(s: seq<T>, keep: T -> bool): (idx: seq<nat>)
    ensures Increasing(idx)
    ensures forall k :: 0 <= k < |idx| ==> idx[k] < |s|
    ensures forall i :: 0 <= i < |s| ==> (i in idx <==> keep(s[i]))
    decreases |s|
  {
    if s == [] then []
    else
      var init := s[..|s| - 1];
      var before := Positions(init, keep);
      assert forall i :: 0 <= i < |init| ==> init[i] == s[i];
      before + if keep(s[|s| - 1]) then [|s| - 1] else []
  }

  /** `Filter` keeps exactly the elements at the positions `keep` accepts:
      the k-th kept element is the element at the k-th accepted index. */
  lemma {:induction false} FilterSelectsPositions<T>(s: seq<T>, keep: T -> bool)
    ensures |Positions(s, keep)| == |Filter(s, keep)|
    ensures forall k :: 0 <= k < |Positions(s, keep)| ==>
              Filter(s, keep)[k] == s[Positions(s, keep)[k]]
    decreases |s|
  {
    if s != [] {
      var init, last := s[..|s| - 1], s[|s| - 1];
      FilterSelectsPositions(init, keep);
      var idx0, r0 := Positions(init, keep), Filter(init, keep);
      var idx, r := Positions(s, keep), Filter(s, keep);
      if keep(last) {
        assert idx == idx0 + [|s| - 1] && r == r0 + [last];
      } else {
        assert idx == idx0 && r == r0;
      }
      forall k | 0 <= k < |idx| ensures r[k] == s[idx[k]] {
        if k < |idx0| {
          assert r[k] == r0[k] && idx[k] == idx0[k];
        }
      }
    }
  }

  /** Filtering distributes over concatenation. */
  lemma {:induction false} FilterConcat<T>(a: seq<T>, b: seq<T>, keep: T -> bool)
    ensures Filter(a + b, keep) == Filter(a, keep) + Filter(b, keep)
    decreases |b|
  {
    if b == [] {
      assert a + b == a;
    } else {
      var init, last := b[..|b| - 1], b[|b| - 1];
      FilterConcat(a, init, keep);
      assert (a + b)[..|a + b| - 1] == a + init;
      assert (a + b)[|a + b| - 1] == last;
      var tail := if keep(last) then [last] else [];
      calc {
        Filter(a + b, keep);
        Filter(a + init, keep) + tail;
        Filter(a, keep) + Filter(init, keep) + tail;
        Filter(a, keep) + (Filter(init, keep) + tail);
      }
    }
  }

  /** Nothing survives a filter that rejects every element. */
  lemma {:induction false} FilterNone<T>(s: seq<T>, keep: T -> bool)
    requires forall i :: 0 <= i < |s| ==> !keep(s[i])
    ensures Filter(s, keep) == []
    decreases |s|
  {
    if s != [] {
      FilterNone(s[..|s| - 1], keep);
    }
  }

}
