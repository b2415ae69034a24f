/** The slice and iterator adaptors the geometry code leans on (`filter`,
    `position`, `enumerate().filter_map`, `flat_map`, `chunks`), as functions
    on finite sequences. */
module Seqs {
  import opened Wrappers
  import opened Ints

  /** The elements of `s` that `keep` accepts, in their order in `s`. */
  function Filter<T>(keep: T -> bool, s: seq<T>): (r: seq<T>)
    ensures |r| <= |s|
    ensures forall x :: x in r ==> x in s && keep(x)
    ensures forall x :: x in s && keep(x) ==> x in r
  {
    if s == [] then []
    else (if keep(s[0]) then [s[0]] else []) + Filter(keep, s[1..])
  }

  /** Filtering a concatenation filters each part and keeps their order; with
      `FilterSingle` this pins down `Filter` completely. */
  lemma {:induction false} FilterAppend<T>(keep: T -> bool, s: seq<T>, t: seq<T>)
    ensures Filter(keep, s + t) == Filter(keep, s) + Filter(keep, t)
  {
    if s == [] {
      assert s + t == t;
    } else {
      assert (s + t)[1..] == s[1..] + t;
      FilterAppend(keep, s[1..], t);
    }
  }

  lemma FilterSingle<T>(keep: T -> bool, x: T)
    ensures Filter(keep, [x]) == if keep(x) then [x] else []
  {
    assert [x][1..] == [];
  }

  /** A filter that accepts everything is the identity. */
  lemma {:induction false} FilterAll<T>(keep: T -> bool, s: seq<T>)
    requires forall x :: x in s ==> keep(x)
    ensures Filter(keep, s) == s
  {
    if s != [] {
      FilterAll(keep, s[1..]);
    }
  }

  /** `iter().position(|x| x == v)`: the first index holding `v`, if any. */
  function FirstIndex<T(==)>(s: seq<T>, v: T): (r: Option<nat>)
    ensures r.None? <==> v !in s
    ensures r.Some? ==> r.value < |s| && s[r.value] == v
                        && forall j :: 0 <= j < r.value ==> s[j] != v
  {
    if s == [] then None
    else if s[0] == v then Some(0)
    else match FirstIndex(s[1..], v)
      case None => None
      case Some(i) => Some(i + 1)
  }

  /** `iter().enumerate().filter_map(..)` keeping the indices that hold `v`:
      every such index, in increasing order. */
  function IndicesOf<T(==)>(s: seq<T>, v: T): (r: seq<nat>)
    ensures forall i :: i in r <==> 0 <= i < |s| && s[i] == v
    ensures forall k, l :: 0 <= k < l < |r| ==> r[k] < r[l]
  {
    if s == [] then []
    else
      var n := |s| - 1;
      var earlier := IndicesOf(s[..n], v);
      assert forall k :: 0 <= k < |earlier| ==> earlier[k] < n by {
        forall k | 0 <= k < |earlier| ensures earlier[k] < n {
          assert earlier[k] in earlier;
        }
      }
      earlier + (if s[n] == v then [n] else [])
  }

  /** `flat_map` over a list of slices: the slices laid end to end. */
  function Concat<T>(ls: seq<seq<T>>): (r: seq<T>)
  {
    if ls == [] then [] else ls[0] + Concat(ls[1..])
  }

  /** Appending one more slice appends its elements. */
  lemma {:induction false} ConcatSnoc<T>(ls: seq<seq<T>>, l: seq<T>)
    ensures Concat(ls + [l]) == Concat(ls) + l
  {
    if ls == [] {
      assert [] + [l] == [l];
      assert [l][1..] == [];
    } else {
      assert (ls + [l])[1..] == ls[1..] + [l];
      ConcatSnoc(ls[1..], l);
    }
  }

  /** `chunks(w)`: consecutive pieces of `w` elements, the last one possibly
      shorter; an empty slice has no chunks. */
  function Chunks<T>(s: seq<T>, w: nat): (r: seq<seq<T>>)
    requires w > 0
    ensures forall k :: 0 <= k < |r| ==> 0 < |r[k]| <= w
    ensures forall k :: 0 <= k < |r| - 1 ==> |r[k]| == w
    decreases |s|
  {
    if s == [] then []
    else if |s| <= w then [s]
    else [s[..w]] + Chunks(s[w..], w)
  }

  /** Laying the chunks end to end gives back the slice. */
  lemma {:induction false} ConcatChunks<T>(s: seq<T>, w: nat)
    requires w > 0
    ensures Concat(Chunks(s, w)) == s
    decreases |s|
  {
    if |s| > w {
      ConcatChunks(s[w..], w);
      assert ([s[..w]] + Chunks(s[w..], w))[1..] == Chunks(s[w..], w);
      assert s[..w] + s[w..] == s;
    } else if s != [] {
      assert [s][1..] == [];
    }
  }

  /** Cutting the concatenation of slices that all have length `w` into
      chunks of `w` gives back those slices. */
  lemma {:induction false} ChunksConcat<T>(ls: seq<seq<T>>, w: nat)
    requires w > 0
    requires forall k :: 0 <= k < |ls| ==> |ls[k]| == w
    ensures |Concat(ls)| == w * |ls|
    ensures Chunks(Concat(ls), w) == ls
  {
    if ls != [] {
      var n := |ls| - 1;
      ChunksConcat(ls[1..], w);
      var c := Concat(ls);
      assert c == ls[0] + Concat(ls[1..]);
      MulDistributes(w, 1, n);
      assert |c| == w * |ls|;
      if n == 0 {
        assert ls[1..] == [];
        assert c == ls[0];
      } else {
        MulMonotone(w, n);
        assert c[..w] == ls[0];
        assert c[w..] == Concat(ls[1..]);
        assert ls == [ls[0]] + ls[1..];
      }
    }
  }

  /** `map(f)`: `f` applied to every element, in order. */
  function Map<A, B>(f: A -> B, s: seq<A>): (r: seq<B>)
    ensures |r| == |s|
    ensures forall k :: 0 <= k < |s| ==> r[k] == f(s[k])
  {
    if s == [] then [] else [f(s[0])] + Map(f, s[1..])
  }
}
