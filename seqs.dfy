/** The three JavaScript array combinators the task engine is built from:
    Array.prototype.map, Array.prototype.filter and Array.prototype.every,
    on immutable sequences. */
module Seqs {

  /** `s.map(f)`: one result per element, in the same order. */
  function Map<A, B>(f: A -> B, s: seq<A>): (r: seq<B>)
    ensures |r| == |s|
    ensures forall i {:trigger r[i]} :: 0 <= i < |s| ==> r[i] == f(s[i])
  {
    if s == [] then [] else [f(s[0])] + Map(f, s[1..])
  }

  /** `s.filter(p)`: the elements satisfying `p`, in their original order. */
  function Filter<A>(p: A -> bool, s: seq<A>): (r: seq<A>)
    ensures |r| <= |s|
    ensures forall i :: 0 <= i < |r| ==> r[i] in s && p(r[i])
    ensures forall i :: 0 <= i < |s| && p(s[i]) ==> s[i] in r
  {
    if s == [] then []
    else if p(s[0]) then [s[0]] + Filter(p, s[1..])
    else Filter(p, s[1..])
  }

  /** `s.every(p)`. */
  function Every<A>(p: A -> bool, s: seq<A>): (r: bool)
    ensures r <==> forall i :: 0 <= i < |s| ==> p(s[i])
  {
    if s == [] then true else p(s[0]) && Every(p, s[1..])
  }

  /** The positions of `s` whose element satisfies `p`. */
  ghost function Positions<A>(p: A -> bool, s: seq<A>): set<int>
  {
    set i | 0 <= i < |s| && p(s[i])
  }

  /** Filtering a concatenation filters each part: the kept elements keep
      their relative order. */
  lemma {:induction false} FilterConcat<A>(p: A -> bool, a: seq<A>, b: seq<A>)
    ensures Filter(p, a + b) == Filter(p, a) + Filter(p, b)
  {
    if a == [] {
      assert a + b == b;
    } else {
      assert (a + b)[1..] == a[1..] + b;
      FilterConcat(p, a[1..], b);
    }
  }

  /** Filtering keeps every element exactly when every element passes. */
  lemma {:induction false} FilterKeepsAll<A>(p: A -> bool, s: seq<A>)
    requires forall i :: 0 <= i < |s| ==> p(s[i])
    ensures Filter(p, s) == s
  {
    if s != [] {
      FilterKeepsAll(p, s[1..]);
    }
  }

  /** The length of a filter is the number of positions that pass. */
  lemma {:induction false} FilterLength<A>(p: A -> bool, s: seq<A>)
    ensures |Filter(p, s)| == |Positions(p, s)|
  {
    if s == [] {
      assert Positions(p, s) == {};
    } else {
      var n := |s| - 1;
      var init := s[..n];
      assert s == init + [s[n]];
      FilterConcat(p, init, [s[n]]);
      FilterLength(p, init);
      assert Filter(p, [s[n]]) == if p(s[n]) then [s[n]] else [] by {
        assert [s[n]][1..] == [];
      }
      if p(s[n]) {
        assert Positions(p, s) == Positions(p, init) + {n};
        assert n !in Positions(p, init);
      } else {
        assert Positions(p, s) == Positions(p, init);
      }
    }
  }
}
