/** `Array.prototype.filter`: the elements that pass a test, in their original order. */
module Seqs {

  /** The positions of the elements of `s` that pass `keep`, ascending. */
  function Kept<T>(s: seq<T>, keep: T -> bool): (positions: seq<nat>)
    ensures forall p | 0 <= p < |positions| :: positions[p] < |s|
    ensures forall p, q | 0 <= p < q < |positions| :: positions[p] < positions[q]
    ensures forall i | 0 <= i < |s| :: i in positions <==> keep(s[i])
  {
    if s == [] then []
    else
      var front := s[..|s| - 1];
      assert forall i | 0 <= i < |front| :: front[i] == s[i];
      if keep(s[|s| - 1]) then Kept(front, keep) + [|s| - 1] else Kept(front, keep)
  }

  /**
   * `s.filter(keep)`: the `p`-th kept element is the element at the `p`-th kept
   * position, so the result keeps both the order and the repetitions of `s`.
   */
  function Filter<T>(s: seq<T>, keep: T -> bool): (r: seq<T>)
    ensures |r| == |Kept(s, keep)|
    ensures forall p | 0 <= p < |r| :: r[p] == s[Kept(s, keep)[p]]
  {
    if s == [] then []
    else
      var front := s[..|s| - 1];
      var init := Filter(front, keep);
      assert forall p | 0 <= p < |init| :: init[p] == front[Kept(front, keep)[p]] == s[Kept(front, keep)[p]];
      if keep(s[|s| - 1]) then init + [s[|s| - 1]] else init
  }

  /** There are no more kept positions than elements. */
  lemma {:induction false} KeptAtMost<T>(s: seq<T>, keep: T -> bool)
    ensures |Kept(s, keep)| <= |s|
  {
    if s != [] {
      KeptAtMost(s[..|s| - 1], keep);
    }
  }

  /** An element is in the filtered sequence exactly when it is in `s` and passes the test. */
  lemma FilterMembers<T>(s: seq<T>, keep: T -> bool)
    ensures forall x :: x in Filter(s, keep) <==> x in s && keep(x)
  {
    var r := Filter(s, keep);
    var ps := Kept(s, keep);
    forall x ensures x in r <==> x in s && keep(x) {
      if x in r {
        var p :| 0 <= p < |r| && r[p] == x;
        assert s[ps[p]] == x;
      }
      if x in s && keep(x) {
        var i :| 0 <= i < |s| && s[i] == x;
        assert i in ps;
        var p :| 0 <= p < |ps| && ps[p] == i;
        assert r[p] == x;
      }
    }
  }
}
