/**
 * The extraction callback as a whole: find the candidates, run field extraction on
 * each in order, and push every item that passes the title filter.
 */
module Extraction {
  import opened Wrappers
  import opened Counters
  import opened Items
  import opened Dom
  import opened Cascade
  import opened Fields

  /** What each candidate yields, in candidate order; candidate `i` uses the draws `rolls[i]`. */
  function Outcomes(candidates: seq<Element>, keyword: string, rolls: seq<Roll>, fixed: Fixed): (outcomes: seq<Option<ScrapedData>>)
    requires |candidates| <= |rolls| && ValidRolls(rolls)
    ensures |outcomes| == |candidates|
    ensures forall i | 0 <= i < |candidates| :: outcomes[i] == ItemOf(candidates[i], i, keyword, rolls[i], fixed)
    ensures forall i | 0 <= i < |candidates| :: outcomes[i].Some? ==> WellFormed(outcomes[i].value)
  {
    seq(|candidates|, i requires 0 <= i < |candidates| => ItemOf(candidates[i], i, keyword, rolls[i], fixed))
  }

  /** The values that are present, in order: what the pushes leave in `items`. */
  function Present<T>(outcomes: seq<Option<T>>): (values: seq<T>)
    ensures |values| <= |outcomes|
  {
    if outcomes == [] then []
    else
      var init := Present(outcomes[..|outcomes| - 1]);
      match outcomes[|outcomes| - 1]
      case None => init
      case Some(v) => init + [v]
  }

  /** The positions of the present values, ascending. */
  function PresentAt<T>(outcomes: seq<Option<T>>): (positions: seq<nat>)
    ensures forall p | 0 <= p < |positions| :: positions[p] < |outcomes|
    ensures forall p, q | 0 <= p < q < |positions| :: positions[p] < positions[q]
    ensures forall i | 0 <= i < |outcomes| :: i in positions <==> outcomes[i].Some?
  {
    if outcomes == [] then []
    else
      var init := PresentAt(outcomes[..|outcomes| - 1]);
      assert forall i | 0 <= i < |outcomes| - 1 :: outcomes[i] == outcomes[..|outcomes| - 1][i];
      if outcomes[|outcomes| - 1].Some? then init + [|outcomes| - 1] else init
  }

  /** One more outcome adds its value, if present, at the end. */
  lemma PresentSnoc<T>(outcomes: seq<Option<T>>, n: nat)
    requires n < |outcomes|
    ensures Present(outcomes[..n + 1]) ==
              match outcomes[n]
              case None => Present(outcomes[..n])
              case Some(v) => Present(outcomes[..n]) + [v]
  {
    assert outcomes[..n + 1][..n] == outcomes[..n];
  }

  /**
   * The present values are exactly the values at the present positions, in order:
   * the `p`-th value is the one at the `p`-th present position.
   */
  lemma {:induction false} PresentInOrder<T>(outcomes: seq<Option<T>>)
    ensures var values := Present(outcomes);
            var positions := PresentAt(outcomes);
            && |values| == |positions|
            && forall p | 0 <= p < |values| :: outcomes[positions[p]] == Some(values[p])
  {
    if outcomes != [] {
      var init := outcomes[..|outcomes| - 1];
      PresentInOrder(init);
      assert forall i | 0 <= i < |init| :: outcomes[i] == init[i];
    }
  }

  /** Every present value satisfies what every outcome's value satisfies. */
  lemma PresentWellFormed(outcomes: seq<Option<ScrapedData>>)
    requires forall i | 0 <= i < |outcomes| :: outcomes[i].Some? ==> WellFormed(outcomes[i].value)
    ensures forall p | 0 <= p < |Present(outcomes)| :: WellFormed(Present(outcomes)[p])
  {
    PresentInOrder(outcomes);
  }

  /** The items a loaded page yields. */
  function Scraped(d: Document, keyword: string, rolls: seq<Roll>, fixed: Fixed): seq<ScrapedData>
    requires |rolls| >= MAX_CANDIDATES && ValidRolls(rolls)
  {
    Present(Outcomes(Candidates(d), keyword, rolls, fixed))
  }

  /**
   * The items keep candidate order: they are the items of an ascending list of
   * candidate positions, and a candidate's position is on the list exactly when its
   * title passes the filter.
   */
  lemma ScrapedInOrder(d: Document, keyword: string, rolls: seq<Roll>, fixed: Fixed) returns (positions: seq<nat>)
    requires |rolls| >= MAX_CANDIDATES && ValidRolls(rolls)
    ensures var items := Scraped(d, keyword, rolls, fixed);
            var candidates := Candidates(d);
            && |positions| == |items|
            && (forall p, q | 0 <= p < q < |positions| :: positions[p] < positions[q])
            && (forall p | 0 <= p < |positions| ::
                  && positions[p] < |candidates|
                  && ItemOf(candidates[positions[p]], positions[p], keyword, rolls[positions[p]], fixed) == Some(items[p]))
            && (forall i | 0 <= i < |candidates| :: i in positions <==> Acceptable(Title(candidates[i], keyword, i)))
  {
    var candidates := Candidates(d);
    var outcomes := Outcomes(candidates, keyword, rolls, fixed);
    positions := PresentAt(outcomes);
    PresentInOrder(outcomes);
    assert Scraped(d, keyword, rolls, fixed) == Present(outcomes);
    forall i | 0 <= i < |candidates|
      ensures i in positions <==> Acceptable(Title(candidates[i], keyword, i))
    {
      assert outcomes[i] == ItemOf(candidates[i], i, keyword, rolls[i], fixed);
    }
  }

  /** The body of `page.evaluate`: the cascade, then the `forEach` that pushes accepted items. */
  method Extract(d: Document, keyword: string, rolls: seq<Roll>, fixed: Fixed) returns (items: seq<ScrapedData>)
    requires |rolls| >= MAX_CANDIDATES && ValidRolls(rolls)
    ensures items == Scraped(d, keyword, rolls, fixed)
    ensures |items| <= MAX_CANDIDATES
    ensures forall p | 0 <= p < |items| :: WellFormed(items[p])
  {
    var candidates := FindCandidates(d);
    ghost var outcomes := Outcomes(candidates, keyword, rolls, fixed);
    items := [];
    for index := 0 to |candidates|
      invariant items == Present(outcomes[..index])
    {
      var item := ExtractItem(candidates[index], index, keyword, rolls[index], fixed);
      assert item == outcomes[index];
      PresentSnoc(outcomes, index);
      if item.Some? {
        items := items + [item.value];
      }
    }
    assert outcomes[..|candidates|] == outcomes;
    PresentWellFormed(outcomes);
  }
}
