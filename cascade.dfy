/**
 * The element cascade of the extraction callback: the note selectors in decreasing
 * order of confidence, the generic structural filter over `div`s when all of them
 * come back empty, and the cap on how many candidates are processed.
 */
module Cascade {
  import opened Wrappers
  import opened Text
  import opened Dom
  import opened Seqs

  const NOTE_SELECTORS: seq<string> := [
    "section[role=\"listitem\"]",
    ".note-item",
    ".feed-item",
    "[data-testid=\"note\"]",
    ".note-container",
    "a[href*=\"/explore/\"]",
    "article",
    ".card"
  ]

  /** At most this many candidates go on to field extraction. */
  const MAX_CANDIDATES := 15

  /** The structural fallback's test: an image, a text-bearing child, a link in or around it, and more than ten characters of text. */
  predicate IsCard(e: Element) {
    && Query(e, "img").Some?
    && Query(e, TEXT_BEARING).Some?
    && (Query(e, "a").Some? || e.closestAnchor.Some?)
    && |e.text| > 10
  }

  /**
   * `Array.from(document.querySelectorAll('div')).filter(...)`: the cards among the
   * divs, in document order. The `p`-th card is the div at the `p`-th card position,
   * and a div is among the cards exactly when it passes the test.
   */
  function Cards(divs: seq<Element>): (r: seq<Element>)
    ensures |r| == |Kept(divs, IsCard)| <= |divs|
    ensures forall p | 0 <= p < |r| :: r[p] == divs[Kept(divs, IsCard)[p]]
    ensures forall e :: e in r <==> e in divs && IsCard(e)
  {
    FilterMembers(divs, IsCard);
    KeptAtMost(divs, IsCard);
    Filter(divs, IsCard)
  }

  /** The match list of the first selector in `selectors` that matches anything, or `[]`. */
  function FirstNonEmpty(d: Document, selectors: seq<string>): seq<Element>
  {
    if selectors == [] then []
    else if Select(d, selectors[0]) != [] then Select(d, selectors[0])
    else FirstNonEmpty(d, selectors[1..])
  }

  /** The elements the cascade settles on, before the cap. */
  function Located(d: Document): seq<Element> {
    var found := FirstNonEmpty(d, NOTE_SELECTORS);
    if found != [] then found else Cards(Select(d, "div"))
  }

  /** The candidates extraction works on: the located elements cut to the cap. */
  function Candidates(d: Document): seq<Element> {
    Prefix(Located(d), MAX_CANDIDATES)
  }

  /** The first selector that matches anything decides the list, whatever later selectors would find. */
  lemma {:induction false} FirstNonEmptyIsFirstHit(d: Document, selectors: seq<string>, k: nat)
    requires k < |selectors| && Select(d, selectors[k]) != []
    requires forall j | 0 <= j < k :: Select(d, selectors[j]) == []
    ensures FirstNonEmpty(d, selectors) == Select(d, selectors[k])
  {
    if k > 0 {
      assert Select(d, selectors[0]) == [];
      FirstNonEmptyIsFirstHit(d, selectors[1..], k - 1);
    }
  }

  /** Only when every selector is empty is the result empty. */
  lemma {:induction false} FirstNonEmptyEmpty(d: Document, selectors: seq<string>)
    ensures FirstNonEmpty(d, selectors) == [] <==> forall j | 0 <= j < |selectors| :: Select(d, selectors[j]) == []
  {
    if selectors != [] {
      FirstNonEmptyEmpty(d, selectors[1..]);
      assert forall j | 1 <= j < |selectors| :: selectors[j] == selectors[1..][j - 1];
    }
  }

  /**
   * The cascade: the list of the first note selector that matches anything; the
   * structural filter runs only when all of them match nothing.
   */
  lemma LocatedCases(d: Document)
    ensures (forall j | 0 <= j < |NOTE_SELECTORS| :: Select(d, NOTE_SELECTORS[j]) == [])
            ==> Located(d) == Cards(Select(d, "div"))
    ensures forall k | 0 <= k < |NOTE_SELECTORS| ::
              Select(d, NOTE_SELECTORS[k]) != []
              && (forall j | 0 <= j < k :: Select(d, NOTE_SELECTORS[j]) == [])
              ==> Located(d) == Select(d, NOTE_SELECTORS[k])
  {
    FirstNonEmptyEmpty(d, NOTE_SELECTORS);
    forall k | 0 <= k < |NOTE_SELECTORS|
              && Select(d, NOTE_SELECTORS[k]) != []
              && (forall j | 0 <= j < k :: Select(d, NOTE_SELECTORS[j]) == [])
      ensures Located(d) == Select(d, NOTE_SELECTORS[k])
    {
      FirstNonEmptyIsFirstHit(d, NOTE_SELECTORS, k);
    }
  }

  /**
   * The selector loop, the structural fallback and `slice(0, 15)`: at most fifteen
   * candidates, a prefix of what the cascade located, in document order.
   */
  method FindCandidates(d: Document) returns (candidates: seq<Element>)
    ensures |candidates| <= MAX_CANDIDATES
    ensures candidates <= Located(d)
    ensures |candidates| == MAX_CANDIDATES || candidates == Located(d)
    ensures candidates == Candidates(d)
  {
    var noteElements: seq<Element> := [];
    var i := 0;
    while i < |NOTE_SELECTORS|
      invariant 0 <= i <= |NOTE_SELECTORS|
      invariant noteElements == []
      invariant FirstNonEmpty(d, NOTE_SELECTORS) == FirstNonEmpty(d, NOTE_SELECTORS[i..])
    {
      assert NOTE_SELECTORS[i..][0] == NOTE_SELECTORS[i];
      noteElements := Select(d, NOTE_SELECTORS[i]);
      if noteElements != [] {
        break;
      }
      assert NOTE_SELECTORS[i..][1..] == NOTE_SELECTORS[i + 1..];
      i := i + 1;
    }
    if noteElements == [] {
      assert NOTE_SELECTORS[i..] == [];
      noteElements := Cards(Select(d, "div"));
    }
    candidates := Prefix(noteElements, MAX_CANDIDATES);
  }
}
