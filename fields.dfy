/**
 * Per-element field extraction of the scrape callback: link, title, author,
 * counters and thumbnail, and the filter that decides whether the element yields an
 * item at all. Each step that is a loop in the source is a method, specified by the
 * function beside it.
 */
module Fields {
  import opened Wrappers
  import opened Text
  import opened Counters
  import opened Items
  import opened Dom
  import opened Seqs

  // ---------------------------------------------------------------- link

  /** `element.querySelector('a') || element.closest('a')`. */
  function LinkElement(e: Element): Option<Node> {
    var inner := Query(e, "a");
    if inner.Some? then inner else e.closestAnchor
  }

  /** The anchor's `href`, when there is an anchor and its `href` is present and non-empty. */
  function Href(e: Element): Option<string> {
    match LinkElement(e)
    case None => None
    case Some(anchor) =>
      match GetAttribute(anchor, "href")
      case None => None
      case Some(h) => if h == "" then None else Some(h)
  }

  /**
   * The note's link: `#` exactly when there is no usable `href`; an `href` starting
   * with `http` as it is; any other `href` with the origin put in front of it.
   */
  function ResolveLink(e: Element): (link: string)
    ensures link == "#" <==> Href(e).None?
    ensures link == "#" || StartsWith(link, "http")
    ensures Href(e).Some? && StartsWith(Href(e).value, "http") ==> link == Href(e).value
    ensures Href(e).Some? && !StartsWith(Href(e).value, "http") ==> link == ORIGIN + Href(e).value
  {
    match Href(e)
    case None => "#"
    case Some(h) =>
      if StartsWith(h, "http") then h
      else
        assert (ORIGIN + h)[..4] == "http";
        ORIGIN + h
  }

  // ---------------------------------------------------------------- thumbnail

  /** The image attributes tried in order: `src`, then the two lazy-loading ones. */
  const IMAGE_ATTRIBUTES: seq<string> := ["src", "data-src", "data-lazy-src"]

  /** `getAttribute(name)` is truthy: present and non-empty. */
  predicate HasValue(n: Node, name: string) {
    name in n.attributes && n.attributes[name] != ""
  }

  /** `getAttribute(a) || getAttribute(b) || … || ''`: the value of the first attribute that has one. */
  function FirstValue(n: Node, names: seq<string>): (v: string)
    ensures v == "" <==> forall k | 0 <= k < |names| :: !HasValue(n, names[k])
    ensures v != "" ==> exists k | 0 <= k < |names| ::
              && HasValue(n, names[k]) && v == n.attributes[names[k]]
              && forall j | 0 <= j < k :: !HasValue(n, names[j])
  {
    if names == [] then ""
    else if HasValue(n, names[0]) then
      n.attributes[names[0]]
    else
      var v := FirstValue(n, names[1..]);
      assert forall k | 1 <= k < |names| :: names[k] == names[1..][k - 1];
      assert v != "" ==> exists k | 0 <= k < |names| ::
               && HasValue(n, names[k]) && v == n.attributes[names[k]]
               && forall j | 0 <= j < k :: !HasValue(n, names[j]) by {
        if v != "" {
          var k :| 0 <= k < |names| - 1 && HasValue(n, names[1..][k]) && v == n.attributes[names[1..][k]]
                   && forall j | 0 <= j < k :: !HasValue(n, names[1..][j]);
          assert HasValue(n, names[k + 1]) && v == n.attributes[names[k + 1]];
          assert forall j | 1 <= j < k + 1 :: !HasValue(n, names[j]);
        }
      }
      v
  }

  /**
   * Thumbnail normalisation: `//x` becomes `https://x`, a `/x` not starting with `//`
   * becomes the origin followed by `/x`; anything else, the empty string included,
   * is kept. Only the empty string normalises to the empty string, and a rooted form
   * always becomes an `https://` URL.
   */
  function NormalizeUrl(t: string): (r: string)
    ensures r == "" <==> t == ""
    ensures StartsWith(t, "/") ==> StartsWith(r, "https://")
    ensures StartsWith(t, "//") ==> r == "https:" + t
    ensures StartsWith(t, "/") && !StartsWith(t, "//") ==> r == ORIGIN + t
    ensures !StartsWith(t, "/") ==> r == t
  {
    if StartsWith(t, "//") then
      assert ("https:" + t)[..8] == "https://";
      "https:" + t
    else if StartsWith(t, "/") then
      assert (ORIGIN + t)[..8] == "https://";
      ORIGIN + t
    else t
  }

  /** Normalising a normalised thumbnail changes nothing. */
  lemma NormalizeIdempotent(t: string)
    ensures NormalizeUrl(NormalizeUrl(t)) == NormalizeUrl(t)
  {
    var r := NormalizeUrl(t);
    if StartsWith(t, "/") {
      assert r[0] == 'h';
    }
  }

  /** The note's thumbnail: empty without an image, otherwise its first usable source, normalised. */
  function Thumbnail(e: Element): (t: string)
    ensures Query(e, "img").None? ==> t == ""
    ensures Query(e, "img").Some? ==> t == NormalizeUrl(FirstValue(Query(e, "img").value, IMAGE_ATTRIBUTES))
  {
    match Query(e, "img")
    case None => ""
    case Some(img) => NormalizeUrl(FirstValue(img, IMAGE_ATTRIBUTES))
  }

  // ---------------------------------------------------------------- title

  const TITLE_SELECTORS: seq<string> := [
    "[data-testid=\"title\"]", ".title", "h3", "h4", "h5", "h6",
    ".note-title", "span[title]", "div[title]"
  ]

  /** A title selector wins when its first match's trimmed text is longer than five characters. */
  predicate TitleHit(e: Element, selector: string) {
    var n := Query(e, selector);
    n.Some? && |Trim(n.value.text)| > 5
  }

  /** The trimmed text of a winning title selector's first match. */
  function HitText(e: Element, selector: string): string
    requires TitleHit(e, selector)
  {
    Trim(Query(e, selector).value.text)
  }

  /** The trimmed text of the first winning title selector, or `""` when none wins. */
  function SelectorTitle(e: Element, selectors: seq<string>): (t: string)
    ensures t == "" <==> forall k | 0 <= k < |selectors| :: !TitleHit(e, selectors[k])
    ensures t != "" ==> |t| > 5
  {
    if selectors == [] then ""
    else if TitleHit(e, selectors[0]) then
      HitText(e, selectors[0])
    else
      assert forall k | 1 <= k < |selectors| :: selectors[k] == selectors[1..][k - 1];
      SelectorTitle(e, selectors[1..])
  }

  /** The title selectors are tried in order: the first winning one gives the title. */
  lemma {:induction false} SelectorTitleFirstHit(e: Element, selectors: seq<string>, k: nat)
    requires k < |selectors| && TitleHit(e, selectors[k])
    requires forall j | 0 <= j < k :: !TitleHit(e, selectors[j])
    ensures SelectorTitle(e, selectors) == HitText(e, selectors[k])
  {
    if k > 0 {
      assert !TitleHit(e, selectors[0]);
      var rest := selectors[1..];
      assert rest[k - 1] == selectors[k];
      assert forall j | 0 <= j < k - 1 :: !TitleHit(e, rest[j]) by {
        forall j | 0 <= j < k - 1 ensures !TitleHit(e, rest[j]) {
          assert rest[j] == selectors[j + 1];
        }
      }
      SelectorTitleFirstHit(e, rest, k - 1);
      assert SelectorTitle(e, selectors) == SelectorTitle(e, rest);
    }
  }

  /** The text-fragment filter: longer than five and shorter than a hundred characters, not all digits. */
  predicate Admissible(t: string) {
    5 < |t| < 100 && !IsDigits(t)
  }

  /** The text-bearing descendants' texts, each trimmed. */
  function TrimmedTexts(e: Element): (ts: seq<string>)
    ensures |ts| == |Texts(e)|
    ensures forall k | 0 <= k < |ts| :: ts[k] == Trim(Texts(e)[k])
  {
    var texts := Texts(e);
    seq(|texts|, k requires 0 <= k < |texts| => Trim(texts[k]))
  }

  /**
   * `.filter(...)` over the trimmed texts: the fragments that pass the fragment
   * filter, in document order. The `p`-th fragment kept is the text at the `p`-th
   * kept position, so the stable sort that follows sees them in that order.
   */
  function Admitted(texts: seq<string>): (r: seq<string>)
    ensures |r| == |Kept(texts, Admissible)|
    ensures forall p | 0 <= p < |r| :: r[p] == texts[Kept(texts, Admissible)[p]]
    ensures forall t :: t in r <==> t in texts && Admissible(t)
  {
    FilterMembers(texts, Admissible);
    Filter(texts, Admissible)
  }

  /**
   * The head of the fragments sorted by descending length. The sort is stable, so it
   * is the first fragment of maximal length: as long as every fragment, and strictly
   * longer than every fragment before it.
   */
  function FirstLongest(ts: seq<string>): (r: string)
    ensures ts == [] ==> r == ""
    ensures ts != [] ==> exists k | 0 <= k < |ts| ::
              && r == ts[k]
              && (forall j | 0 <= j < k :: |ts[j]| < |r|)
              && (forall j | 0 <= j < |ts| :: |ts[j]| <= |r|)
  {
    if |ts| <= 1 then
      if ts == [] then "" else ts[0]
    else
      var rest := FirstLongest(ts[1..]);
      assert forall j | 1 <= j < |ts| :: ts[j] == ts[1..][j - 1];
      if |rest| > |ts[0]| then
        var k :| 0 <= k < |ts| - 1 && rest == ts[1..][k] && (forall j | 0 <= j < k :: |ts[1..][j]| < |rest|)
                 && (forall j | 0 <= j < |ts| - 1 :: |ts[1..][j]| <= |rest|);
        assert rest == ts[k + 1];
        assert forall j | 1 <= j < k + 1 :: |ts[j]| < |rest|;
        rest
      else
        ts[0]
  }

  /** A non-empty list's first longest fragment is one of them, and no fragment is longer. */
  lemma FirstLongestIsLongest(ts: seq<string>)
    requires ts != []
    ensures FirstLongest(ts) in ts
    ensures forall t | t in ts :: |t| <= |FirstLongest(ts)|
  {
    var r := FirstLongest(ts);
    forall t | t in ts ensures |t| <= |r| {
      var j :| 0 <= j < |ts| && ts[j] == t;
    }
  }

  /** `${keyword}相关内容 ${index + 1}`. */
  function FallbackTitle(keyword: string, index: nat): string {
    keyword + "相关内容 " + Decimal(index + 1)
  }

  /**
   * The title cascade: the first winning title selector; else the longest admissible
   * text fragment; else the keyword fallback. In every case it is longer than five
   * characters.
   */
  function Title(e: Element, keyword: string, index: nat): (title: string)
    ensures |title| > 5
  {
    var bySelector := SelectorTitle(e, TITLE_SELECTORS);
    if bySelector != "" then bySelector
    else
      var longest := FirstLongest(Admitted(TrimmedTexts(e)));
      if longest != "" then
        assert longest in Admitted(TrimmedTexts(e));
        longest
      else FallbackTitle(keyword, index)
  }

  /** No title selector wins. */
  predicate NoTitleHit(e: Element) {
    forall k | 0 <= k < |TITLE_SELECTORS| :: !TitleHit(e, TITLE_SELECTORS[k])
  }

  /** The first winning title selector gives the title: its first match's trimmed text. */
  lemma TitleBySelector(e: Element, keyword: string, index: nat, k: nat)
    requires k < |TITLE_SELECTORS| && TitleHit(e, TITLE_SELECTORS[k])
    requires forall j | 0 <= j < k :: !TitleHit(e, TITLE_SELECTORS[j])
    ensures Title(e, keyword, index) == HitText(e, TITLE_SELECTORS[k])
  {
    SelectorTitleFirstHit(e, TITLE_SELECTORS, k);
  }

  /** When no selector wins, the title is an admissible fragment at least as long as every other. */
  lemma TitleByFragment(e: Element, keyword: string, index: nat)
    requires NoTitleHit(e) && Admitted(TrimmedTexts(e)) != []
    ensures Title(e, keyword, index) in Admitted(TrimmedTexts(e))
    ensures forall t | t in Admitted(TrimmedTexts(e)) :: |t| <= |Title(e, keyword, index)|
  {
    assert SelectorTitle(e, TITLE_SELECTORS) == "";
    FirstLongestIsLongest(Admitted(TrimmedTexts(e)));
  }

  /** When no selector wins and no fragment is admissible, the keyword fallback is the title. */
  lemma TitleByFallback(e: Element, keyword: string, index: nat)
    requires NoTitleHit(e) && Admitted(TrimmedTexts(e)) == []
    ensures Title(e, keyword, index) == FallbackTitle(keyword, index)
  {
  }

  /** The title selector loop and its two fallbacks, in the order the callback runs them. */
  method SelectTitle(e: Element, keyword: string, index: nat) returns (title: string)
    ensures title == Title(e, keyword, index)
  {
    title := "";
    var i := 0;
    while i < |TITLE_SELECTORS|
      invariant 0 <= i <= |TITLE_SELECTORS|
      invariant title == ""
      invariant SelectorTitle(e, TITLE_SELECTORS) == SelectorTitle(e, TITLE_SELECTORS[i..])
    {
      assert TITLE_SELECTORS[i..][0] == TITLE_SELECTORS[i];
      var titleElement := Query(e, TITLE_SELECTORS[i]);
      if titleElement.Some? && |Trim(titleElement.value.text)| > 5 {
        title := Trim(titleElement.value.text);
        break;
      }
      assert TITLE_SELECTORS[i..][1..] == TITLE_SELECTORS[i + 1..];
      i := i + 1;
    }
    if title == "" {
      assert TITLE_SELECTORS[i..] == [];
      var longest := FirstLongest(Admitted(TrimmedTexts(e)));
      title := if longest != "" then longest else FallbackTitle(keyword, index);
    }
  }

  // ---------------------------------------------------------------- author

  const AUTHOR_SELECTORS: seq<string> := [".author", ".user-name", "[data-testid=\"author\"]", ".username"]

  const UNKNOWN_AUTHOR := "未知用户"

  /** An author selector wins when its first match has non-empty text (before trimming). */
  predicate AuthorHit(e: Element, selector: string) {
    var n := Query(e, selector);
    n.Some? && n.value.text != ""
  }

  /** The trimmed text of the first winning author selector, or the unknown-user default. */
  function Author(e: Element, selectors: seq<string>): (author: string)
    ensures (forall k | 0 <= k < |selectors| :: !AuthorHit(e, selectors[k])) ==> author == UNKNOWN_AUTHOR
    ensures forall k | 0 <= k < |selectors| ::
              AuthorHit(e, selectors[k]) && (forall j | 0 <= j < k :: !AuthorHit(e, selectors[j]))
              ==> author == Trim(Query(e, selectors[k]).value.text)
  {
    if selectors == [] then UNKNOWN_AUTHOR
    else if AuthorHit(e, selectors[0]) then Trim(Query(e, selectors[0]).value.text)
    else
      assert forall k | 1 <= k < |selectors| :: selectors[k] == selectors[1..][k - 1];
      Author(e, selectors[1..])
  }

  /** The author selector loop. */
  method ResolveAuthor(e: Element) returns (author: string)
    ensures author == Author(e, AUTHOR_SELECTORS)
  {
    author := UNKNOWN_AUTHOR;
    var i := 0;
    while i < |AUTHOR_SELECTORS|
      invariant 0 <= i <= |AUTHOR_SELECTORS|
      invariant author == UNKNOWN_AUTHOR
      invariant Author(e, AUTHOR_SELECTORS) == Author(e, AUTHOR_SELECTORS[i..])
    {
      assert AUTHOR_SELECTORS[i..][0] == AUTHOR_SELECTORS[i];
      var authorElement := Query(e, AUTHOR_SELECTORS[i]);
      if authorElement.Some? && authorElement.value.text != "" {
        author := Trim(authorElement.value.text);
        break;
      }
      assert AUTHOR_SELECTORS[i..][1..] == AUTHOR_SELECTORS[i + 1..];
      i := i + 1;
    }
    if i == |AUTHOR_SELECTORS| {
      assert AUTHOR_SELECTORS[i..] == [];
    }
  }

  // ---------------------------------------------------------------- counters

  /** How the scan classifies a text: the view pattern first, the like pattern only when that fails. */
  predicate Classified(t: string, c: Counter) {
    match c
    case Views => Search(t, Views)
    case Likes => !Search(t, Views) && Search(t, Likes)
  }

  /** The position of the last fragment of class `c`, if any. */
  function LastIndex(texts: seq<string>, c: Counter): (r: Option<nat>)
    ensures r.None? <==> forall k | 0 <= k < |texts| :: !Classified(texts[k], c)
    ensures r.Some? ==> && r.value < |texts| && Classified(texts[r.value], c)
                        && forall j | r.value < j < |texts| :: !Classified(texts[j], c)
  {
    if texts == [] then None
    else if Classified(texts[|texts| - 1], c) then Some(|texts| - 1)
    else
      var front := texts[..|texts| - 1];
      assert forall k | 0 <= k < |front| :: front[k] == texts[k];
      LastIndex(front, c)
  }

  /**
   * What the scan leaves in a counter variable: `""` exactly when no fragment is of
   * its class, otherwise the trimmed text of the last fragment of its class.
   */
  function LastOfClass(texts: seq<string>, c: Counter): (r: string)
    ensures r == "" <==> forall k | 0 <= k < |texts| :: !Classified(texts[k], c)
    ensures r != "" ==> LastIndex(texts, c).Some? && r == Trim(texts[LastIndex(texts, c).value])
  {
    match LastIndex(texts, c)
    case None => ""
    case Some(k) =>
      MatchSurvivesTrim(texts[k], if c == Views then Views else Likes);
      Trim(texts[k])
  }

  /** One more fragment either takes over the counter, when it is of its class, or leaves it alone. */
  lemma LastOfClassStep(texts: seq<string>, i: nat, c: Counter)
    requires i < |texts|
    ensures LastOfClass(texts[..i + 1], c) ==
              if Classified(texts[i], c) then Trim(texts[i]) else LastOfClass(texts[..i], c)
  {
    assert texts[..i + 1][..i] == texts[..i];
    assert texts[..i + 1][i] == texts[i];
  }

  /** A view fragment is never taken as a like. */
  lemma ViewNeverLike(t: string)
    requires Search(t, Views)
    ensures !Classified(t, Likes)
  {
  }

  /** The `forEach` over the text-bearing descendants: the last fragment of each class wins. */
  method ScanCounters(texts: seq<string>) returns (viewCount: string, likeCount: string)
    ensures viewCount == LastOfClass(texts, Views)
    ensures likeCount == LastOfClass(texts, Likes)
  {
    viewCount, likeCount := "", "";
    for i := 0 to |texts|
      invariant viewCount == LastOfClass(texts[..i], Views)
      invariant likeCount == LastOfClass(texts[..i], Likes)
    {
      LastOfClassStep(texts, i, Views);
      LastOfClassStep(texts, i, Likes);
      var text := texts[i];
      if Search(text, Views) {
        viewCount := Trim(text);
      } else if Search(text, Likes) {
        likeCount := Trim(text);
      }
    }
    assert texts[..|texts|] == texts;
  }

  /** The fallback range of the real path: `Math.random() * span + base`. */
  function RealSpan(c: Counter): nat {
    match c
    case Views => 100000
    case Likes => 5000
  }

  function RealBase(c: Counter): nat {
    match c
    case Views => 1000
    case Likes => 100
  }

  /**
   * A counter of the item: the scanned fragment when there is one, else a synthetic
   * count (views from [1000, 100999], likes from [100, 5099]) rendered. Never empty.
   */
  function CounterOf(e: Element, c: Counter, u: real, fixed: Fixed): (s: string)
    requires 0.0 <= u < 1.0
    ensures s != ""
    ensures LastOfClass(Texts(e), c) != "" ==> s == LastOfClass(Texts(e), c)
    ensures LastOfClass(Texts(e), c) == "" ==>
              exists raw: nat :: RealBase(c) <= raw < RealBase(c) + RealSpan(c) && s == Render(raw, c, fixed)
  {
    var found := LastOfClass(Texts(e), c);
    if found != "" then found else Render(Draw(u, RealSpan(c), RealBase(c)), c, fixed)
  }

  // ---------------------------------------------------------------- emission

  /** The filter a title must pass for its element to yield an item. */
  predicate Acceptable(title: string) {
    && |title| > 5
    && !Includes(title, "undefined")
    && !Includes(title, "null")
    && !IsDigitsOrSpaces(title)
    && |title| < 200
  }

  /** The limit an emitted title is cut to. */
  const TITLE_LIMIT := 100

  /** What every emitted item satisfies. */
  predicate WellFormed(item: ScrapedData) {
    && 5 < |item.title| <= TITLE_LIMIT
    && !Includes(item.title, "undefined")
    && !Includes(item.title, "null")
    && item.viewCount != "" && item.likeCount != ""
    && (item.link == "#" || StartsWith(item.link, "http"))
  }

  /** The item an element yields, if its title passes the filter. */
  function ItemOf(e: Element, index: nat, keyword: string, roll: Roll, fixed: Fixed): (item: Option<ScrapedData>)
    requires roll.Valid()
    ensures item.Some? <==> Acceptable(Title(e, keyword, index))
    ensures item.Some? ==> item.value.title == Prefix(Title(e, keyword, index), TITLE_LIMIT) && WellFormed(item.value)
    ensures item.Some? ==>
              && item.value.author == Author(e, AUTHOR_SELECTORS)
              && item.value.viewCount == CounterOf(e, Views, roll.views, fixed)
              && item.value.likeCount == CounterOf(e, Likes, roll.likes, fixed)
              && item.value.link == ResolveLink(e)
              && item.value.thumbnail == Thumbnail(e)
  {
    var title := Title(e, keyword, index);
    CutTitleKeepsFilter(title);
    if Acceptable(title) then
      Some(ScrapedData(
        Prefix(title, TITLE_LIMIT),
        Author(e, AUTHOR_SELECTORS),
        CounterOf(e, Views, roll.views, fixed),
        CounterOf(e, Likes, roll.likes, fixed),
        ResolveLink(e),
        Thumbnail(e)))
    else None
  }

  /** Cutting an accepted title keeps it longer than five characters and free of the sentinel tokens. */
  lemma CutTitleKeepsFilter(title: string)
    ensures Acceptable(title) ==>
              var cut := Prefix(title, TITLE_LIMIT);
              5 < |cut| <= TITLE_LIMIT && !Includes(cut, "undefined") && !Includes(cut, "null")
  {
    var cut := Prefix(title, TITLE_LIMIT);
    if Acceptable(title) && |title| > TITLE_LIMIT {
      assert cut == title[..TITLE_LIMIT];
      if Includes(cut, "undefined") { IncludesPrefix(title, "undefined", TITLE_LIMIT); }
      if Includes(cut, "null") { IncludesPrefix(title, "null", TITLE_LIMIT); }
    }
  }

  /**
   * The filter runs before the cut, so an accepted title can be cut down to digits
   * only: one hundred digits followed by letters.
   */
  lemma CutTitleMayBeDigits()
    ensures exists title :: Acceptable(title) && IsDigitsOrSpaces(Prefix(title, TITLE_LIMIT))
  {
    var digits := seq(TITLE_LIMIT, _ => '1');
    var title := digits + "abc";
    assert Prefix(title, TITLE_LIMIT) == digits;
    assert !IsDigitsOrSpaces(title) by {
      assert !IsDigit(title[TITLE_LIMIT]) && !IsSpace(title[TITLE_LIMIT]);
    }
    FirstCharAbsent(title, "undefined");
    FirstCharAbsent(title, "null");
  }

  /** The per-element body of the `forEach`, statement by statement. */
  method ExtractItem(e: Element, index: nat, keyword: string, roll: Roll, fixed: Fixed)
    returns (item: Option<ScrapedData>)
    requires roll.Valid()
    ensures item == ItemOf(e, index, keyword, roll, fixed)
    ensures item.Some? ==> WellFormed(item.value)
  {
    var link := ResolveLink(e);
    var title := SelectTitle(e, keyword, index);
    var author := ResolveAuthor(e);
    var viewCount, likeCount := ScanCounters(Texts(e));
    if viewCount == "" {
      viewCount := Render(Draw(roll.views, RealSpan(Views), RealBase(Views)), Views, fixed);
    }
    if likeCount == "" {
      likeCount := Render(Draw(roll.likes, RealSpan(Likes), RealBase(Likes)), Likes, fixed);
    }
    var thumbnail := Thumbnail(e);
    if Acceptable(title) {
      item := Some(ScrapedData(Prefix(title, TITLE_LIMIT), author, viewCount, likeCount, link, thumbnail));
    } else {
      item := None;
    }
  }
}
