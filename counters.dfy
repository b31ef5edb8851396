/**
 * Engagement counters: the synthetic draw of a raw count, its rendering as a display
 * string with a magnitude unit, and the unit-aware patterns that recognise a counter
 * fragment on the page.
 */
module Counters {
  import opened Text

  /** The two counters every item carries. */
  datatype Counter = Views | Likes {

    /** The divisor of the scaled form, which is also the strict threshold above which it is used. */
    function Scale(): nat {
      match this
      case Views => 10000
      case Likes => 1000
    }

    /** What follows the one-decimal scaled value: ten-thousands of views, thousands of likes. */
    function ScaledSuffix(): string {
      match this
      case Views => "万浏览"
      case Likes => "k点赞"
    }

    /** What follows a raw count that is not scaled. */
    function Label(): string {
      match this
      case Views => "浏览"
      case Likes => "点赞"
    }

    /**
     * The character class that closes the scan pattern: `[浏览次观看]` for views and
     * `[点赞❤️👍]` for likes. The second is a non-unicode JavaScript class, so it holds
     * the UTF-16 halves of 👍; right after a digit or a space only its high half
     * U+D83D can match, and that is the first half of every code point U+1F400..U+1F7FF.
     */
    predicate IsKeyword(c: char) {
      match this
      case Views => c == '浏' || c == '览' || c == '次' || c == '观' || c == '看'
      case Likes => c == '点' || c == '赞' || c == '\U{2764}' || c == '\U{FE0F}'
                    || ('\U{1F400}' <= c <= '\U{1F7FF}')
    }
  }

  /**
   * `(raw / divisor).toFixed(1)`: the one-decimal rendering of a quotient, given by the
   * caller because its digits follow binary floating point.
   */
  type Fixed = (nat, nat) -> string

  /** Two draws of `Math.random()`, one for each counter of one item. */
  datatype Roll = Roll(views: real, likes: real) {
    predicate Valid() {
      0.0 <= views < 1.0 && 0.0 <= likes < 1.0
    }
  }

  /** Every pair of draws is a pair of `Math.random()` results. */
  predicate ValidRolls(rolls: seq<Roll>) {
    forall k | 0 <= k < |rolls| :: rolls[k].Valid()
  }

  /** A draw in [0, 1) scales a positive span to a whole part in [0, span). */
  lemma ScaledBelow(u: real, span: nat)
    requires 0.0 <= u < 1.0 && span > 0
    ensures 0 <= (u * span as real).Floor < span
  {
    var x := span as real;
    var scaled := u * x;
    assert x - scaled == (1.0 - u) * x;
    assert 0.0 <= scaled < x;
    assert scaled.Floor as real <= scaled;
  }

  /** `Math.floor(u * span) + base` for a draw `u` of `Math.random()`. */
  function Draw(u: real, span: nat, base: nat): (r: nat)
    requires 0.0 <= u < 1.0
    requires span > 0
    ensures base <= r < base + span
  {
    ScaledBelow(u, span);
    (u * span as real).Floor + base
  }

  /** The display string of a raw count: scaled with its unit above the threshold, the raw digits otherwise. */
  function Render(raw: nat, c: Counter, fixed: Fixed): (s: string)
    ensures |s| > |c.Label()|
  {
    if raw > c.Scale() then fixed(raw, c.Scale()) + c.ScaledSuffix() else Decimal(raw) + c.Label()
  }

  /** The scaled unit is chosen exactly when the raw count is strictly above the threshold. */
  lemma ScaledIffAboveThreshold(raw: nat, c: Counter, fixed: Fixed)
    ensures EndsWith(Render(raw, c, fixed), c.ScaledSuffix()) <==> raw > c.Scale()
  {
    var s := Render(raw, c, fixed);
    if raw <= c.Scale() {
      var d := Decimal(raw);
      assert s[|s| - 3] == d[|d| - 1];
      assert IsDigit(s[|s| - 3]);
      assert !IsDigit(c.ScaledSuffix()[0]);
    }
  }

  /** A count at or below the threshold is shown as its own decimal digits, which read back as the count. */
  lemma PlainReadsBack(raw: nat, c: Counter, fixed: Fixed)
    requires raw <= c.Scale()
    ensures var s := Render(raw, c, fixed);
            var n := |s| - |c.Label()|;
            s[n..] == c.Label() && IsDigits(s[..n]) && DecimalValue(s[..n]) == raw
  {
    var s := Render(raw, c, fixed);
    assert s[..|s| - |c.Label()|] == Decimal(raw);
    DecimalRoundTrip(raw);
  }

  /** `[w万k千]` under the `i` flag. */
  predicate IsMagnitude(c: char) {
    c == 'w' || c == 'W' || c == 'k' || c == 'K' || c == '万' || c == '千'
  }

  /**
   * One match of `/\d+[w万k千]?[\s]*K/i` (K the counter's keyword class): the digits
   * `s[a..b]`, an optional magnitude `s[b..d]`, white space `s[d..e]`, the keyword `s[e]`.
   */
  ghost predicate MatchAt(s: string, c: Counter, a: nat, b: nat, d: nat, e: nat) {
    a < b <= d <= e < |s| && d - b <= 1
    && (forall k | a <= k < b :: IsDigit(s[k]))
    && (forall k | b <= k < d :: IsMagnitude(s[k]))
    && (forall k | d <= k < e :: IsSpace(s[k]))
    && c.IsKeyword(s[e])
  }

  /** `text.match(pattern)` is truthy: the pattern matches somewhere in the text. */
  ghost predicate Matches(s: string, c: Counter) {
    exists a: nat, b: nat, d: nat, e: nat :: MatchAt(s, c, a, b, d, e)
  }

  /** The first position at or after `q` that is not white space. */
  function SkipSpaces(s: string, q: nat): (r: nat)
    requires q <= |s|
    ensures q <= r <= |s|
    ensures forall k | q <= k < r :: IsSpace(s[k])
    ensures r == |s| || !IsSpace(s[r])
    decreases |s| - q
  {
    if q < |s| && IsSpace(s[q]) then SkipSpaces(s, q + 1) else q
  }

  /** After a digit ending at `q`: an optional magnitude, white space, then the keyword. */
  predicate TailAt(s: string, c: Counter, q: nat)
    requires q <= |s|
  {
    var d := if q < |s| && IsMagnitude(s[q]) then q + 1 else q;
    var e := SkipSpaces(s, d);
    e < |s| && c.IsKeyword(s[e])
  }

  /** Some digit at or after `p` is followed by a tail of the pattern. */
  predicate FoundFrom(s: string, c: Counter, p: nat)
    requires p <= |s|
    decreases |s| - p
  {
    p < |s| && ((IsDigit(s[p]) && TailAt(s, c, p + 1)) || FoundFrom(s, c, p + 1))
  }

  /** The scan pattern of counter `c` occurs in `s`. */
  predicate Search(s: string, c: Counter) {
    FoundFrom(s, c, 0)
  }

  lemma {:induction false} FoundFromIsMatch(s: string, c: Counter, p: nat)
    requires p <= |s| && FoundFrom(s, c, p)
    ensures Matches(s, c)
    decreases |s| - p
  {
    if IsDigit(s[p]) && TailAt(s, c, p + 1) {
      var q := p + 1;
      var d := if q < |s| && IsMagnitude(s[q]) then q + 1 else q;
      var e := SkipSpaces(s, d);
      assert MatchAt(s, c, p, q, d, e);
    } else {
      FoundFromIsMatch(s, c, p + 1);
    }
  }

  lemma {:induction false} FoundFromEarlier(s: string, c: Counter, q: nat, p: nat)
    requires q <= p <= |s| && FoundFrom(s, c, p)
    ensures FoundFrom(s, c, q)
    decreases p - q
  {
    if q < p {
      FoundFromEarlier(s, c, q + 1, p);
    }
  }

  /** The deterministic scan decides the regular expression: no backtracking is ever needed. */
  lemma SearchIsMatch(s: string, c: Counter)
    ensures Search(s, c) <==> Matches(s, c)
  {
    if Search(s, c) {
      FoundFromIsMatch(s, c, 0);
    }
    if Matches(s, c) {
      var a: nat, b: nat, d: nat, e: nat :| MatchAt(s, c, a, b, d, e);
      // the last digit of the run is followed by the magnitude, if any, and nothing else
      var d' := if b < |s| && IsMagnitude(s[b]) then b + 1 else b;
      assert d' == d;
      var e' := SkipSpaces(s, d);
      assert e' == e;
      assert TailAt(s, c, b);
      assert FoundFrom(s, c, b - 1);
      FoundFromEarlier(s, c, 0, b - 1);
    }
  }

  /** A fragment the pattern recognises keeps a digit after trimming, so it is never trimmed away. */
  lemma MatchSurvivesTrim(s: string, c: Counter)
    requires Search(s, c)
    ensures Trim(s) != []
  {
    SearchIsMatch(s, c);
    var a: nat, b: nat, d: nat, e: nat :| MatchAt(s, c, a, b, d, e);
    assert !IsSpace(s[a]);
  }
}
