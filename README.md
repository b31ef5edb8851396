# xiaohongshu-scraper: the scrape endpoint, modelled in Dafny

The repository is a small Next.js application. When a user searches Xiaohongshu
by keyword, its `POST /api/scrape` handler answers with up to ten "notes". Each
note has a title, author, view count, like count, link and thumbnail. In
development the handler drives a headless browser. It then runs an extraction
callback on the loaded search-result page. If the scrape fails or yields nothing,
it uses a generator of synthetic notes; in production it uses only that generator.

This project models the result-shaping logic of that handler. It covers:

- the mock generator;
- counter synthesis and formatting;
- the element cascade that picks candidate note elements;
- extraction of each field of one element, and the title filter;
- the loop that collects accepted items;
- the request policy, including the cut to ten items.

The browser is replaced by its outcome: a loaded page or the error that ended
the session. The page is abstract. It is a map from selector to the elements that
selector matches. Each element has its text content, a map from selector to the
descendant nodes that selector matches, and its closest enclosing anchor. A node is
its text and its attributes. Random draws, the run environment and the one-decimal
formatting of `toFixed(1)` are parameters.

Modules, in dependency order:

- `Wrappers`: `Option`.
- `Seqs`: `filter`, with the positions it keeps.
- `Text`: JavaScript white space and `trim`, `includes`, `startsWith`, the regular expressions `^\d+$` and `^[\d\s]+$`, and decimal rendering with its read-back.
- `Counters`: the draw `Math.floor(Math.random() * span) + base`, the rendering `万浏览` / `浏览` and `k点赞` / `点赞`, and the two scan patterns. Each pattern has a declarative regular-expression meaning and a scanner proved to decide it.
- `Dom`: the abstract page, element and node.
- `Items`: the `ScrapedData` record and the site origin.
- `Mock`: `generateMockData`.
- `Cascade`: the note-selector cascade, the structural `div` filter and the cap at fifteen.
- `Fields`: link, thumbnail, title, author and counters of one element, the acceptance filter and the truncated title.
- `Extraction`: the whole callback, collecting accepted items in candidate order.
- `Route`: `scrapeRealData` reduced to its outcome, and `POST`.

The source is TypeScript. Loops that reassign variables are methods, each proved
equal to a specification function. The per-element `forEach`, the selector loops
with `break`, the counter scan and the handler's branches are written this way. The
map over the mock templates and the conditional formatting expressions are
functions.

Some behaviours of the code differ from what its own checks suggest is intended. The model follows the code:

- The acceptance filter runs before the title is cut to one hundred characters. An emitted title can therefore consist only of digits (`Fields.CutTitleMayBeDigits`).
- An author element whose text is only white space gives the empty author, not the default `未知用户`. The author test looks at the untrimmed text, and the trimmed text is what is kept.
- An `href` that does not start with `http` has the origin put directly in front of it, whether or not it starts with `/`.
- The note of a successful development scrape counts the items before the cut to ten, so it may say more than ten.
- The real-path fallback counters come from [1000, 100999] for views and [100, 5099] for likes. The mock path uses [5000, 104999] and [500, 10499].

## Model

| member | source | states |
|---|---|---|
| Counters.ScaledBelow | src/app/api/scrape/route.ts:47-48 | the whole part of a draw in [0, 1) times a positive span lies in [0, span) |
| Counters.Draw | src/app/api/scrape/route.ts:47-48 | `Math.floor(u * span) + base` with `u` in [0, 1) is at least `base` and below `base + span` |
| Counters.ScaledIffAboveThreshold | src/app/api/scrape/route.ts:53-54 | a rendered count ends in `万浏览` (views) or `k点赞` (likes) exactly when the raw count is strictly above 10000 or 1000 |
| Counters.PlainReadsBack | src/app/api/scrape/route.ts:53-54 | at or below the threshold the string is the count's own decimal digits followed by `浏览` or `点赞`, and those digits read back as the count |
| Counters.Render | src/app/api/scrape/route.ts:238 | a rendered count is longer than its unit label, so it is never empty |
| Counters.SearchIsMatch | src/app/api/scrape/route.ts:228-230 | the left-to-right scanner holds exactly when the pattern `\d+[w万k千]?[\s]*[class]` (case-insensitive) matches somewhere in the text |
| Counters.MatchSurvivesTrim | src/app/api/scrape/route.ts:228-231 | a fragment either pattern recognises contains a digit, so its trimmed text is never empty |
| Text.Includes | src/app/api/scrape/route.ts:263-264 | `includes` holds exactly when the needle occurs at some position of the text |
| Text.TrimPieces | src/app/api/scrape/route.ts:193-194 | the back-trimmed front is the piece of the text between its leading and its trailing white space, and is empty only when the front was |
| Text.Trim | src/app/api/scrape/route.ts:193-194 | `trim` yields the piece of the text with only white space before and after it and none at either of its ends; it is empty exactly when the text is all white space |
| Text.DecimalRoundTrip | src/app/api/scrape/route.ts:53 | the decimal rendering of a count is all digits and reads back as the count |
| Text.DecimalInjective | src/app/api/scrape/route.ts:55 | different counts render differently |
| Mock.MockItem | src/app/api/scrape/route.ts:14-57 | item `i` has author `i`, thumbnail `i` and link `…/explore/mock-(i+1)`; its title is template `i` with the keyword spliced between its two halves, so it contains the keyword; views are rendered from [5000, 104999] and likes from [500, 10499] |
| Mock.MockData | src/app/api/scrape/route.ts:13-58 | exactly ten items, each with the properties of its index above |
| Mock.MockLinksDistinct | src/app/api/scrape/route.ts:55 | no two mock items share a link |
| Seqs.Kept | src/app/api/scrape/route.ts:160-165 | the positions kept by a filter are ascending and are exactly the positions whose element passes the test |
| Seqs.Filter | src/app/api/scrape/route.ts:160-165 | the `p`-th element of a filtered sequence is the element at the `p`-th kept position, so order and repetitions are kept |
| Seqs.KeptAtMost | src/app/api/scrape/route.ts:160 | a filter keeps no more elements than it is given |
| Seqs.FilterMembers | src/app/api/scrape/route.ts:203 | an element is in the filtered sequence exactly when it is in the input and passes the test |
| Cascade.Cards | src/app/api/scrape/route.ts:160-165 | the structural filter keeps, in document order, exactly the divs with an image, a text-bearing descendant, an anchor in or around them and text longer than ten characters; the `p`-th card is the div at the `p`-th card position |
| Cascade.FirstNonEmptyIsFirstHit | src/app/api/scrape/route.ts:152-156 | the match list of the first selector that matches anything is the result, whatever later selectors find |
| Cascade.FirstNonEmptyEmpty | src/app/api/scrape/route.ts:152-159 | the selector loop ends empty exactly when every selector matches nothing |
| Cascade.LocatedCases | src/app/api/scrape/route.ts:150-167 | the cascade takes the first non-empty selector's list, and takes the structural filter only when all eight selectors are empty |
| Cascade.FindCandidates | src/app/api/scrape/route.ts:150-169 | at most fifteen candidates, a prefix of what the cascade located in document order, all of it when it has fewer than fifteen |
| Fields.ResolveLink | src/app/api/scrape/route.ts:175-182 | the link is `#` exactly when there is no anchor or no non-empty `href`; an `href` starting with `http` is kept; any other gets the origin in front; every link is `#` or starts with `http` |
| Fields.FirstValue | src/app/api/scrape/route.ts:250-252 | the value of the first of the attributes that is present and non-empty, or `""` when none is |
| Fields.NormalizeUrl | src/app/api/scrape/route.ts:254-258 | `//x` becomes `https://x`; `/x` not starting with `//` gets the origin in front; anything else, the empty string included, is unchanged |
| Fields.NormalizeIdempotent | src/app/api/scrape/route.ts:254-258 | normalising a normalised thumbnail changes nothing |
| Fields.Thumbnail | src/app/api/scrape/route.ts:247-259 | empty without an image, otherwise the normalised first usable source among `src`, `data-src`, `data-lazy-src` |
| Fields.SelectorTitle | src/app/api/scrape/route.ts:190-197 | the selector loop finds no title exactly when no selector's first match has trimmed text longer than five; a found title is longer than five |
| Fields.SelectorTitleFirstHit | src/app/api/scrape/route.ts:191-196 | the first selector whose first match passes the length test gives the title |
| Fields.TrimmedTexts | src/app/api/scrape/route.ts:201-202 | one trimmed text per text-bearing descendant, in document order |
| Fields.Admitted | src/app/api/scrape/route.ts:203 | the kept fragments are, in document order, exactly the fragments longer than five and shorter than a hundred that are not all digits; the `p`-th kept fragment is the text at the `p`-th kept position |
| Fields.FirstLongest | src/app/api/scrape/route.ts:204-206 | the head of the stable descending sort by length: no fragment is longer, and every fragment before it is shorter |
| Fields.FirstLongestIsLongest | src/app/api/scrape/route.ts:204-206 | the head of a non-empty list of fragments is one of them and at least as long as each |
| Fields.Title | src/app/api/scrape/route.ts:185-207 | every chosen title is longer than five characters |
| Fields.TitleBySelector | src/app/api/scrape/route.ts:191-196 | when a title selector wins, the title is the first winner's trimmed text |
| Fields.TitleByFragment | src/app/api/scrape/route.ts:200-206 | when no selector wins and a fragment is admissible, the title is an admissible fragment at least as long as every other |
| Fields.TitleByFallback | src/app/api/scrape/route.ts:206 | when no selector wins and no fragment is admissible, the title is `${keyword}相关内容 ${index+1}` |
| Fields.SelectTitle | src/app/api/scrape/route.ts:190-207 | the loop with `break` and its fallbacks compute the title cascade |
| Fields.Author | src/app/api/scrape/route.ts:210-219 | `未知用户` when no author selector's first match has text; otherwise the trimmed text of the first one that does |
| Fields.ResolveAuthor | src/app/api/scrape/route.ts:211-219 | the author loop with `break` computes that author |
| Fields.LastIndex | src/app/api/scrape/route.ts:226-233 | no position exactly when no fragment is of the class; otherwise a fragment of the class with none of the class after it |
| Fields.LastOfClassStep | src/app/api/scrape/route.ts:228-232 | each further fragment of the class overwrites the counter, and any other fragment leaves it alone |
| Fields.LastOfClass | src/app/api/scrape/route.ts:226-233 | a counter stays empty exactly when no fragment is of its class; otherwise it is the trimmed text of the last fragment of its class |
| Fields.ViewNeverLike | src/app/api/scrape/route.ts:228-231 | a fragment matching the view pattern is never taken as a like |
| Fields.ScanCounters | src/app/api/scrape/route.ts:222-233 | the `forEach` that overwrites the counters leaves in each the last fragment of its class |
| Fields.CounterOf | src/app/api/scrape/route.ts:236-244 | a counter is never empty: the scanned fragment when there is one, else a count from [1000, 100999] for views or [100, 5099] for likes, rendered |
| Fields.CutTitleKeepsFilter | src/app/api/scrape/route.ts:262-269 | cutting an accepted title to a hundred characters keeps it longer than five and free of `undefined` and `null` |
| Fields.CutTitleMayBeDigits | src/app/api/scrape/route.ts:265-269 | some accepted title becomes all digits once cut to a hundred characters |
| Fields.ItemOf | src/app/api/scrape/route.ts:172-277 | an element yields an item exactly when its title passes the filter; the item's title is the title's first hundred characters, its author, counters, link and thumbnail are those of the author cascade, the counter rule, the link rule and the thumbnail rule, and the item is well formed |
| Fields.ExtractItem | src/app/api/scrape/route.ts:173-277 | the per-element body, statement by statement, yields that item |
| Extraction.Outcomes | src/app/api/scrape/route.ts:172-281 | candidate `i` yields its own item, with index `i` and draws `i`, and every yielded item is well formed |
| Extraction.PresentAt | src/app/api/scrape/route.ts:172-276 | the positions that yield an item, ascending, and exactly those |
| Extraction.PresentInOrder | src/app/api/scrape/route.ts:268-275 | the pushed items are the items of the yielding positions, one for one and in order |
| Extraction.ScrapedInOrder | src/app/api/scrape/route.ts:172-284 | the items keep candidate order, and a candidate contributes exactly when its title passes the filter |
| Extraction.Extract | src/app/api/scrape/route.ts:135-285 | the callback returns the page's accepted items, at most fifteen of them, each well formed |
| Route.ScrapeRealData | src/app/api/scrape/route.ts:62-294 | a crashed session throws its error; a loaded one returns the callback's items |
| Route.Post | src/app/api/scrape/route.ts:296-345 | see below |

`Route.Post` states each of the following:

- An empty keyword is rejected with status 400 and `搜索关键词不能为空`; this is the only rejection.
- A response has at most ten items, and `total` is their number.
- The keyword is echoed, and the environment is named.
- Production returns the ten mock items with the production note.
- Development returns the scraped items cut to ten, with a note counting them, exactly when the page loaded and yielded at least one item.
- Otherwise development returns the ten mock items with the fallback note.

## Left out

- Browser automation is left out: launching, user agent, viewport, `goto` with its timeout, the search-input loop, typing, the settling delays, scrolling and closing. `Route.ScrapeRealData` takes their outcome as a `Session`, either the loaded page or the error that stopped it. A missing search input is one such error.
- The model has no CSS selector engine and no real `querySelectorAll`, `closest` or `textContent`. A selector is a key into the lists the page and element are given. `'span, p, div'` and `'span, div, p'` select the same nodes in the same order, so they share one key.
- `Math.random` is left out. Each call becomes a real in [0, 1) in a `Roll`, one pair per item.
- `Fields.CounterOf`, `Mock.MockItem`: the exact digits of `toFixed(1)` are not modelled. They follow binary floating point, so the one-decimal value is the parameter `fixed`. The contracts say which branch and unit are chosen, not the digits before the unit.
- Lengths and slices count code points, whereas JavaScript counts UTF-16 units. For text outside the Basic Multilingual Plane, the `> 5`, `< 100`, `< 200` and `slice(0, 100)` tests can differ.
- The per-element `try`/`catch` is left out. Nothing in the modelled extraction throws once the page is abstract.
- `console` logging is not modelled, and neither are the `NextRequest`/`NextResponse` JSON plumbing, the `success: true` field and `process.env`. The development flag is the boolean `isLocal`.
- The handler's outer `catch` is not modelled. It runs when reading `keyword` from the body throws, as for a body that is not JSON or is the JSON `null`, and answers with at most ten mock items under a fixed keyword.
- Only string keywords are modelled, so "falsy" means the empty string.
- `maxDuration` is not modelled. The page component `src/app/page.tsx` is not part of this model.
