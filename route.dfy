/**
 * `POST /api/scrape`: reject an empty keyword, then either scrape (development) with
 * the mock generator as fallback, or go straight to the mock generator; cut the
 * result to ten items and report it.
 */
module Route {
  import opened Text
  import opened Counters
  import opened Items
  import opened Dom
  import opened Cascade
  import opened Mock
  import opened Extraction

  /** What the browser session delivered: the search-result page, or the error that ended it before extraction. */
  datatype Session = Loaded(page: Document) | Crashed(reason: string)

  /** How `scrapeRealData` ends: with its notes, or with the error it throws. */
  datatype ScrapeOutcome = Notes(items: seq<ScrapedData>) | Thrown(message: string)

  /** The JSON body and status of the response. */
  datatype Response =
    | Rejected(status: nat, error: string)
    | Succeeded(data: seq<ScrapedData>, total: nat, keyword: string, note: string, environment: string)

  const BAD_REQUEST := 400
  const EMPTY_KEYWORD_ERROR := "搜索关键词不能为空"
  const EMPTY_SCRAPE_ERROR := "未获取到有效数据"

  /** At most this many items go into a response. */
  const RESPONSE_LIMIT := 10

  function LocalSuccessNote(n: nat): string {
    "本地环境成功抓取到 " + Decimal(n) + " 条真实数据"
  }

  function LocalFallbackNote(n: nat): string {
    "本地环境真实抓取失败，展示高质量模拟数据 (" + Decimal(n) + "条)"
  }

  function ProductionNote(n: nat): string {
    "生产环境展示高质量模拟数据 (" + Decimal(n) + "条) - 本地开发可获取真实数据"
  }

  function EnvironmentName(isLocal: bool): string {
    if isLocal then "local" else "production"
  }

  /** `scrapeRealData`: the page's items when the session got that far, its error otherwise. */
  method ScrapeRealData(keyword: string, session: Session, rolls: seq<Roll>, fixed: Fixed) returns (outcome: ScrapeOutcome)
    requires |rolls| >= MAX_CANDIDATES && ValidRolls(rolls)
    ensures session.Crashed? ==> outcome == Thrown(session.reason)
    ensures session.Loaded? ==> outcome == Notes(Scraped(session.page, keyword, rolls, fixed))
    ensures outcome.Notes? ==> |outcome.items| <= MAX_CANDIDATES
  {
    match session
    case Crashed(reason) =>
      outcome := Thrown(reason);
    case Loaded(page) =>
      var notes := Extract(page, keyword, rolls, fixed);
      outcome := Notes(notes);
  }

  /**
   * The handler. A development run keeps the scraped items exactly when the session
   * loaded the page and the page yielded at least one item; an empty result is thrown
   * and caught like any other error, so both fall back to the mock data with the same
   * note. The note counts the items before the cut to ten.
   */
  method Post(keyword: string, isLocal: bool, session: Session,
              scrapeRolls: seq<Roll>, mockRolls: seq<Roll>, fixed: Fixed)
    returns (response: Response)
    requires |scrapeRolls| >= MAX_CANDIDATES && ValidRolls(scrapeRolls)
    requires |mockRolls| >= MOCK_COUNT && ValidRolls(mockRolls)
    ensures response.Rejected? <==> keyword == ""
    ensures response.Rejected? ==> response == Rejected(BAD_REQUEST, EMPTY_KEYWORD_ERROR)
    ensures response.Succeeded? ==>
              && |response.data| <= RESPONSE_LIMIT
              && response.total == |response.data|
              && response.keyword == keyword
              && response.environment == EnvironmentName(isLocal)
    ensures keyword != "" && !isLocal ==>
              && response.data == MockData(keyword, mockRolls, fixed)
              && |response.data| == RESPONSE_LIMIT
              && response.note == ProductionNote(MOCK_COUNT)
    ensures keyword != "" && isLocal ==>
              var live := session.Loaded? && Scraped(session.page, keyword, scrapeRolls, fixed) != [];
              && (live ==>
                    var items := Scraped(session.page, keyword, scrapeRolls, fixed);
                    response.data == Prefix(items, RESPONSE_LIMIT) && response.note == LocalSuccessNote(|items|))
              && (!live ==>
                    && response.data == MockData(keyword, mockRolls, fixed)
                    && |response.data| == RESPONSE_LIMIT
                    && response.note == LocalFallbackNote(MOCK_COUNT))
  {
    if keyword == "" {
      return Rejected(BAD_REQUEST, EMPTY_KEYWORD_ERROR);
    }
    var data: seq<ScrapedData> := [];
    var note := "";
    if isLocal {
      var outcome := ScrapeRealData(keyword, session, scrapeRolls, fixed);
      // the empty result is thrown as EMPTY_SCRAPE_ERROR and lands in the same catch
      if outcome.Notes? && |outcome.items| > 0 {
        data := outcome.items;
        note := LocalSuccessNote(|data|);
      } else {
        data := MockData(keyword, mockRolls, fixed);
        note := LocalFallbackNote(|data|);
      }
    } else {
      data := MockData(keyword, mockRolls, fixed);
      note := ProductionNote(|data|);
    }
    var validNotes := Prefix(data, RESPONSE_LIMIT);
    response := Succeeded(validNotes, |validNotes|, keyword, note, EnvironmentName(isLocal));
  }
}
