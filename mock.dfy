/** `generateMockData`: ten synthetic notes built from fixed, index-paired banks. */
module Mock {
  import opened Text
  import opened Counters
  import opened Items

  /** The ten title templates, each the text before and after the keyword. */
  const TITLE_TEMPLATES: seq<(string, string)> := [
    ("", "赚钱的10个渠道，每个都能月入过万"),
    ("在家就能做的5种", "，学生党宝妈都适合"),
    ("我的", "一年赚了20万，分享经验给大家"),
    ("零成本", "项目，新手也能日赚300+"),
    ("", "做什么最赚钱？这5个项目值得试试"),
    ("", "兼职推荐，适合上班族的赚钱方法"),
    ("手机就能做的", "，每天2小时月入5000"),
    ("大学生", "指南，从0到月入过万的经历"),
    ("宝妈在家", "，带娃赚钱两不误"),
    ("", "变主业，我是如何实现财务自由的")
  ]

  const AUTHORS: seq<string> := [
    "创业小达人", "副业达人Jane", "财富自由小姐姐", "副业教练Lisa",
    "赚钱小能手", "职场副业王", "手机赚钱达人", "大学生创业者",
    "宝妈创业小组", "财务自由达人"
  ]

  const THUMBNAILS: seq<string> := [
    "https://images.unsplash.com/photo-1556742049-0cfed4f6a45d?w=300&h=200&fit=crop",
    "https://images.unsplash.com/photo-1563013544-824ae1b704d3?w=300&h=200&fit=crop",
    "https://images.unsplash.com/photo-1534951009808-766178b47a4f?w=300&h=200&fit=crop",
    "https://images.unsplash.com/photo-1522202176988-66273c2fd55f?w=300&h=200&fit=crop",
    "https://images.unsplash.com/photo-1560472355-536de3962603?w=300&h=200&fit=crop",
    "https://images.unsplash.com/photo-1551836022-deb4988cc6c0?w=300&h=200&fit=crop",
    "https://images.unsplash.com/photo-1512941937669-90a1b58e7e9c?w=300&h=200&fit=crop",
    "https://images.unsplash.com/photo-1517077304055-6e89abbf09b0?w=300&h=200&fit=crop",
    "https://images.unsplash.com/photo-1573496359142-b8d87734a5a2?w=300&h=200&fit=crop",
    "https://images.unsplash.com/photo-1554224155-6726b3ff858f?w=300&h=200&fit=crop"
  ]

  /** How many notes the generator produces. */
  const MOCK_COUNT := 10

  /** The link of the mock note at `index`: its one-based number under the explore path. */
  function MockLink(index: nat): string {
    ORIGIN + "/explore/mock-" + Decimal(index + 1)
  }

  /** The mock note at `index` of the banks, with the keyword spliced into its title template. */
  function MockItem(keyword: string, index: nat, roll: Roll, fixed: Fixed): (item: ScrapedData)
    requires index < MOCK_COUNT && roll.Valid()
    ensures item.author == AUTHORS[index] && item.thumbnail == THUMBNAILS[index]
    ensures item.link == MockLink(index)
    ensures item.title == TITLE_TEMPLATES[index].0 + keyword + TITLE_TEMPLATES[index].1
    ensures Includes(item.title, keyword)
    ensures exists v: nat :: 5000 <= v <= 104999 && item.viewCount == Render(v, Views, fixed)
    ensures exists l: nat :: 500 <= l <= 10499 && item.likeCount == Render(l, Likes, fixed)
  {
    var (before, after) := TITLE_TEMPLATES[index];
    IncludesSpliced(before, keyword, after);
    var views := Draw(roll.views, 100000, 5000);
    var likes := Draw(roll.likes, 10000, 500);
    ScrapedData(
      before + keyword + after,
      AUTHORS[index],
      Render(views, Views, fixed),
      Render(likes, Likes, fixed),
      MockLink(index),
      THUMBNAILS[index])
  }

  /** `generateMockData(keyword)`: the ten banks zipped by index, counters drawn from `rolls`. */
  function MockData(keyword: string, rolls: seq<Roll>, fixed: Fixed): (data: seq<ScrapedData>)
    requires |rolls| >= MOCK_COUNT && ValidRolls(rolls)
    ensures |data| == MOCK_COUNT
    ensures forall i | 0 <= i < MOCK_COUNT ::
      && data[i].author == AUTHORS[i] && data[i].thumbnail == THUMBNAILS[i]
      && data[i].link == ORIGIN + "/explore/mock-" + Decimal(i + 1)
      && data[i].title == TITLE_TEMPLATES[i].0 + keyword + TITLE_TEMPLATES[i].1
      && Includes(data[i].title, keyword)
      && (exists v: nat :: 5000 <= v <= 104999 && data[i].viewCount == Render(v, Views, fixed))
      && (exists l: nat :: 500 <= l <= 10499 && data[i].likeCount == Render(l, Likes, fixed))
  {
    seq(MOCK_COUNT, i requires 0 <= i < MOCK_COUNT => MockItem(keyword, i, rolls[i], fixed))
  }

  /** No two mock notes share a link. */
  lemma MockLinksDistinct(keyword: string, rolls: seq<Roll>, fixed: Fixed, i: nat, j: nat)
    requires |rolls| >= MOCK_COUNT && ValidRolls(rolls)
    requires i < MOCK_COUNT && j < MOCK_COUNT && i != j
    ensures MockData(keyword, rolls, fixed)[i].link != MockData(keyword, rolls, fixed)[j].link
  {
    var prefix := ORIGIN + "/explore/mock-";
    if MockLink(i) == MockLink(j) {
      assert Decimal(i + 1) == MockLink(i)[|prefix|..];
      assert Decimal(j + 1) == MockLink(j)[|prefix|..];
      DecimalInjective(i + 1, j + 1);
    }
  }
}
