/** The record the route returns for one note, and the platform origin links are resolved against. */
module Items {

  /** `ScrapedData`; `thumbnail` is the empty string where the source leaves it empty. */
  datatype ScrapedData = ScrapedData(
    title: string,
    author: string,
    viewCount: string,
    likeCount: string,
    link: string,
    thumbnail: string)

  /** The platform's origin, prefixed to root-relative links and thumbnails. */
  const ORIGIN := "https://www.xiaohongshu.com"
}
