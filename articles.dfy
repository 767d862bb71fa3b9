/**
 * The processed article (`ArticleResponse`), reduced to what the cache and
 * its listing look at. Dates and cache times are whole seconds on one
 * clock.
 */
module Articles {
  import opened Wrappers

  datatype Article = Article(title: string, date: Option<nat>, text: string)
}
