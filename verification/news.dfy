/** The article record the scraper produces (class `New`): an immutable value
    whose read-only properties hand back exactly what the constructor stored. */
module News {
  import opened Wrappers

  /** A calendar date (Python's `datetime.date`); the model never interprets it
      beyond passing it along. */
  datatype Date = Date(year: int, month: int, day: int)

  /** One extracted article. Each field is one of the class's read-only
      properties; a datatype value has no setters, so a record never changes
      after it is built. */
  datatype Article = Article(
    title: string,
    publishDate: Date,
    picFilename: string,
    searchPhraseCount: int,
    description: Option<string>,
    containsMoneyAmount: bool)

  /** The constructor `New(title, publish_date, pic_filename, search_phrase_count,
      description=None)`. The money check is still unwritten in the class, which
      sets the flag to `True` whatever the text says. */
  function NewArticle(
    title: string,
    publishDate: Date,
    picFilename: string,
    searchPhraseCount: int,
    description: Option<string> := None): (a: Article)
    ensures a.title == title && a.publishDate == publishDate
    ensures a.picFilename == picFilename && a.searchPhraseCount == searchPhraseCount
    ensures a.description == description
    ensures a.containsMoneyAmount
  {
    Article(title, publishDate, picFilename, searchPhraseCount, description, true)
  }

  /** A record the constructor can produce. */
  predicate Constructed(a: Article)
  {
    a.containsMoneyAmount
  }

  /** Reading every property of a constructed record and passing the values
      back to the constructor rebuilds the same record: the properties expose
      all of the stored state, unchanged. */
  lemma PropertiesRebuild(a: Article)
    requires Constructed(a)
    ensures NewArticle(a.title, a.publishDate, a.picFilename, a.searchPhraseCount, a.description) == a
  {
  }

  /** Two constructor calls give the same record only for the same arguments. */
  lemma NewArticleInjective(
    t1: string, d1: Date, f1: string, n1: int, s1: Option<string>,
    t2: string, d2: Date, f2: string, n2: int, s2: Option<string>)
    requires NewArticle(t1, d1, f1, n1, s1) == NewArticle(t2, d2, f2, n2, s2)
    ensures t1 == t2 && d1 == d2 && f1 == f2 && n1 == n2 && s1 == s2
  {
  }

  /** Leaving out the description is the same as passing `None`. */
  lemma DescriptionDefaultsToNone(title: string, publishDate: Date, picFilename: string, searchPhraseCount: int)
    ensures NewArticle(title, publishDate, picFilename, searchPhraseCount).description == None
  {
  }

  /** The money flag does not depend on the text at all. */
  lemma MoneyFlagIgnoresText(
    t1: string, s1: Option<string>, t2: string, s2: Option<string>,
    publishDate: Date, picFilename: string, searchPhraseCount: int)
    ensures NewArticle(t1, publishDate, picFilename, searchPhraseCount, s1).containsMoneyAmount
         == NewArticle(t2, publishDate, picFilename, searchPhraseCount, s2).containsMoneyAmount
  {
  }
}
