/** Keyword search strategies and the factory that picks one by search type. */
module SearchStrategies {
  import opened Wrappers
  import opened Exceptions
  import opened Books
  import opened Constraints
  import opened BookStore

  /** TitleSearchStrategy and AuthorSearchStrategy. */
  datatype SearchStrategy = TitleSearch | AuthorSearch

  /** The field a strategy searches. */
  function SearchedField(s: SearchStrategy, b: Book): Option<string> {
    match s
    case TitleSearch => b.title
    case AuthorSearch => b.author
  }

  /** The store filter a strategy's query applies. */
  function Matcher(s: SearchStrategy, keyword: Option<string>): Book -> bool {
    match s
    case TitleSearch => TitleLike(keyword)
    case AuthorSearch => AuthorLike(keyword)
  }

  /** search(bookDAO, keyword, pageable): one page of the books whose
      searched field LIKE-matches the keyword, with the count of all of them. */
  function Search(s: SearchStrategy, store: BookStore, keyword: Option<string>, pageable: Pageable): (r: Page)
    reads store
    ensures |r.content| <= pageable.pageSize
    ensures forall b :: b in r.content ==> b in Rows(store.books, store.order) && LikeMatch(SearchedField(s, b), keyword)
    ensures r.total == |store.Where(Matcher(s, keyword))|
    ensures PageOf(r, store.Where(Matcher(s, keyword)), pageable)
  {
    match s
    case TitleSearch => store.FindByTitleContainingPaged(keyword, pageable)
    case AuthorSearch => store.FindByAuthorContainingPaged(keyword, pageable)
  }

  /** The factory: a registry fixed when it is built. */
  class SearchStrategyFactory {
    const strategyMap: map<string, SearchStrategy>

    constructor(strategyMap: map<string, SearchStrategy>)
      ensures this.strategyMap == strategyMap
    {
      this.strategyMap := strategyMap;
    }

    /** getStrategy: the strategy registered under exactly this text, or
        IllegalArgumentException naming the type. A null type is never
        registered. */
    function GetStrategy(searchType: Option<string>): (r: Result<SearchStrategy, Exception>)
      ensures r.Success? <==> searchType.Some? && searchType.value in strategyMap
      ensures r.Success? ==> r.value == strategyMap[searchType.value]
      ensures r.Failure? ==> r.error == IllegalArgument("Unsupported search type: " + JavaString(searchType))
    {
      if searchType.Some? && searchType.value in strategyMap then
        Success(strategyMap[searchType.value])
      else
        Failure(IllegalArgument("Unsupported search type: " + JavaString(searchType)))
    }
  }

  /** The map Spring injects into the factory: every SearchStrategy bean
      under its bean name, the decapitalised class name. */
  function SpringBeanRegistry(): map<string, SearchStrategy> {
    map["titleSearchStrategy" := TitleSearch, "authorSearchStrategy" := AuthorSearch]
  }

  /** The registry the factory documents: strategies keyed by search type. */
  function SearchTypeRegistry(): map<string, SearchStrategy> {
    map["title" := TitleSearch, "author" := AuthorSearch]
  }

  /** As wired, the search types "title" and "author" are both rejected. */
  lemma BeanNamedRegistryRejectsSearchTypes(f: SearchStrategyFactory)
    requires f.strategyMap == SpringBeanRegistry()
    ensures f.GetStrategy(Some("title")) == Failure(IllegalArgument("Unsupported search type: " + "title"))
    ensures f.GetStrategy(Some("author")) == Failure(IllegalArgument("Unsupported search type: " + "author"))
  {
    assert "title" != "titleSearchStrategy" && "title" != "authorSearchStrategy";
    assert "author" != "titleSearchStrategy" && "author" != "authorSearchStrategy";
  }

  /** Keyed by search type, exactly "title" and "author" are accepted, each
      giving its own strategy; lookup neither trims nor folds case. */
  lemma SearchTypeRegistryAccepts(f: SearchStrategyFactory, t: string)
    requires f.strategyMap == SearchTypeRegistry()
    ensures f.GetStrategy(Some(t)).Success? <==> t == "title" || t == "author"
    ensures f.GetStrategy(Some("title")) == Success(TitleSearch)
    ensures f.GetStrategy(Some("author")) == Success(AuthorSearch)
  {
  }
}
