/** The `Recommend` call of the recommendation service: look the requested
    category up in the catalog, clamp the requested count to what the category
    holds, and return a random sample of that size. */
module Recommendations {
  import opened Results
  import opened Catalog
  import Sampling

  /** A request: the category wanted and the largest number of books wanted. */
  datatype Request = Request(category: Category, maxResults: int)

  /** A response: the recommended books, in the order they were drawn. */
  datatype Response = Response(recommendations: seq<Book>)

  /** The failures `Recommend` can raise: the category is not in the catalog,
      or the sample size handed to the sampler is negative (a negative
      `maxResults` survives the clamp and the sampler rejects it). */
  datatype Error = NotFound(message: string) | InvalidSampleSize(count: int)

  /** The message of the not-found failure. */
  const CategoryNotFound: string := "Category not found"

  /** The number of books to return: the smaller of the count asked for and
      the number of books available. */
  function NumResults(maxResults: int, available: nat): (k: int)
    ensures k <= maxResults && k <= available
    ensures k == maxResults || k == available
  {
    if maxResults < available then maxResults else available
  }

  /** `draw` is a choice the random source can make for `req`: whenever the
      call reaches the sampler with a size it accepts, `draw` is a legal draw
      of that size from the category's books. */
  predicate DrawFits(req: Request, draw: seq<int>) {
    req.category in AllBooksByCategory ==>
      var n := |AllBooksByCategory[req.category]|;
      var k := NumResults(req.maxResults, n);
      0 <= k ==> Sampling.IsDraw(draw, k, n)
  }

  /** The service's `Recommend` handler, given the random source's choice. */
  function Recommend(req: Request, draw: seq<int>): (r: Result<Response, Error>)
    requires DrawFits(req, draw)
    ensures r == Failure(NotFound(CategoryNotFound)) <==> req.category !in AllBooksByCategory
    ensures r == Failure(InvalidSampleSize(req.maxResults)) <==>
      req.category in AllBooksByCategory && req.maxResults < 0
    ensures r.Success? <==> req.category in AllBooksByCategory && req.maxResults >= 0
    ensures r.Success? ==>
      && |r.value.recommendations| == NumResults(req.maxResults, |AllBooksByCategory[req.category]|)
      && (forall b :: b in r.value.recommendations ==> b in AllBooksByCategory[req.category])
      && Sampling.Distinct(r.value.recommendations)
  {
    if req.category !in AllBooksByCategory then
      Failure(NotFound(CategoryNotFound))
    else
      var books := AllBooksByCategory[req.category];
      var numResults := NumResults(req.maxResults, |books|);
      match Sampling.Sample(books, numResults, draw)
      case Success(picked) =>
        CategoryBooksDistinct(req.category);
        Sampling.SampleDistinct(books, numResults, draw);
        Success(Response(picked))
      case Failure(_) => Failure(InvalidSampleSize(numResults))
  }

  /** Within one category of the catalog no book occurs twice. */
  lemma CategoryBooksDistinct(category: Category)
    requires category in AllBooksByCategory
    ensures Sampling.Distinct(AllBooksByCategory[category])
  {
    var books := AllBooksByCategory[category];
    forall i, j | 0 <= i < j < |books| ensures books[i] != books[j] {
      if books[i] == books[j] { BookHasOneHome(category, category, i, j); }
    }
  }

  /** Whatever the request, the random source has a choice to make for it:
      `Recommend` is defined on every request. */
  lemma RecommendTotal(req: Request)
    ensures exists draw :: DrawFits(req, draw)
  {
    if req.category in AllBooksByCategory {
      var n := |AllBooksByCategory[req.category]|;
      var k := NumResults(req.maxResults, n);
      if 0 <= k {
        Sampling.DrawExists(k, n);
        var draw :| Sampling.IsDraw(draw, k, n);
        assert DrawFits(req, draw);
      } else {
        assert DrawFits(req, []);
      }
    } else {
      assert DrawFits(req, []);
    }
  }

  /** An unknown category fails with not-found whatever count is asked for,
      negative counts included. */
  lemma UnknownCategoryNotFound(category: Category, maxResults: int, draw: seq<int>)
    requires category !in AllBooksByCategory
    ensures Recommend(Request(category, maxResults), draw) == Failure(NotFound(CategoryNotFound))
  {
  }

  /** A known category and a non-negative count always succeed, with exactly
      the clamped number of books, all from the requested category, none
      repeated and no two sharing an id. */
  lemma RecommendSucceeds(req: Request, draw: seq<int>)
    requires DrawFits(req, draw)
    requires req.category in AllBooksByCategory && req.maxResults >= 0
    ensures Recommend(req, draw).Success?
    ensures var recs := Recommend(req, draw).value.recommendations;
      && |recs| == NumResults(req.maxResults, |AllBooksByCategory[req.category]|)
      && (forall b :: b in recs ==> b in AllBooksByCategory[req.category])
      && Sampling.Distinct(recs)
      && (forall i, j :: 0 <= i < j < |recs| ==> recs[i].id != recs[j].id)
  {
    var books := AllBooksByCategory[req.category];
    var k := NumResults(req.maxResults, |books|);
    var recs := Recommend(req, draw).value.recommendations;
    assert recs == Sampling.Pick(books, draw);
    forall i, j | 0 <= i < j < |recs| ensures recs[i].id != recs[j].id {
      assert recs[i] == books[draw[i]] && recs[j] == books[draw[j]];
      CatalogWellFormed();
    }
  }

  /** No recommended book belongs to any category other than the one asked for. */
  lemma NoBookFromOtherCategory(req: Request, draw: seq<int>, other: Category)
    requires DrawFits(req, draw)
    requires Recommend(req, draw).Success?
    requires other in AllBooksByCategory && other != req.category
    ensures forall b :: b in Recommend(req, draw).value.recommendations ==> b !in AllBooksByCategory[other]
  {
    var recs := Recommend(req, draw).value.recommendations;
    forall b | b in recs ensures b !in AllBooksByCategory[other] {
      var books := AllBooksByCategory[req.category];
      var i :| 0 <= i < |books| && books[i] == b;
      if b in AllBooksByCategory[other] {
        var j :| 0 <= j < |AllBooksByCategory[other]| && AllBooksByCategory[other][j] == b;
        BookHasOneHome(req.category, other, i, j);
      }
    }
  }

  /** Asking for zero books on a known category returns an empty response,
      not an error. */
  lemma ZeroResultsIsEmpty(category: Category, draw: seq<int>)
    requires category in AllBooksByCategory
    requires DrawFits(Request(category, 0), draw)
    ensures Recommend(Request(category, 0), draw) == Success(Response([]))
  {
  }

  /** Asking for at least as many books as the category holds returns every
      book of the category exactly once, in some order. */
  lemma AtLeastAllReturnsCategory(req: Request, draw: seq<int>)
    requires DrawFits(req, draw)
    requires req.category in AllBooksByCategory
    requires req.maxResults >= |AllBooksByCategory[req.category]|
    ensures Recommend(req, draw).Success?
    ensures multiset(Recommend(req, draw).value.recommendations) == multiset(AllBooksByCategory[req.category])
  {
    Sampling.SampleAllIsPermutation(AllBooksByCategory[req.category], draw);
  }

  /** A negative count on a known category reaches the sampler as a negative
      size, which it rejects. */
  lemma NegativeCountRejected(category: Category, maxResults: int, draw: seq<int>)
    requires category in AllBooksByCategory && maxResults < 0
    ensures Recommend(Request(category, maxResults), draw) == Failure(InvalidSampleSize(maxResults))
  {
  }
}
