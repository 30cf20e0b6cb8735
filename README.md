# Recommendation service — Dafny model

This project models the core of a small gRPC book-recommendation service:

- **Catalog.** A fixed, read-only map from a book category to an ordered list of
  books. Each book has an id and a title.
- **`Recommend` handler.** It looks up the category of a request. If the
  category has no catalog entry, it fails with `NotFound("Category not found")`.
  Otherwise it clamps the requested count to `min(max_results, number of books)`.
  It then returns a sample of that size, drawn without replacement by
  `random.sample`.

The handler is straight-line code, so the model is made of functions and
lemmas. The random draw is a parameter: `draw` lists the positions of the
category's list that the random source picked. `Recommend` accepts any draw that
is legal for the request (`DrawFits`). Every property below holds for every
legal draw, and `RecommendTotal` shows that every request has one.

Modules:

- `Results` (results.dfy): the `Result` datatype that stands for a raised
  exception.
- `Catalog` (catalog.dfy): `Category`, `Book` and the constant
  `AllBooksByCategory`. `Category` has one more constructor than the catalog
  has keys: `Unrecognized(value)` stands for an enum number that the catalog has
  no entry for, so the not-found branch can be reached.
- `Sampling` (sampling.dfy): `random.sample` over a given draw. It rejects a
  size that is negative or larger than the population. Its lemmas cover
  distinctness and the permutation it returns when asked for the whole
  population. The permutation proof uses a pigeonhole step: a full draw picks
  every position. For any population, duplicates included, the sample is
  contained in it as a multiset.
- `Recommendations` (recommendations.dfy): the request and response types, the
  error kinds and `Recommend`, with its properties.

The catalog is a `const`, so no call can change it.

## Model

| member | source | states |
|---|---|---|
| Catalog.CatalogWellFormed | recommendations/recommendations.py:13-29 | the catalog has exactly the three categories MYSTERY, SCIENCE_FICTION and SELF_HELP; each holds three books with non-empty titles; no two books anywhere in the catalog share an id |
| Catalog.BookHasOneHome | recommendations/recommendations.py:13-29 | a book occurs at one position of one category only: no duplicates within a category and no book in two categories |
| Sampling.Sample | recommendations/recommendations.py:40 | `random.sample` fails exactly when the size is negative or exceeds the population; otherwise it returns exactly that many elements, all from the population |
| Sampling.DrawExists | recommendations/recommendations.py:40 | every size from 0 to the population size has at least one legal draw without replacement |
| Sampling.SampleDistinct | recommendations/recommendations.py:40 | a sample drawn without replacement from a duplicate-free population has no duplicates |
| Sampling.PickWithoutReplacement | recommendations/recommendations.py:40 | for any population, duplicates allowed, picking distinct positions takes each occurrence at most once: the picked multiset is contained in the population's |
| Sampling.SampleWithoutReplacement | recommendations/recommendations.py:40 | every accepted sample size succeeds, and the sample, as a multiset, is contained in the population |
| Sampling.PickAllIsPermutation | recommendations/recommendations.py:40 | picking every position exactly once, in any order, yields a permutation (equal multiset) of the population |
| Sampling.SampleAllIsPermutation | recommendations/recommendations.py:40 | a sample the size of the whole population succeeds and is a permutation of it |
| Recommendations.CategoryBooksDistinct | recommendations/recommendations.py:13-29 | no category's list holds the same book twice |
| Recommendations.NumResults | recommendations/recommendations.py:39 | the clamped count is at most the count asked for and at most the books available, and equals one of them |
| Recommendations.Recommend | recommendations/recommendations.py:33-42 | fails with `NotFound("Category not found")` if and only if the category is not in the catalog; fails with `InvalidSampleSize(max_results)` if and only if the category is known and the count is negative; succeeds if and only if the category is known and the count is non-negative, and then returns exactly `min(max_results, number of books)` books, all from the requested category, none repeated |
| Recommendations.RecommendTotal | recommendations/recommendations.py:38-40 | every request admits a legal random draw, so the handler is defined on every request |
| Recommendations.UnknownCategoryNotFound | recommendations/recommendations.py:34-36 | a category absent from the catalog yields the not-found error for every `max_results`, negative ones included |
| Recommendations.RecommendSucceeds | recommendations/recommendations.py:38-42 | a known category with a non-negative count always succeeds; the result has exactly the clamped length, every book comes from that category, no book repeats and no two books share an id |
| Recommendations.NoBookFromOtherCategory | recommendations/recommendations.py:38-40 | no recommended book appears in any other category's list |
| Recommendations.ZeroResultsIsEmpty | recommendations/recommendations.py:39-40 | `max_results == 0` on a known category returns an empty response, not an error |
| Recommendations.AtLeastAllReturnsCategory | recommendations/recommendations.py:39-40 | `max_results` at least the category's size returns every book of the category exactly once (a permutation of its list) |
| Recommendations.NegativeCountRejected | recommendations/recommendations.py:39-40 | a negative `max_results` on a known category passes through the clamp unchanged, and the sampler rejects it |

## Left out

- `serve()` (recommendations/recommendations.py:45-53) is not modelled. It builds the gRPC server and its 10-worker thread pool, registers the servicer, binds the insecure port 50051 and blocks. All of that is transport and concurrency.
- TLS credential loading, a secure port and signal-driven graceful shutdown are not modelled. The code has none of them: it binds only an insecure port and calls `wait_for_termination`.
- The translation of the handler's errors into gRPC statuses (recommendations/recommendations.py:5-6, 36, 46) is not modelled; only the typed error the handler raises is.
- The generated protobuf classes are not part of this model. They are replaced by plain datatypes with `category`, `max_results`, `id` and `title`. The enum numbers of the categories and the integer width of `max_results` on the wire are not modelled.
- Recommendations.Recommend: the `ValueError` that `random.sample` raises for a negative size is modelled only as the error kind `InvalidSampleSize(count)`, without its message text.
- Sampling.Sample: the random source is a parameter. The model states which draws are legal. It says nothing about the uniformity of the draw, how `random.sample` picks positions internally, or the thread-safety of the shared `random` state.
