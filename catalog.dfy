/** The book catalog: a fixed, read-only map from category to an ordered list
    of books, built once when the service starts and never written. */
module Catalog {

  /** A book category as it arrives in a request. The catalog has entries for
      the three named categories; `Unrecognized` stands for a category the
      catalog has no entry for. Its `value` is only a label: the enum numbers
      used on the wire are not modelled. */
  datatype Category = Mystery | ScienceFiction | SelfHelp | Unrecognized(value: int)

  /** A recommended book: an identifier and a display title. */
  datatype Book = Book(id: int, title: string)

  /** The catalog, in the order the service lists it. */
  const AllBooksByCategory: map<Category, seq<Book>> := map[
    Mystery := [
      Book(1, "The Maltese Falcon"),
      Book(2, "Murder on the Orient Express"),
      Book(3, "The Hound of the Baskervilles")
    ],
    ScienceFiction := [
      Book(4, "Away from the Galaxy"),
      Book(5, "Ender's Game"),
      Book(6, "The Dune Chronicles")
    ],
    SelfHelp := [
      Book(7, "Habbits of Effective People"),
      Book(8, "How to Win"),
      Book(9, "Become a Good Chef")
    ]
  ]

  /** No two entries of the catalog, in the same category or in different
      ones, share an id. */
  ghost predicate IdsUnique(catalog: map<Category, seq<Book>>) {
    forall c1, c2, i, j ::
      c1 in catalog && c2 in catalog &&
      0 <= i < |catalog[c1]| && 0 <= j < |catalog[c2]| &&
      catalog[c1][i].id == catalog[c2][j].id
      ==> c1 == c2 && i == j
  }

  /** The id of the book at position `i` of category `c` is `c`'s base plus `i`. */
  ghost predicate IdsFollowBase(catalog: map<Category, seq<Book>>, c: Category, base: int)
    requires c in catalog
  {
    forall i :: 0 <= i < |catalog[c]| ==> catalog[c][i].id == base + i
  }

  /** The catalog's shape: exactly the three named categories, three books in
      each, every title non-empty, and ids unique across the whole catalog. */
  lemma CatalogWellFormed()
    ensures AllBooksByCategory.Keys == {Mystery, ScienceFiction, SelfHelp}
    ensures forall c :: c in AllBooksByCategory ==> |AllBooksByCategory[c]| == 3
    ensures forall c, i :: c in AllBooksByCategory && 0 <= i < |AllBooksByCategory[c]| ==>
      |AllBooksByCategory[c][i].title| > 0
    ensures IdsUnique(AllBooksByCategory)
  {
    var cat := AllBooksByCategory;
    assert IdsFollowBase(cat, Mystery, 1);
    assert IdsFollowBase(cat, ScienceFiction, 4);
    assert IdsFollowBase(cat, SelfHelp, 7);
    forall c1, c2, i, j |
      c1 in cat && c2 in cat && 0 <= i < |cat[c1]| && 0 <= j < |cat[c2]| &&
      cat[c1][i].id == cat[c2][j].id
      ensures c1 == c2 && i == j
    {
      assert c1 == Mystery || c1 == ScienceFiction || c1 == SelfHelp;
      assert c2 == Mystery || c2 == ScienceFiction || c2 == SelfHelp;
    }
  }

  /** Books are determined by position: within one category no book occurs
      twice, and no book belongs to two categories. */
  lemma BookHasOneHome(c1: Category, c2: Category, i: int, j: int)
    requires c1 in AllBooksByCategory && c2 in AllBooksByCategory
    requires 0 <= i < |AllBooksByCategory[c1]| && 0 <= j < |AllBooksByCategory[c2]|
    requires AllBooksByCategory[c1][i] == AllBooksByCategory[c2][j]
    ensures c1 == c2 && i == j
  {
    CatalogWellFormed();
  }
}
