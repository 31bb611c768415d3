/** Read-only views of the catalog: case-insensitive search over title,
    author and category, and the grouping of books by category. */
module Search {
  import opened Records
  import opened Text

  /** The book's lowercased title, author or category name contains the
      lowercased query. */
  function Matches(b: Book, query: string): (r: bool)
    ensures r <==> Mentions(b, Lower(query))
  {
    var q := Lower(query);
    Contains(Lower(b.title), q) || Contains(Lower(b.author), q) || Contains(Lower(CategoryName(b.category)), q)
  }

  /** Reference meaning of a match, stated through occurrences. */
  ghost predicate Mentions(b: Book, q: string)
  {
    || (exists i :: OccursAt(q, Lower(b.title), i))
    || (exists i :: OccursAt(q, Lower(b.author), i))
    || (exists i :: OccursAt(q, Lower(CategoryName(b.category)), i))
  }

  /** The catalog books the search shows. */
  function Find(catalog: map<string, Book>, query: string): (r: set<Book>)
    ensures r <= catalog.Values
    ensures forall k :: k in catalog ==> (catalog[k] in r <==> Mentions(catalog[k], Lower(query)))
  {
    set b | b in catalog.Values && Matches(b, query)
  }

  /** ISBNs whose catalog entry matches the query. */
  ghost function MatchingIsbns(catalog: map<string, Book>, query: string, keys: set<string>): (r: set<string>)
  {
    set k | k in keys && k in catalog && Matches(catalog[k], query)
  }

  lemma MatchingGrows(catalog: map<string, Book>, query: string, done: set<string>, k: string)
    requires k in catalog
    ensures Matches(catalog[k], query) ==>
      MatchingIsbns(catalog, query, done + {k}) == MatchingIsbns(catalog, query, done) + {k}
    ensures !Matches(catalog[k], query) ==>
      MatchingIsbns(catalog, query, done + {k}) == MatchingIsbns(catalog, query, done)
  {
  }

  /** The search as a scan over the catalog, one result per matching entry. */
  method SearchList(catalog: map<string, Book>, query: string) returns (r: seq<Book>)
    ensures forall b :: b in r <==> b in catalog.Values && Matches(b, query)
    ensures |r| == |MatchingIsbns(catalog, query, catalog.Keys)|
  {
    r := [];
    var todo := catalog.Keys;
    ghost var done: set<string> := {};
    while todo != {}
      invariant todo + done == catalog.Keys && todo !! done
      invariant forall b :: b in r ==> b in catalog.Values && Matches(b, query)
      invariant forall k :: k in done && Matches(catalog[k], query) ==> catalog[k] in r
      invariant |r| == |MatchingIsbns(catalog, query, done)|
      decreases |todo|
    {
      var k :| k in todo;
      var b := catalog[k];
      MatchingGrows(catalog, query, done, k);
      if Matches(b, query) {
        r := r + [b];
      }
      todo := todo - {k};
      done := done + {k};
    }
  }

  /** An empty query shows the whole catalog. */
  lemma EmptyQueryFindsAll(catalog: map<string, Book>)
    ensures Find(catalog, "") == catalog.Values
  {
    forall b | b in catalog.Values
      ensures Matches(b, "")
    {
      EmptyOccursEverywhere(Lower(b.title));
    }
  }

  /** The catalog listed shelf by shelf, one shelf per category. */
  function Shelves(catalog: map<string, Book>): (r: map<Category, set<Book>>)
    ensures forall c: Category :: c in r
    ensures forall c: Category, b :: b in r[c] <==> b in catalog.Values && b.category == c
  {
    EveryCategoryListed();
    map c | c in AllCategories :: set b | b in catalog.Values && b.category == c
  }

  /** Every catalog book stands on exactly one shelf: the one of its category. */
  lemma ShelvesPartition(catalog: map<string, Book>)
    ensures forall b :: b in catalog.Values ==> b in Shelves(catalog)[b.category]
    ensures forall c: Category, b :: b in Shelves(catalog)[c] ==> c == b.category
  {
  }
}
