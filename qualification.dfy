/**
  The qualification filter: which subscribers hold at least one magazine of
  every category (Program.cs, IdentifyQualifiedSubscribers).

  The specification side says it with quantifiers (Overlaps, Qualifies,
  QualifiedIds); the code side computes it the way the program does, with a
  set of the subscriber's ids intersected with each category's ids
  (AllCategoriesMet), inside a loop that appends to the result list.
 */
module Qualification {
  import opened MagazineTypes

  // ---------------------------------------------------------------------
  // Specification

  /** Some magazine of `magazines` has an id the subscriber lists. */
  ghost predicate Overlaps(sub: Subscriber, magazines: seq<Magazine>)
  {
    exists m :: m in magazines && m.id in sub.magazineIds
  }

  /** For every category of the catalog, the subscriber holds one of its magazines. */
  ghost predicate Qualifies(sub: Subscriber, catalog: Catalog)
  {
    forall k :: k in catalog ==> Overlaps(sub, catalog[k])
  }

  /** The ids of the qualifying subscribers, in input order. */
  ghost function QualifiedIds(subs: seq<Subscriber>, catalog: Catalog): seq<string>
  {
    if subs == [] then []
    else
      var last := subs[|subs| - 1];
      var prefix := QualifiedIds(subs[..|subs| - 1], catalog);
      if Qualifies(last, catalog) then prefix + [last.id] else prefix
  }

  // ---------------------------------------------------------------------
  // The computation as the program performs it

  /** `new HashSet<int>(subscriber.magazineIds)` */
  function IdSet(ids: seq<int>): set<int>
  {
    set i | i in ids
  }

  /** `categoryPair.Value.Select(magazine => magazine.id)`, as a set */
  function CategoryIds(magazines: seq<Magazine>): set<int>
  {
    set m | m in magazines :: m.id
  }

  /** `magazinesByCategory.All(pair => subscribed.Intersect(ids of pair.Value).Any())` */
  function AllCategoriesMet(subscribed: set<int>, catalog: Catalog): bool
  {
    forall k | k in catalog :: subscribed * CategoryIds(catalog[k]) != {}
  }

  /** A non-empty intersection with one category is exactly Overlaps. */
  lemma IntersectionNonEmptyIsOverlaps(sub: Subscriber, magazines: seq<Magazine>)
    ensures IdSet(sub.magazineIds) * CategoryIds(magazines) != {} <==> Overlaps(sub, magazines)
  {
    if Overlaps(sub, magazines) {
      var m :| m in magazines && m.id in sub.magazineIds;
      assert m.id in IdSet(sub.magazineIds) * CategoryIds(magazines);
    }
  }

  /** The program's set-based test decides the specification's Qualifies. */
  lemma AllCategoriesMetIsQualifies(sub: Subscriber, catalog: Catalog)
    ensures AllCategoriesMet(IdSet(sub.magazineIds), catalog) <==> Qualifies(sub, catalog)
  {
    forall k | k in catalog
      ensures IdSet(sub.magazineIds) * CategoryIds(catalog[k]) != {} <==> Overlaps(sub, catalog[k])
    {
      IntersectionNonEmptyIsOverlaps(sub, catalog[k]);
    }
  }

  /** The filter loop: one pass over the subscribers, appending each qualifying id. */
  method IdentifyQualifiedSubscribers(subscribers: seq<Subscriber>, magazinesByCategory: Catalog)
    returns (qualified: seq<string>)
    ensures qualified == QualifiedIds(subscribers, magazinesByCategory)
  {
    qualified := [];
    for n := 0 to |subscribers|
      invariant qualified == QualifiedIds(subscribers[..n], magazinesByCategory)
    {
      var subscriber := subscribers[n];
      var subscribed := IdSet(subscriber.magazineIds);
      var qualifies := AllCategoriesMet(subscribed, magazinesByCategory);
      AllCategoriesMetIsQualifies(subscriber, magazinesByCategory);
      if qualifies {
        qualified := qualified + [subscriber.id];
      }
      assert subscribers[..n + 1][..n] == subscribers[..n];
    }
    assert subscribers[..|subscribers|] == subscribers;
  }
}
