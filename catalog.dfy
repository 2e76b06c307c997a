/**
  Building the category-to-magazines dictionary in Main (Program.cs) and
  running the qualification filter on it.

  The program fetches one magazine list per category inside the loop; the
  fetch is I/O, so here the lists come in as `fetched`, position i holding
  the list fetched for `categories[i]`. `Dictionary.Add` throws on a key it
  already holds, and nothing in Main catches it: that is the Failure case.
 */
module CatalogConstruction {
  import opened MagazineTypes
  import opened Qualification
  import opened QualificationProperties

  /** The dictionary the loop builds when no category repeats: each category
      mapped to the list fetched for it. */
  ghost function CatalogOf(categories: seq<string>, fetched: seq<seq<Magazine>>): Catalog
    requires |fetched| == |categories| && Distinct(categories)
  {
    map i | 0 <= i < |categories| :: categories[i] := fetched[i]
  }

  /** Every listed category is a key, there are no other keys, and each key
      holds its own fetched list. */
  lemma CatalogOfLookup(categories: seq<string>, fetched: seq<seq<Magazine>>)
    requires |fetched| == |categories| && Distinct(categories)
    ensures CatalogOf(categories, fetched).Keys == set c | c in categories
    ensures forall i :: 0 <= i < |categories| ==> CatalogOf(categories, fetched)[categories[i]] == fetched[i]
  {
    var c := CatalogOf(categories, fetched);
    forall k | k in categories
      ensures k in c
    {
      var i :| 0 <= i < |categories| && categories[i] == k;
      assert categories[i] in c;
    }
  }

  /** Qualifying for the built dictionary means overlapping every fetched list. */
  lemma QualifiesForCatalogOf(sub: Subscriber, categories: seq<string>, fetched: seq<seq<Magazine>>)
    requires |fetched| == |categories| && Distinct(categories)
    ensures Qualifies(sub, CatalogOf(categories, fetched)) <==>
            forall i :: 0 <= i < |fetched| ==> Overlaps(sub, fetched[i])
  {
    var c := CatalogOf(categories, fetched);
    CatalogOfLookup(categories, fetched);
    if Qualifies(sub, c) {
      forall i | 0 <= i < |fetched|
        ensures Overlaps(sub, fetched[i])
      {
        assert categories[i] in c;
      }
    }
  }

  /** An id is in the output for the built dictionary iff a subscriber with
      that id holds a magazine of every fetched list. */
  lemma QualifiedForCatalogOfMembership(subs: seq<Subscriber>, categories: seq<string>,
                                        fetched: seq<seq<Magazine>>, x: string)
    requires |fetched| == |categories| && Distinct(categories)
    ensures x in QualifiedIds(subs, CatalogOf(categories, fetched)) <==>
            exists j :: 0 <= j < |subs| && subs[j].id == x &&
                        forall i :: 0 <= i < |fetched| ==> Overlaps(subs[j], fetched[i])
  {
    QualifiedIdsMembership(subs, CatalogOf(categories, fetched), x);
    forall j | 0 <= j < |subs|
      ensures Qualifies(subs[j], CatalogOf(categories, fetched)) <==>
              forall i :: 0 <= i < |fetched| ==> Overlaps(subs[j], fetched[i])
    {
      QualifiesForCatalogOf(subs[j], categories, fetched);
    }
  }

  /** The loop of Main that fills the dictionary, one `Add` per category. */
  method BuildCatalog(categories: seq<string>, fetched: seq<seq<Magazine>>) returns (r: Result<Catalog>)
    requires |fetched| == |categories|
    ensures r.Success? <==> Distinct(categories)
    ensures r.Success? ==> r.value == CatalogOf(categories, fetched)
    ensures r.Failure? ==>
              exists j :: 0 <= j < |categories| && r.error == DuplicateCategory(categories[j])
                          && categories[j] in categories[..j] && Distinct(categories[..j])
  {
    var magazinesByCategory: Catalog := map[];
    for n := 0 to |categories|
      invariant Distinct(categories[..n])
      invariant magazinesByCategory == CatalogOf(categories[..n], fetched[..n])
    {
      var category := categories[n];
      CatalogOfLookup(categories[..n], fetched[..n]);
      if category in magazinesByCategory {
        assert !Distinct(categories) by {
          var i :| 0 <= i < n && categories[..n][i] == category;
        }
        return Failure(DuplicateCategory(category));
      }
      magazinesByCategory := magazinesByCategory[category := fetched[n]];
      assert categories[..n + 1] == categories[..n] + [category];
      assert fetched[..n + 1] == fetched[..n] + [fetched[n]];
      assert magazinesByCategory == CatalogOf(categories[..n + 1], fetched[..n + 1]);
    }
    assert categories[..|categories|] == categories;
    assert fetched[..|fetched|] == fetched;
    return Success(magazinesByCategory);
  }

  /** Main from the dictionary loop to the call of IdentifyQualifiedSubscribers. */
  method QualifiedFromFetched(categories: seq<string>, fetched: seq<seq<Magazine>>, subscribers: seq<Subscriber>)
    returns (r: Result<seq<string>>)
    requires |fetched| == |categories|
    ensures r.Success? <==> Distinct(categories)
    ensures r.Success? ==> r.value == QualifiedIds(subscribers, CatalogOf(categories, fetched))
    ensures r.Failure? ==>
              exists j :: 0 <= j < |categories| && r.error == DuplicateCategory(categories[j])
                          && categories[j] in categories[..j] && Distinct(categories[..j])
  {
    var built := BuildCatalog(categories, fetched);
    if built.Failure? {
      return Failure(built.error);
    }
    var ids := IdentifyQualifiedSubscribers(subscribers, built.value);
    return Success(ids);
  }
}
