/**
  What the qualification filter promises: who is in the output and why,
  the order of the output, its boundary cases (no categories, an empty
  category, a subscriber with no subscriptions), that duplicates and order
  in a subscriber's id list do not matter, monotonicity in both inputs, and
  that filtering the subscribers by the output ids gives the output back.
 */
module QualificationProperties {
  import opened MagazineTypes
  import opened Qualification

  // ---------------------------------------------------------------------
  // The output is exactly the ids at the qualifying positions, in order

  /** The positions of the qualifying subscribers, ascending. */
  ghost function QualifiedPositions(subs: seq<Subscriber>, catalog: Catalog): seq<int>
  {
    if subs == [] then []
    else
      var prefix := QualifiedPositions(subs[..|subs| - 1], catalog);
      if Qualifies(subs[|subs| - 1], catalog) then prefix + [|subs| - 1] else prefix
  }

  /** `picked` lists the elements of `from` at the strictly increasing positions `at`. */
  ghost predicate PicksInOrder(picked: seq<string>, from: seq<string>, at: seq<int>)
  {
    && |at| == |picked|
    && (forall t :: 0 <= t < |at| ==> 0 <= at[t] < |from| && picked[t] == from[at[t]])
    && (forall t, u :: 0 <= t < u < |at| ==> at[t] < at[u])
  }

  /** `a` is a subsequence of `b`: its elements appear in `b` in the same relative order. */
  ghost predicate IsSubsequence(a: seq<string>, b: seq<string>)
  {
    exists at :: PicksInOrder(a, b, at)
  }

  /** The output picks, in order, the ids of exactly the subscribers that qualify. */
  lemma {:induction false} QualifiedIdsSelectsQualifyingPositions(subs: seq<Subscriber>, catalog: Catalog)
    ensures PicksInOrder(QualifiedIds(subs, catalog), Ids(subs), QualifiedPositions(subs, catalog))
    ensures forall j :: 0 <= j < |subs| ==> (j in QualifiedPositions(subs, catalog) <==> Qualifies(subs[j], catalog))
  {
    if subs != [] {
      var n := |subs| - 1;
      var prefix := subs[..n];
      QualifiedIdsSelectsQualifyingPositions(prefix, catalog);
      var p := QualifiedPositions(prefix, catalog);
      assert forall t :: 0 <= t < |p| ==> p[t] < n;
      assert forall j :: 0 <= j < n ==> subs[j] == prefix[j];
    }
  }

  /** A subscriber's id is in the output iff some subscriber with that id qualifies. */
  lemma {:induction false} QualifiedIdsMembership(subs: seq<Subscriber>, catalog: Catalog, x: string)
    ensures x in QualifiedIds(subs, catalog) <==>
            exists j :: 0 <= j < |subs| && subs[j].id == x && Qualifies(subs[j], catalog)
  {
    QualifiedIdsSelectsQualifyingPositions(subs, catalog);
    var r, p := QualifiedIds(subs, catalog), QualifiedPositions(subs, catalog);
    if x in r {
      var t :| 0 <= t < |r| && r[t] == x;
      assert p[t] in p;
    }
    if j :| 0 <= j < |subs| && subs[j].id == x && Qualifies(subs[j], catalog) {
      assert j in p;
      var t :| 0 <= t < |p| && p[t] == j;
      assert r[t] == x;
    }
  }

  /** The output is a stable filter of the subscriber ids and no longer than the input. */
  lemma QualifiedIdsIsStableFilter(subs: seq<Subscriber>, catalog: Catalog)
    ensures IsSubsequence(QualifiedIds(subs, catalog), Ids(subs))
    ensures |QualifiedIds(subs, catalog)| <= |subs|
  {
    QualifiedIdsSelectsQualifyingPositions(subs, catalog);
    QualifiedIdsLength(subs, catalog);
  }

  lemma {:induction false} QualifiedIdsLength(subs: seq<Subscriber>, catalog: Catalog)
    ensures |QualifiedIds(subs, catalog)| <= |subs|
  {
    if subs != [] {
      QualifiedIdsLength(subs[..|subs| - 1], catalog);
    }
  }

  /** Distinct subscriber ids give distinct output ids. */
  lemma DistinctIdsStayDistinct(subs: seq<Subscriber>, catalog: Catalog)
    requires Distinct(Ids(subs))
    ensures Distinct(QualifiedIds(subs, catalog))
  {
    QualifiedIdsSelectsQualifyingPositions(subs, catalog);
    var r, p, ids := QualifiedIds(subs, catalog), QualifiedPositions(subs, catalog), Ids(subs);
    forall t, u | 0 <= t < u < |r|
      ensures r[t] != r[u]
    {
      assert ids[p[t]] != ids[p[u]];
    }
  }

  // ---------------------------------------------------------------------
  // Boundary cases

  /** With no categories every subscriber qualifies: the output is all ids, in order. */
  lemma {:induction false} EmptyCatalogKeepsEveryone(subs: seq<Subscriber>)
    ensures QualifiedIds(subs, map[]) == Ids(subs)
  {
    if subs != [] {
      var n := |subs| - 1;
      EmptyCatalogKeepsEveryone(subs[..n]);
      assert Ids(subs) == Ids(subs[..n]) + [subs[n].id];
    }
  }

  /** A category with no magazines disqualifies every subscriber. */
  lemma {:induction false} EmptyCategoryKeepsNoOne(subs: seq<Subscriber>, catalog: Catalog, k: string)
    requires k in catalog && catalog[k] == []
    ensures QualifiedIds(subs, catalog) == []
  {
    if subs != [] {
      EmptyCategoryKeepsNoOne(subs[..|subs| - 1], catalog, k);
      assert !Overlaps(subs[|subs| - 1], catalog[k]);
    }
  }

  /** A subscriber with no magazine ids qualifies only when there are no categories. */
  lemma NoSubscriptionsQualifiesOnlyForEmptyCatalog(sub: Subscriber, catalog: Catalog)
    requires sub.magazineIds == []
    ensures Qualifies(sub, catalog) <==> catalog == map[]
  {
    if catalog != map[] {
      var k :| k in catalog;
      assert !Overlaps(sub, catalog[k]);
    }
  }

  // ---------------------------------------------------------------------
  // Monotonicity and insensitivity to the shape of the id list

  /** Holding more magazine ids never makes a subscriber stop qualifying. */
  lemma MoreSubscriptionsKeepQualifying(fewer: Subscriber, more: Subscriber, catalog: Catalog)
    requires forall i :: i in fewer.magazineIds ==> i in more.magazineIds
    requires Qualifies(fewer, catalog)
    ensures Qualifies(more, catalog)
  {
    forall k | k in catalog
      ensures Overlaps(more, catalog[k])
    {
      var m :| m in catalog[k] && m.id in fewer.magazineIds;
      assert m.id in more.magazineIds;
    }
  }

  /** Only the set of ids matters: repeats and order in the list change nothing. */
  lemma OnlyTheIdSetMatters(a: Subscriber, b: Subscriber, catalog: Catalog)
    requires IdSet(a.magazineIds) == IdSet(b.magazineIds)
    ensures Qualifies(a, catalog) <==> Qualifies(b, catalog)
  {
    AllCategoriesMetIsQualifies(a, catalog);
    AllCategoriesMetIsQualifies(b, catalog);
  }

  /** `small` is `large` with some categories left out. */
  ghost predicate SubCatalog(small: Catalog, large: Catalog)
  {
    forall k :: k in small ==> k in large && small[k] == large[k]
  }

  /** More categories can only disqualify a subscriber. */
  lemma MoreCategoriesOnlyDisqualify(sub: Subscriber, small: Catalog, large: Catalog)
    requires SubCatalog(small, large)
    requires Qualifies(sub, large)
    ensures Qualifies(sub, small)
  {
    forall k | k in small
      ensures Overlaps(sub, small[k])
    {
      assert Overlaps(sub, large[k]);
    }
  }

  /** More categories can only remove ids from the output, never add one. */
  lemma {:induction false} MoreCategoriesShrinkOutput(subs: seq<Subscriber>, small: Catalog, large: Catalog)
    requires SubCatalog(small, large)
    ensures forall x :: x in QualifiedIds(subs, large) ==> x in QualifiedIds(subs, small)
    ensures |QualifiedIds(subs, large)| <= |QualifiedIds(subs, small)|
    ensures IsSubsequence(QualifiedIds(subs, large), QualifiedIds(subs, small))
  {
    var at := MoreCategoriesGiveSubsequence(subs, small, large);
    if subs != [] {
      var last := subs[|subs| - 1];
      MoreCategoriesShrinkOutput(subs[..|subs| - 1], small, large);
      if Qualifies(last, large) {
        MoreCategoriesOnlyDisqualify(last, small, large);
      }
    }
  }

  /** More categories give an output that is a subsequence of the output for fewer. */
  lemma {:induction false} MoreCategoriesGiveSubsequence(subs: seq<Subscriber>, small: Catalog, large: Catalog)
    returns (at: seq<int>)
    requires SubCatalog(small, large)
    ensures PicksInOrder(QualifiedIds(subs, large), QualifiedIds(subs, small), at)
  {
    if subs == [] {
      at := [];
    } else {
      var n := |subs| - 1;
      var last := subs[n];
      at := MoreCategoriesGiveSubsequence(subs[..n], small, large);
      var before := QualifiedIds(subs[..n], small);
      if Qualifies(last, large) {
        MoreCategoriesOnlyDisqualify(last, small, large);
        at := at + [|before|];
      }
    }
  }

  // ---------------------------------------------------------------------
  // Feeding the output back as a filter

  /** The ids of the subscribers whose id is listed, in input order. */
  ghost function KeepListed(subs: seq<Subscriber>, listed: seq<string>): seq<string>
  {
    if subs == [] then []
    else
      var last := subs[|subs| - 1];
      var prefix := KeepListed(subs[..|subs| - 1], listed);
      if last.id in listed then prefix + [last.id] else prefix
  }

  lemma {:induction false} KeepListedMatchesQualified(subs: seq<Subscriber>, catalog: Catalog, listed: seq<string>)
    requires forall j :: 0 <= j < |subs| ==> (subs[j].id in listed <==> Qualifies(subs[j], catalog))
    ensures KeepListed(subs, listed) == QualifiedIds(subs, catalog)
  {
    if subs != [] {
      var n := |subs| - 1;
      assert forall j :: 0 <= j < n ==> subs[..n][j] == subs[j];
      KeepListedMatchesQualified(subs[..n], catalog, listed);
    }
  }

  /** An id survives KeepListed iff it is listed and some subscriber has it. */
  lemma {:induction false} KeepListedMembership(subs: seq<Subscriber>, listed: seq<string>, x: string)
    ensures x in KeepListed(subs, listed) <==>
            x in listed && exists j :: 0 <= j < |subs| && subs[j].id == x
  {
    if subs != [] {
      var n := |subs| - 1;
      KeepListedMembership(subs[..n], listed, x);
      if j :| 0 <= j < |subs| && subs[j].id == x && j < n {
        assert subs[..n][j] == subs[j];
      }
    }
  }

  /** Keeping the subscribers whose id is in the output yields the same set of
      ids as the output, whether or not subscriber ids repeat. */
  lemma FilterByOutputHasSameIds(subs: seq<Subscriber>, catalog: Catalog, x: string)
    ensures x in KeepListed(subs, QualifiedIds(subs, catalog)) <==> x in QualifiedIds(subs, catalog)
  {
    KeepListedMembership(subs, QualifiedIds(subs, catalog), x);
    QualifiedIdsMembership(subs, catalog, x);
  }

  /** With distinct subscriber ids, keeping the subscribers whose id is in the
      output yields the output again. */
  lemma FilterByOutputIsOutput(subs: seq<Subscriber>, catalog: Catalog)
    requires Distinct(Ids(subs))
    ensures KeepListed(subs, QualifiedIds(subs, catalog)) == QualifiedIds(subs, catalog)
  {
    var r := QualifiedIds(subs, catalog);
    forall j | 0 <= j < |subs|
      ensures subs[j].id in r <==> Qualifies(subs[j], catalog)
    {
      QualifiedIdsMembership(subs, catalog, subs[j].id);
      if subs[j].id in r {
        var j' :| 0 <= j' < |subs| && subs[j'].id == subs[j].id && Qualifies(subs[j'], catalog);
        assert Ids(subs)[j'] == Ids(subs)[j];
      }
    }
    KeepListedMatchesQualified(subs, catalog, r);
  }

  // ---------------------------------------------------------------------
  // A worked example: one Tech magazine (id 1), one Sports magazine (id 2)

  function ExampleCatalog(): Catalog
  {
    map["Tech" := [Magazine(1, "T", "Tech")], "Sports" := [Magazine(2, "S", "Sports")]]
  }

  /** A holds 1 and 2, B only 1, C nothing: only A qualifies. */
  lemma ExampleOnlyFullCoverageQualifies()
    ensures QualifiedIds([Subscriber("A", "", "", [1, 2]), Subscriber("B", "", "", [1]),
                          Subscriber("C", "", "", [])], ExampleCatalog()) == ["A"]
  {
    var c := ExampleCatalog();
    var a, b, e := Subscriber("A", "", "", [1, 2]), Subscriber("B", "", "", [1]), Subscriber("C", "", "", []);
    assert Overlaps(a, c["Tech"]) by { assert c["Tech"][0] in c["Tech"]; }
    assert Overlaps(a, c["Sports"]) by { assert c["Sports"][0] in c["Sports"]; }
    assert Qualifies(a, c);
    assert !Qualifies(b, c) by { assert !Overlaps(b, c["Sports"]); }
    NoSubscriptionsQualifiesOnlyForEmptyCatalog(e, c);
    assert "Tech" in c;
    assert [a, b, e][..2] == [a, b] && [a, b][..1] == [a] && [a][..0] == [];
    assert QualifiedIds([a], c) == ["A"];
    assert QualifiedIds([a, b], c) == ["A"];
  }
}
