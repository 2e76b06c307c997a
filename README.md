# MagazineApi qualification filter, in Dafny

The MagazineApi console program fetches a token, the category names, one
magazine list per category and the subscriber roster from the magazine
store. It then works out which subscribers hold at least one magazine in
every category and posts their ids back. This project models the part of
the program that does not do I/O:

- the `Magazine` and `Subscriber` records (`MagazineTypes`, `types.dfy`);
- the qualification filter `IdentifyQualifiedSubscribers` (`Qualification`, `qualification.dfy`).
  It has two sides:
  - the specification: `Overlaps`, `Qualifies` and the filter `QualifiedIds`;
  - the computation as the program does it. `IdSet` is the `HashSet` of a
    subscriber's ids. `AllCategoriesMet` is the LINQ `All`/`Intersect`/`Any`
    test. The method `IdentifyQualifiedSubscribers` is the `foreach` loop
    that appends to the result list. The method is proved equal to the
    specification filter;
- the properties of the filter (`QualificationProperties`, `qualification_properties.dfy`);
- the loop in `Main` that fills the category-to-magazines `Dictionary`.
  `Add` fails on a repeated category. This loop, and its composition with
  the filter, are in `CatalogConstruction` (`catalog.dfy`).

Each fetch is I/O. Its result is therefore an input to the model: the
magazine lists come in as a sequence `fetched` that runs parallel to the
category names, and the subscribers come in as a sequence. This is why
`BuildCatalog` requires `|fetched| == |categories|`. In the program, the
loop at Program.cs:28-31 performs exactly one fetch per category.

Points where the code's behaviour is easy to misread:

- One might expect a null `magazineIds` list to be treated as empty. It is
  not: `new HashSet<int>(null)` throws. Dafny sequences are never null, so
  the model makes no claim about nulls.
- One might expect the filter to be total. Building the dictionary,
  however, fails on a repeated category name, because `Dictionary.Add`
  throws and `Main` does not catch it. The model returns
  `Failure(DuplicateCategory(c))`, where `c` is the first repeated name.
- Feeding the output back as a filter (keep the subscribers whose id is in
  the output) gives the same set of ids for every subscriber list:
  `FilterByOutputHasSameIds`. Distinct subscriber ids are enough for it to
  give the very same sequence: `FilterByOutputIsOutput`. More generally the
  sequence comes back whenever no id belongs both to a qualifying and to a
  non-qualifying subscriber (`KeepListedMatchesQualified` proves this
  direction). When some id does, the non-qualifying subscriber is kept too,
  which adds a repeat of an id that is already in the output.
- The code groups magazines by the category under which they were fetched.
  The `category` field of `Magazine` is never read.

## Model

The table lists the members whose contracts state something about the
program. The code-side helpers `IdSet` (Program.cs:130), `CategoryIds`
(Program.cs:133) and `AllCategoriesMet` (Program.cs:132-133) carry no
contract of their own; what they compute is stated by
`IntersectionNonEmptyIsOverlaps` and `AllCategoriesMetIsQualifies`, and
they are used by `IdentifyQualifiedSubscribers`.

| member | source | states |
|---|---|---|
| `Qualification.IdentifyQualifiedSubscribers` | MagazineApi/Program.cs:124-142 | the loop's output equals the specification filter `QualifiedIds`: the ids of the subscribers that overlap every category, in input order |
| `Qualification.AllCategoriesMetIsQualifies` | MagazineApi/Program.cs:130-133 | the set-based test (HashSet of the subscriber's ids, non-empty intersection with each category's ids, for all categories) holds exactly when the subscriber holds a magazine of every category |
| `Qualification.IntersectionNonEmptyIsOverlaps` | MagazineApi/Program.cs:133 | `Intersect(...).Any()` for one category holds exactly when some magazine of that category has an id the subscriber lists |
| `QualificationProperties.QualifiedIdsSelectsQualifyingPositions` | MagazineApi/Program.cs:126-141 | the output is the ids at strictly increasing positions of the input, and a position is among them exactly when that subscriber qualifies |
| `QualificationProperties.QualifiedIdsMembership` | MagazineApi/Program.cs:128-138 | an id is in the output iff some subscriber with that id qualifies for every category |
| `QualificationProperties.QualifiedIdsIsStableFilter` | MagazineApi/Program.cs:126-141 | the output is a subsequence of the subscriber ids in the same relative order, and no longer than the input |
| `QualificationProperties.QualifiedIdsLength` | MagazineApi/Program.cs:126-141 | the output is no longer than the subscriber list |
| `QualificationProperties.DistinctIdsStayDistinct` | MagazineApi/Program.cs:126-141 | if the subscriber ids are distinct, so are the output ids |
| `QualificationProperties.EmptyCatalogKeepsEveryone` | MagazineApi/Program.cs:132-137 | with no categories, the output is every subscriber id, in input order |
| `QualificationProperties.EmptyCategoryKeepsNoOne` | MagazineApi/Program.cs:132-133 | if some category has no magazines, the output is empty |
| `QualificationProperties.NoSubscriptionsQualifiesOnlyForEmptyCatalog` | MagazineApi/Program.cs:130-133 | a subscriber with no magazine ids qualifies iff there are no categories |
| `QualificationProperties.MoreSubscriptionsKeepQualifying` | MagazineApi/Program.cs:130-133 | a subscriber whose ids include a qualifying subscriber's ids also qualifies |
| `QualificationProperties.OnlyTheIdSetMatters` | MagazineApi/Program.cs:130 | two subscribers with the same set of ids qualify alike, so repeats and order in the id list change nothing |
| `QualificationProperties.MoreCategoriesOnlyDisqualify` | MagazineApi/Program.cs:132-133 | a subscriber qualifying for a dictionary also qualifies for any dictionary with fewer of its categories |
| `QualificationProperties.MoreCategoriesShrinkOutput` | MagazineApi/Program.cs:126-141 | adding categories only removes ids: the output for more categories is a subsequence of the output for fewer, hence contained in it and no longer |
| `QualificationProperties.MoreCategoriesGiveSubsequence` | MagazineApi/Program.cs:126-141 | gives the increasing positions at which the output for more categories sits inside the output for fewer |
| `QualificationProperties.KeepListedMatchesQualified` | MagazineApi/Program.cs:126-141 | keeping the subscribers whose id is in a list gives the output whenever being in the list coincides with qualifying |
| `QualificationProperties.KeepListedMembership` | MagazineApi/Program.cs:126-141 | an id survives filtering by a list iff it is in the list and some subscriber has it |
| `QualificationProperties.FilterByOutputHasSameIds` | MagazineApi/Program.cs:124-142 | keeping the subscribers whose id is in the output gives exactly the output's set of ids, for every subscriber list |
| `QualificationProperties.FilterByOutputIsOutput` | MagazineApi/Program.cs:124-142 | with distinct subscriber ids, keeping the subscribers whose id is in the output gives the output again |
| `QualificationProperties.ExampleOnlyFullCoverageQualifies` | MagazineApi/Program.cs:128-138 | with Tech = {1} and Sports = {2}, subscribers holding [1, 2], [1] and [] give exactly the first one's id |
| `CatalogConstruction.BuildCatalog` | MagazineApi/Program.cs:27-32 | succeeds iff no category name repeats, and then maps each category to its own fetched list; otherwise fails naming the first category that repeats |
| `CatalogConstruction.CatalogOfLookup` | MagazineApi/Program.cs:28-31 | the built dictionary's keys are exactly the category names, and each name maps to the list fetched for it |
| `CatalogConstruction.QualifiesForCatalogOf` | MagazineApi/Program.cs:27-38 | qualifying for the built dictionary means holding a magazine of every fetched list |
| `CatalogConstruction.QualifiedForCatalogOfMembership` | MagazineApi/Program.cs:27-38 | an id is in the output for the built dictionary iff a subscriber with that id holds a magazine of every fetched list |
| `CatalogConstruction.QualifiedFromFetched` | MagazineApi/Program.cs:27-38 | building the dictionary and filtering succeeds iff no category repeats, and then yields the specification filter over the built dictionary; otherwise it fails naming the first category that repeats |

## Left out

- The HTTP calls (`GetTokenAsync`, `GetCategoriesAsync`, `GetMagazinesAsync`, `GetSubscribersAsync`, `SubmitAnswerAsync`) are network I/O. Their results are inputs to the model, and the submission is not modelled.
- JSON decoding (`JsonDocument`, `JsonSerializer`) and the "missing `data` gives null" branches are not modelled. They belong to a foreign library and only feed the I/O plumbing.
- The `async`/`await` sequencing of `Main` is not modelled. The calls are awaited one at a time, so there is no concurrency to model.
- Console output and request headers are not modelled.
- Null inputs are not modelled: a null category list, a null subscriber list, a null subscriber in it, a null `magazineIds`, a null fetched magazine list, a null magazine in it, or a null category name. Dafny values cannot be null. The program throws at once on a null category list (the `foreach` at Program.cs:28), a null category name (`Dictionary.Add` at Program.cs:31), a null subscriber list or subscriber, and a null `magazineIds` (Program.cs:128-130). A null fetched list or a null magazine is different: `Add` accepts a null value, and the program throws only when `All` reaches that category for some subscriber (Program.cs:132-133). With no subscribers, or when every subscriber has already failed an earlier category, it does not throw at all.
- The enumeration order of `Dictionary` is not modelled. The catalog is an unordered `map`, because the result of `All` does not depend on that order.
- `BuildCatalog` takes the fetched lists as a parallel sequence. It therefore does not model that the program fetches a repeated category's magazines a second time before `Add` throws.
