/**
  The records the magazine store returns, and the shapes the qualification
  step works on (Program.cs, classes Magazine and Subscriber, and the
  category-to-magazines dictionary built in Main).
 */
module MagazineTypes {

  /** A magazine of the store: its numeric id, its title and its category name. */
  datatype Magazine = Magazine(id: int, name: string, category: string)

  /** A subscriber and the ids of the magazines they subscribe to, as listed
      (the list may repeat an id; the order is the order the store sends). */
  datatype Subscriber = Subscriber(id: string, firstName: string, lastName: string, magazineIds: seq<int>)

  /** Category name to the magazines fetched for that category. */
  type Catalog = map<string, seq<Magazine>>

  /** What `Dictionary.Add` throws when a key is already present. */
  datatype BuildError = DuplicateCategory(category: string)

  datatype Result<T> = Success(value: T) | Failure(error: BuildError)

  /** The ids of a subscriber list, position by position. */
  function Ids(subs: seq<Subscriber>): seq<string>
  {
    seq(|subs|, j requires 0 <= j < |subs| => subs[j].id)
  }

  /** No element occurs twice. */
  ghost predicate Distinct<T>(s: seq<T>)
  {
    forall i, j :: 0 <= i < j < |s| ==> s[i] != s[j]
  }
}
