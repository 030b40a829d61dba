/**
 `src/types/AddressBook.ts` with `src/types/Person.ts`: the same
 `AddressBook` class over persons that get a generated id at construction.
 Identity in `removeContact` is still by reference; the ids are what the
 rest of the application keys on, so they should stay pairwise distinct.
 */
module IdBook {
  import opened Optional
  import opened ArrayOps
  import opened PersonRecord
  import opened Collection
  import opened ObjectBook

  /**
   `addContact()`: push a new `Person` whose id is `freshId` (what `uuidv4()`
   returned) and whose text fields are empty, then select it.
   */
  function AddContact(w: World<Person>, freshId: string): (r: World<Person>)
    ensures |r.book.people| == |w.book.people| + 1
    ensures r.book.people[..|w.book.people|] == w.book.people
    ensures r.book.selectedPerson == Some(r.book.people[|w.book.people|])
    ensures |r.objects| == |w.objects| + 1 && r.objects[..|w.objects|] == w.objects
    ensures r.book.people[|w.book.people|] == |w.objects|
    ensures r.objects[|w.objects|].id == freshId && HasBlankFields(r.objects[|w.objects|])
  {
    ObjectBook.AddContact(w, NewPerson(freshId))
  }

  /** The person records the array refers to, in array order. */
  function Persons(w: World<Person>): seq<Person>
    requires Valid(w)
  {
    seq(|w.book.people|, i requires 0 <= i < |w.book.people| => w.objects[w.book.people[i]])
  }

  /** The ids of the persons in the array, in array order. */
  function IdsOf(w: World<Person>): seq<string>
    requires Valid(w)
  {
    Ids(Persons(w))
  }

  /**
   The book is well formed and the persons in its array have pairwise
   distinct ids (the collection invariant of the store, over references).
   */
  predicate IdsUniqueAndValid(w: World<Person>) {
    Valid(w) && UniqueIds(Persons(w))
  }

  /** `addContact` with an id new to the array keeps ids unique. */
  lemma AddContactKeepsIdsUnique(w: World<Person>, freshId: string)
    requires IdsUniqueAndValid(w)
    requires freshId !in IdsOf(w)
    ensures IdsUniqueAndValid(AddContact(w, freshId))
  {
    var r := AddContact(w, freshId);
    AddContactKeepsValid(w, NewPerson(freshId));
    assert IdsOf(r) == IdsOf(w) + [freshId] by {
      forall i | 0 <= i < |w.book.people| ensures IdsOf(r)[i] == IdsOf(w)[i] {
        assert r.book.people[i] == w.book.people[i];
        assert r.objects[w.book.people[i]] == w.objects[w.book.people[i]];
      }
    }
    DistinctSnoc(IdsOf(w), freshId);
  }

  /** Splicing a reference out of the array splices its id out of the ids. */
  lemma IdsOfSplice(w: World<Person>, r: World<Person>, i: int)
    requires Valid(w) && Valid(r)
    requires r.objects == w.objects
    requires 0 <= i < |w.book.people|
    requires r.book.people == Splice(w.book.people, i)
    ensures IdsOf(r) == Splice(IdsOf(w), i)
  {
    var ids, ids' := IdsOf(w), IdsOf(r);
    forall k | 0 <= k < |ids'| ensures ids'[k] == Splice(ids, i)[k] {
      var k' := if k < i then k else k + 1;
      assert r.book.people[k] == w.book.people[k'];
    }
  }

  /** `removeContact` of any object keeps ids unique. */
  lemma RemoveContactKeepsIdsUnique(w: World<Person>, person: Handle)
    requires IdsUniqueAndValid(w)
    ensures IdsUniqueAndValid(RemoveContact(w, person))
  {
    RemoveContactKeepsValid(w, person);
    if person in w.book.people {
      var index := IndexOf(w.book.people, person);
      IdsOfSplice(w, RemoveContact(w, person), index);
      SpliceKeepsDistinct(IdsOf(w), index);
    }
  }

  /** One call on the book. */
  datatype Op = Add(freshId: string) | Remove(person: Handle)

  function Step(w: World<Person>, op: Op): World<Person> {
    match op
    case Add(id) => AddContact(w, id)
    case Remove(h) => RemoveContact(w, h)
  }

  function Run(w: World<Person>, ops: seq<Op>): World<Person>
    decreases |ops|
  {
    if ops == [] then w else Run(Step(w, ops[0]), ops[1..])
  }

  /** Every `addContact` in the run is given an id new to the array. */
  predicate FreshAdds(w: World<Person>, ops: seq<Op>)
    decreases |ops|
  {
    ops == [] ||
    ((ops[0].Add? ==> Valid(w) && ops[0].freshId !in IdsOf(w))
     && FreshAdds(Step(w, ops[0]), ops[1..]))
  }

  /**
   If every `addContact` is given a fresh id, the ids in the array stay
   pairwise distinct across any sequence of `addContact`/`removeContact`.
   */
  lemma {:induction false} RunKeepsIdsUnique(w: World<Person>, ops: seq<Op>)
    requires IdsUniqueAndValid(w)
    requires FreshAdds(w, ops)
    ensures IdsUniqueAndValid(Run(w, ops))
    decreases |ops|
  {
    if ops != [] {
      match ops[0] {
        case Add(id) => AddContactKeepsIdsUnique(w, id);
        case Remove(h) => RemoveContactKeepsIdsUnique(w, h);
      }
      RunKeepsIdsUnique(Step(w, ops[0]), ops[1..]);
    }
  }
}
