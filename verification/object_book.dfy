/**
 The `AddressBook` class body, written identically in `src/types.ts` and
 `src/types/AddressBook.ts`: a mutable `people` array of object references
 and a `selectedPerson` reference, with `addContact` and `removeContact`.

 JavaScript objects are compared by reference (`indexOf` uses `===`), so a
 person is a `Handle`: the creation index of the object in `objects`, the
 sequence of every person object allocated so far. Two blank persons are
 equal values yet distinct handles. The model is generic in the person type
 `P` so that both source files instantiate it with their own `Person`.
 */
module ObjectBook {
  import opened Optional
  import opened ArrayOps

  /** A reference to a person object: its position in the allocation order. */
  type Handle = nat

  datatype AddressBook = AddressBook(selectedPerson: Option<Handle>, people: seq<Handle>)

  /** The heap of person objects together with the address book over it. */
  datatype World<P> = World(objects: seq<P>, book: AddressBook)

  /**
   Every reference is to an allocated object, and the array never holds the
   same object twice.
   */
  predicate Valid<P>(w: World<P>) {
    && (forall i :: 0 <= i < |w.book.people| ==> w.book.people[i] < |w.objects|)
    && Distinct(w.book.people)
    && (w.book.selectedPerson.Some? ==> w.book.selectedPerson.value < |w.objects|)
  }

  /** `new AddressBook()`: an empty array and an undefined selection. */
  function Construct<P>(objects: seq<P>): (w: World<P>)
    ensures w.objects == objects
    ensures |w.book.people| == 0 && w.book.selectedPerson.None?
    ensures Valid(w)
  {
    World(objects, AddressBook(None, []))
  }

  /**
   `addContact()`: allocate a new person object (`blank` is its initial
   value), push its reference, and select the last element of the array,
   which is that new object. Nothing allocated before changes.
   */
  function AddContact<P>(w: World<P>, blank: P): (r: World<P>)
    ensures |r.objects| == |w.objects| + 1
    ensures r.objects[..|w.objects|] == w.objects && r.objects[|w.objects|] == blank
    ensures |r.book.people| == |w.book.people| + 1
    ensures r.book.people[..|w.book.people|] == w.book.people
    ensures r.book.people[|w.book.people|] == |w.objects|
    ensures r.book.selectedPerson == Some(r.book.people[|r.book.people| - 1])
  {
    var people := w.book.people + [|w.objects|];
    World(w.objects + [blank], AddressBook(Some(people[|people| - 1]), people))
  }

  /**
   `addContact` keeps the book valid: the pushed reference is to an object
   no element of the array referred to before.
   */
  lemma AddContactKeepsValid<P>(w: World<P>, blank: P)
    requires Valid(w)
    ensures Valid(AddContact(w, blank))
    ensures |w.objects| !in w.book.people
  {
    DistinctSnoc(w.book.people, |w.objects|);
  }

  /**
   `removeContact(person)`: splice out the first element that is the very
   same object, if any; the objects and the selection are left alone, even
   when the removed object was the selected one.
   */
  function RemoveContact<P>(w: World<P>, person: Handle): (r: World<P>)
    ensures r.objects == w.objects
    ensures r.book.selectedPerson == w.book.selectedPerson
    ensures person !in w.book.people ==> r.book.people == w.book.people
    ensures person in w.book.people ==>
      var index := IndexOf(w.book.people, person);
      && |r.book.people| == |w.book.people| - 1
      && r.book.people[..index] == w.book.people[..index]
      && r.book.people[index..] == w.book.people[index + 1..]
  {
    World(w.objects, w.book.(people := RemoveFirst(w.book.people, person)))
  }

  /**
   `removeContact` keeps the book valid, and the removed object is no longer
   in the array.
   */
  lemma RemoveContactKeepsValid<P>(w: World<P>, person: Handle)
    requires Valid(w)
    ensures Valid(RemoveContact(w, person))
    ensures person !in RemoveContact(w, person).book.people
  {
    RemoveFirstDistinct(w.book.people, person);
    var r := RemoveContact(w, person).book.people;
    forall k | 0 <= k < |r| ensures r[k] < |w.objects| {
      assert r[k] in multiset(r);
      assert r[k] in w.book.people;
    }
  }

  /**
   Removing the selected contact leaves `selectedPerson` referring to an
   object that is no longer in the array.
   */
  lemma RemoveSelectedLeavesStaleSelection<P>(w: World<P>)
    requires Valid(w)
    requires w.book.selectedPerson.Some? && w.book.selectedPerson.value in w.book.people
    ensures var r := RemoveContact(w, w.book.selectedPerson.value);
      r.book.selectedPerson == w.book.selectedPerson
      && r.book.selectedPerson.value !in r.book.people
  {
    RemoveContactKeepsValid(w, w.book.selectedPerson.value);
  }
}
