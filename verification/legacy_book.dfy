/**
 `src/types.ts`: the earlier `AddressBook` class over a `Person` class that
 has no id, so the only way to tell two contacts apart is object identity.
 */
module LegacyBook {
  import opened Optional
  import opened ArrayOps
  import opened ObjectBook

  /** The id-less `Person` class: five text fields. */
  datatype Person = Person(name: string, email: string, phone: string, address: string, notes: string)

  /** `new Person()`: every text field is the empty string. */
  function NewPerson(): (p: Person)
    ensures p.name == "" && p.email == "" && p.phone == "" && p.address == "" && p.notes == ""
  {
    Person("", "", "", "", "")
  }

  /**
   `addContact()`: push a new blank `Person` object and select it; the
   selection refers to the newly allocated object.
   */
  function AddContact(w: World<Person>): (r: World<Person>)
    ensures |r.book.people| == |w.book.people| + 1
    ensures r.book.people[..|w.book.people|] == w.book.people
    ensures r.book.people[|w.book.people|] == |w.objects|
    ensures r.book.selectedPerson == Some(|w.objects|)
    ensures |r.objects| == |w.objects| + 1 && r.objects[..|w.objects|] == w.objects
    ensures r.objects[|w.objects|] == NewPerson()
  {
    ObjectBook.AddContact(w, NewPerson())
  }

  /** Removing either of two distinct objects appended last removes only it. */
  lemma RemoveFromTail(people: seq<Handle>, a: Handle, b: Handle)
    requires a != b && a !in people && b !in people
    ensures RemoveFirst(people + [a, b], a) == people + [b]
    ensures RemoveFirst(people + [a, b], b) == people + [a]
  {
    var s := people + [a, b];
    assert s[|people|] == a && s[..|people|] == people;
    assert IndexOf(s, a) == |people|;
    assert s[|people| + 1] == b && s[..|people| + 1] == people + [a];
    assert IndexOf(s, b) == |people| + 1;
  }

  /**
   Identity is by reference: after two `addContact` calls the two new
   objects are equal as values, yet `removeContact` of either one removes
   that object and keeps the other.
   */
  lemma RemoveIsByReference(w: World<Person>)
    requires Valid(w)
    ensures var w2 := AddContact(AddContact(w));
      var a, b := |w.objects|, |w.objects| + 1;
      && w2.objects[a] == w2.objects[b]
      && RemoveContact(w2, a).book.people == w.book.people + [b]
      && RemoveContact(w2, b).book.people == w.book.people + [a]
  {
    var a, b := |w.objects|, |w.objects| + 1;
    var w2 := AddContact(AddContact(w));
    AddContactKeepsValid(w, NewPerson());
    assert w2.book.people == w.book.people + [a, b];
    RemoveFromTail(w.book.people, a, b);
  }
}
