/**
 The id-bearing contact record of `src/types/Person.ts`: a generated `id`
 plus five free-text fields. The same shape is the element type of the store.
 */
module PersonRecord {

  datatype Person = Person(
    id: string,
    name: string,
    email: string,
    phone: string,
    address: string,
    notes: string)

  /** All five text fields are empty strings. */
  predicate HasBlankFields(p: Person) {
    p.name == "" && p.email == "" && p.phone == "" && p.address == "" && p.notes == ""
  }

  /**
   `new Person()`. The constructor takes no arguments; the value `uuidv4()`
   would produce is the parameter `freshId`, so the id is never the caller's
   choice of a field value but whatever the generator yields.
   The result is the one and only blank record carrying that id.
   */
  function NewPerson(freshId: string): (p: Person)
    ensures p.id == freshId
    ensures HasBlankFields(p)
    ensures forall q: Person :: q.id == freshId && HasBlankFields(q) ==> q == p
  {
    Person(freshId, "", "", "", "", "")
  }

  /**
   Two freshly constructed persons agree on every text field: only the id can
   tell them apart, and they are equal exactly when the ids are.
   */
  lemma NewPersonsDifferOnlyInId(a: string, b: string)
    ensures NewPerson(a).(id := b) == NewPerson(b)
    ensures NewPerson(a) == NewPerson(b) <==> a == b
  {
  }
}
