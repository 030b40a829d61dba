# Address-book state logic in Dafny

This project models the client-side state of a small address-book web
application. The state is an ordered list of contact records plus an optional
selection. The repository holds it in three places, and each has its own
module here:

- **The zustand store** (`src/store/index.ts`). Its state is
  `{people, selectedPersonId}`, the shape declared in
  `src/types/AddressBook.d.ts`. It has four pure transitions: `addPerson`,
  `removePerson`, `selectPerson` and `savePerson`. Module `Store` models them.
  It uses the by-id list operations of module `Collection`: `filter` becomes
  `WithoutId` and `map` becomes `ReplaceById`.
- **The earlier `AddressBook` class** (`src/types.ts`). It has a mutable array
  of `Person` objects that carry no id, and a `selectedPerson` reference.
  Module `LegacyBook` models it.
- **The id-bearing `AddressBook` class** (`src/types/AddressBook.ts` with
  `src/types/Person.ts`). Each `Person` gets a `uuidv4()` id when it is
  constructed. Module `IdBook` models it. Module `PersonRecord` models the
  record.

The two classes have the same body, so it is modelled once, in `ObjectBook`.
Its constructor and `removeContact` are used directly by both class models.
That module is generic in the person type. `indexOf` compares objects by
reference, so a person there is a `Handle`: the creation index of the object
in `World.objects`, which is every person object allocated so far. Two blank
persons are equal values but different handles. `ArrayOps` models
`indexOf` and `splice(index, 1)`. `Optional` stands for `null`/`undefined`.

Id generation (`uuidv4()`) becomes a parameter (`id` / `freshId`). The
transitions accept any id, as the code does. Freshness appears only as a
precondition of the lemmas about id uniqueness.

The documented design says the selection is always null or the id of a
listed record. The code does not enforce this in `selectPerson`: it stores
whatever id it is given. The model follows the code.
`Store.SelectPersonMayDangle` shows the gap. `Store.RunKeepsValid` proves the
invariant for runs in which every selection names a listed record, which is
what the list view does.

## Model

| member | source | states |
|---|---|---|
| ArrayOps.IndexOf | src/types.ts:13 | `indexOf` returns -1 exactly when the object is absent; otherwise it returns an index holding it with no earlier occurrence |
| ArrayOps.Splice | src/types.ts:15 | `splice(index, 1)` shortens the array by one, keeps the elements before `index`, shifts the later ones down, and removes one copy of the element |
| ArrayOps.RemoveFirst | src/types.ts:13-16 | an absent object leaves the array unchanged; a present one removes exactly one copy of it, so the length drops by one |
| ArrayOps.RemoveFirstIsDeleteFirst | src/types.ts:13-16 | `indexOf` followed by `splice` equals an independent front-to-back "delete the first occurrence" |
| ArrayOps.RemoveFirstDistinct | src/types/AddressBook.ts:14-19 | on an array without repeats, removal keeps it without repeats and the removed object is gone |
| PersonRecord.NewPerson | src/types/Person.ts:10-17 | a new `Person` has the generated id and five empty text fields, and it is the only such record |
| PersonRecord.NewPersonsDifferOnlyInId | src/types/Person.ts:11-16 | two new persons agree on all five text fields; they are equal exactly when their ids are |
| Collection.WithoutId | src/store/index.ts:25 | `filter(person.id !== id)` removes every record with the id and keeps every other record with its multiplicity |
| Collection.WithoutIdRemovesAll | src/store/index.ts:25 | no record with the removed id remains |
| Collection.WithoutIdAppend | src/store/index.ts:25 | filtering distributes over concatenation, so relative order is kept |
| Collection.SurvivorIndices | src/store/index.ts:25 | the filtered list is the old list read at strictly increasing positions, and these include every record without the id |
| Collection.WithoutIdAbsent | src/store/index.ts:25 | filtering on an id that no record has returns the list unchanged |
| Collection.WithoutIdKeepsUnique | src/store/index.ts:25 | filtering keeps ids pairwise distinct |
| Collection.ReplaceById | src/store/index.ts:34 | `map` keeps the length; each index holds the saved record when the ids match and the old record otherwise |
| Collection.ReplaceByIdKeepsIds | src/store/index.ts:34 | replacing by id keeps the id list, id uniqueness and id membership unchanged |
| Collection.ReplaceByIdAbsent | src/store/index.ts:34 | saving a record whose id is not in the list changes nothing |
| Collection.ReplaceByIdExactlyOne | src/store/index.ts:34 | with unique ids, saving overwrites exactly the one index with that id |
| Store.Init | src/store/index.ts:11-12 | the store starts with no people and no selection, which satisfies the invariant |
| Store.AddPerson | src/store/index.ts:13-22 | `addPerson` appends one blank record with the new id, keeps the prefix, and selects the new id, which is in the list |
| Store.RemovePerson | src/store/index.ts:23-28 | `removePerson` leaves no record with the id and keeps the others; an absent id leaves the list unchanged; the selection always becomes null |
| Store.RemovePersonKeepsOrder | src/store/index.ts:25 | `removePerson` keeps the surviving records in their original relative order, and every record without the id survives |
| Store.SelectPerson | src/store/index.ts:29-31 | `selectPerson` sets the selection to exactly its argument and leaves `people` untouched |
| Store.SavePerson | src/store/index.ts:32-37 | `savePerson` keeps the length and ids; each index holds the saved record when the ids match and the old record otherwise; the selection becomes null |
| Store.AddPersonKeepsValid | src/store/index.ts:13-22 | with a fresh id, `addPerson` keeps ids unique and the selection valid |
| Store.AddPersonDuplicateId | src/store/index.ts:14-20 | with an id already in the list, `addPerson` breaks id uniqueness |
| Store.RemovePersonKeepsValid | src/store/index.ts:23-28 | `removePerson` keeps ids unique and the selection valid, whatever the id |
| Store.SavePersonKeepsValid | src/store/index.ts:32-37 | `savePerson` keeps ids unique and the selection valid, whatever the record |
| Store.SelectPersonMayDangle | src/store/index.ts:29-31 | selecting an id that no record carries leaves a dangling selection |
| Store.RunKeepsValid | src/store/index.ts:10-38 | any run that adds only fresh ids and selects only listed ids or null keeps the store valid |
| Store.RunAdds | src/store/index.ts:13-22 | a sequence of `addPerson` calls, possibly empty, appends one blank record per call in call order; a non-empty one selects the last id |
| Store.AddSaveRemoveScenario | src/store/index.ts:13-37 | from empty: add gives `[blank X]` with X selected; saving "Ann" gives `[Ann]` with nothing selected; removing X gives `[]` |
| ObjectBook.Construct | src/types/AddressBook.ts:6-9 | a new address book (in either class) has an empty array and an undefined selection, and is well formed |
| ObjectBook.AddContact | src/types/AddressBook.ts:10-13 | `addContact` allocates one object with the blank value, pushes its reference after the unchanged prefix, and selects the last element |
| ObjectBook.AddContactKeepsValid | src/types/AddressBook.ts:10-13 | the pushed reference is new to the array, so the book stays well formed |
| ObjectBook.RemoveContact | src/types/AddressBook.ts:14-19 | `removeContact` splices out the first element that is the same object, or does nothing when it is absent; objects and selection are untouched |
| ObjectBook.RemoveContactKeepsValid | src/types/AddressBook.ts:14-19 | removal keeps the book well formed, and the removed object no longer appears in the array |
| ObjectBook.RemoveSelectedLeavesStaleSelection | src/types/AddressBook.ts:14-19 | removing the selected contact leaves `selectedPerson` pointing at an object that is not in the array |
| LegacyBook.NewPerson | src/types.ts:25-31 | the id-less `Person` starts with all five text fields empty |
| LegacyBook.AddContact | src/types.ts:8-11 | `addContact` allocates exactly one new blank object and leaves every earlier object unchanged; it grows the array by one, keeps the prefix, pushes the new object and selects it |
| LegacyBook.RemoveIsByReference | src/types.ts:12-17 | after two `addContact` calls the new objects are equal values, yet removing either removes only that object |
| IdBook.AddContact | src/types/AddressBook.ts:10-13 | `addContact` allocates exactly one new person, with the generated id and blank fields, and leaves every earlier person unchanged; it appends that person after the unchanged prefix and selects it |
| IdBook.AddContactKeepsIdsUnique | src/types/AddressBook.ts:10-13 | `addContact` with an id that is new to the array keeps ids pairwise distinct |
| IdBook.RemoveContactKeepsIdsUnique | src/types/AddressBook.ts:14-19 | `removeContact` of any object keeps ids pairwise distinct |
| IdBook.RunKeepsIdsUnique | src/types/AddressBook.ts:10-19 | any run of `addContact`/`removeContact` with fresh ids keeps ids pairwise distinct |

## Left out

- `uuidv4()`: it is a random source outside the code. The value it returns is a parameter, and its uniqueness is assumed only where a lemma says so.
- The remote data service: the tRPC router, Prisma calls, `load()` and the loading flag. The store in `src/store/index.ts` makes no network calls, and the router's behaviour lives in a database that is not part of this model. The load round trip therefore has no counterpart here.
- zustand subscription and re-render notification, and the unused `get` argument of the store factory: this is framework machinery, not state logic.
- Field edits made by the UI on `Person` objects of the class-based books (`src/pages/index-new.tsx`, `pages/index.tsx`): these are outside the classes, so `World.objects` never changes after allocation.
- React and Next rendering, headlessui widgets and `classNames`: presentation code only.
