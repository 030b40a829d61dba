/**
 The zustand store of `src/store/index.ts`: state `{people, selectedPersonId}`
 (the shape of `src/types/AddressBook.d.ts`) and the four transitions
 `addPerson`, `removePerson`, `selectPerson` and `savePerson`, each a pure
 `set(state => ...)`. The id that `uuidv4()` would return inside `addPerson`
 is an explicit parameter.
 */
module Store {
  import opened Optional
  import opened PersonRecord
  import opened Collection

  datatype State = State(people: seq<Person>, selectedPersonId: Option<string>)

  /** The selection is null or names a record that is in the list. */
  predicate SelectionValid(s: State) {
    s.selectedPersonId.Some? ==> HasId(s.people, s.selectedPersonId.value)
  }

  /** The store's intended invariant: unique ids and a non-dangling selection. */
  predicate Valid(s: State) {
    UniqueIds(s.people) && SelectionValid(s)
  }

  /** The initial store: no people, nothing selected. */
  function Init(): (s: State)
    ensures |s.people| == 0 && s.selectedPersonId.None?
    ensures Valid(s)
  {
    State([], None)
  }

  /**
   `addPerson()`: append a blank record carrying the generated id and select
   it. The earlier records are untouched and the selection names the new one.
   */
  function AddPerson(s: State, id: string): (r: State)
    ensures |r.people| == |s.people| + 1
    ensures r.people[..|s.people|] == s.people
    ensures r.people[|s.people|].id == id && HasBlankFields(r.people[|s.people|])
    ensures r.selectedPersonId == Some(id)
    ensures SelectionValid(r)
  {
    var people := s.people + [NewPerson(id)];
    assert Ids(people)[|s.people|] == id;
    State(people, Some(id))
  }

  /**
   `removePerson(id)`: drop every record with that id, keep the rest with
   their multiplicities, and clear the selection whatever it was.
   */
  function RemovePerson(s: State, id: string): (r: State)
    ensures !HasId(r.people, id)
    ensures forall q :: multiset(r.people)[q] == if q.id == id then 0 else multiset(s.people)[q]
    ensures !HasId(s.people, id) ==> r.people == s.people
    ensures r.selectedPersonId.None?
  {
    WithoutIdRemovesAll(s.people, id);
    WithoutIdAbsent(s.people, id);
    State(WithoutId(s.people, id), None)
  }

  /**
   `removePerson` keeps relative order: the new list is the old one read at
   increasing positions, and these include every record without the id.
   */
  lemma RemovePersonKeepsOrder(s: State, id: string)
    ensures exists f :: SubsequenceAt(RemovePerson(s, id).people, s.people, f)
                     && CoversSurvivors(s.people, id, f)
  {
    var f := SurvivorIndices(s.people, id);
    assert SubsequenceAt(RemovePerson(s, id).people, s.people, f);
  }

  /** `selectPerson(x)`: only the selection changes, to exactly `x`. */
  function SelectPerson(s: State, x: Option<string>): (r: State)
    ensures r.people == s.people
    ensures r.selectedPersonId == x
  {
    s.(selectedPersonId := x)
  }

  /**
   `savePerson(person)`: every record whose id equals `person.id` becomes
   `person`, every other record stays, the length and the ids are unchanged,
   and the selection is cleared.
   */
  function SavePerson(s: State, person: Person): (r: State)
    ensures |r.people| == |s.people|
    ensures forall i :: 0 <= i < |s.people| ==>
      r.people[i] == if s.people[i].id == person.id then person else s.people[i]
    ensures Ids(r.people) == Ids(s.people)
    ensures r.selectedPersonId.None?
  {
    ReplaceByIdKeepsIds(s.people, person);
    State(ReplaceById(s.people, person), None)
  }

  /** `addPerson` keeps ids unique when the generated id is fresh. */
  lemma AddPersonKeepsValid(s: State, id: string)
    requires UniqueIds(s.people)
    requires !HasId(s.people, id)
    ensures Valid(AddPerson(s, id))
  {
    IdsSnoc(s.people, NewPerson(id));
    ArrayOps.DistinctSnoc(Ids(s.people), id);
  }

  /** A repeated id breaks uniqueness: freshness of the generated id is needed. */
  lemma AddPersonDuplicateId(s: State, id: string)
    requires HasId(s.people, id)
    ensures !UniqueIds(AddPerson(s, id).people)
  {
    var r := AddPerson(s, id);
    var k :| 0 <= k < |s.people| && Ids(s.people)[k] == id;
    assert Ids(r.people)[k] == id == Ids(r.people)[|s.people|];
  }

  /** `removePerson` keeps the store valid for any id, present or not. */
  lemma RemovePersonKeepsValid(s: State, id: string)
    requires UniqueIds(s.people)
    ensures Valid(RemovePerson(s, id))
  {
    WithoutIdKeepsUnique(s.people, id);
  }

  /** `savePerson` keeps the store valid for any record, matching or not. */
  lemma SavePersonKeepsValid(s: State, person: Person)
    requires UniqueIds(s.people)
    ensures Valid(SavePerson(s, person))
  {
  }

  /**
   `selectPerson` does not look the id up: selecting an id that no record
   carries leaves a dangling selection.
   */
  lemma SelectPersonMayDangle(s: State, id: string)
    requires !HasId(s.people, id)
    ensures !SelectionValid(SelectPerson(s, Some(id)))
  {
  }

  /** One user action on the store. */
  datatype Action =
    | Add(id: string)
    | Remove(removeId: string)
    | Select(selection: Option<string>)
    | Save(person: Person)

  function Step(s: State, a: Action): State {
    match a
    case Add(id) => AddPerson(s, id)
    case Remove(id) => RemovePerson(s, id)
    case Select(x) => SelectPerson(s, x)
    case Save(p) => SavePerson(s, p)
  }

  function Run(s: State, actions: seq<Action>): State
    decreases |actions|
  {
    if actions == [] then s else Run(Step(s, actions[0]), actions[1..])
  }

  /**
   The run respects the store's assumptions: each generated id is new to the
   list it is added to, and each selection names a record then present (as
   the list view does, by selecting a clicked person's id) or is null.
   */
  predicate Disciplined(s: State, actions: seq<Action>)
    decreases |actions|
  {
    actions == [] ||
    ((match actions[0]
      case Add(id) => !HasId(s.people, id)
      case Select(x) => x.Some? ==> HasId(s.people, x.value)
      case _ => true)
     && Disciplined(Step(s, actions[0]), actions[1..]))
  }

  /**
   Over any disciplined sequence of actions from a valid state, ids stay
   unique and the selection never dangles.
   */
  lemma {:induction false} RunKeepsValid(s: State, actions: seq<Action>)
    requires Valid(s)
    requires Disciplined(s, actions)
    ensures Valid(Run(s, actions))
    decreases |actions|
  {
    if actions != [] {
      match actions[0] {
        case Add(id) => AddPersonKeepsValid(s, id);
        case Remove(id) => RemovePersonKeepsValid(s, id);
        case Select(x) =>
        case Save(p) => SavePersonKeepsValid(s, p);
      }
      RunKeepsValid(Step(s, actions[0]), actions[1..]);
    }
  }

  /** The actions `addPerson` with each id of `ids`, in order. */
  function Adds(ids: seq<string>): (actions: seq<Action>)
    ensures |actions| == |ids|
    ensures forall i :: 0 <= i < |ids| ==> actions[i] == Add(ids[i])
  {
    seq(|ids|, i requires 0 <= i < |ids| => Add(ids[i]))
  }

  /**
   Each `addPerson` grows the list by exactly one record carrying its id, in
   call order, and the last one added is the selection.
   */
  lemma {:induction false} RunAdds(s: State, ids: seq<string>)
    ensures Run(s, Adds(ids)).people == s.people + seq(|ids|, i requires 0 <= i < |ids| => NewPerson(ids[i]))
    ensures |ids| > 0 ==> Run(s, Adds(ids)).selectedPersonId == Some(ids[|ids| - 1])
    decreases |ids|
  {
    if ids != [] {
      var s1 := AddPerson(s, ids[0]);
      assert Adds(ids)[1..] == Adds(ids[1..]);
      RunAdds(s1, ids[1..]);
    }
  }

  /**
   The scenario of a new contact being created, filled in and deleted:
   add gives one blank record, selected; saving fills it in and deselects;
   removing empties the list.
   */
  lemma AddSaveRemoveScenario(x: string)
    ensures AddPerson(Init(), x) == State([Person(x, "", "", "", "", "")], Some(x))
    ensures SavePerson(AddPerson(Init(), x), Person(x, "Ann", "", "", "", ""))
      == State([Person(x, "Ann", "", "", "", "")], None)
    ensures RemovePerson(SavePerson(AddPerson(Init(), x), Person(x, "Ann", "", "", "", "")), x)
      == State([], None)
  {
    var s2 := SavePerson(AddPerson(Init(), x), Person(x, "Ann", "", "", "", ""));
    assert s2.people == [Person(x, "Ann", "", "", "", "")];
    assert s2.people == [s2.people[0]] + s2.people[1..];
  }
}
