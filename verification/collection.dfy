/**
 The two whole-list updates the store performs on its ordered `people`
 array, keyed by id: `filter(person => person.id !== id)` and
 `map(p => p.id === person.id ? person : p)`, with the id-uniqueness
 invariant they preserve.
 */
module Collection {
  import opened ArrayOps
  import opened PersonRecord

  /** The ids of `people`, in display order. */
  function Ids(people: seq<Person>): seq<string> {
    seq(|people|, i requires 0 <= i < |people| => people[i].id)
  }

  /** Some record in `people` carries `id`. */
  predicate HasId(people: seq<Person>, id: string) {
    id in Ids(people)
  }

  /** No id occurs twice: the collection invariant of the address book. */
  predicate UniqueIds(people: seq<Person>) {
    Distinct(Ids(people))
  }

  lemma IdsCons(p: Person, people: seq<Person>)
    ensures Ids([p] + people) == [p.id] + Ids(people)
  {
  }

  lemma IdsSnoc(people: seq<Person>, p: Person)
    ensures Ids(people + [p]) == Ids(people) + [p.id]
  {
  }

  /**
   `people.filter(person => person.id !== id)`: every record with that id is
   dropped, every other record keeps its multiplicity.
   */
  function WithoutId(people: seq<Person>, id: string): (r: seq<Person>)
    ensures |r| <= |people|
    ensures forall q :: multiset(r)[q] == if q.id == id then 0 else multiset(people)[q]
  {
    if people == [] then []
    else
      assert people == [people[0]] + people[1..];
      if people[0].id == id then WithoutId(people[1..], id)
      else [people[0]] + WithoutId(people[1..], id)
  }

  /** After filtering, no record carries the id. */
  lemma WithoutIdRemovesAll(people: seq<Person>, id: string)
    ensures !HasId(WithoutId(people, id), id)
  {
    var r := WithoutId(people, id);
    forall i | 0 <= i < |r| ensures r[i].id != id {
      assert r[i] in multiset(r);
    }
  }

  /**
   Filtering keeps relative order: it distributes over concatenation, so the
   survivors of an earlier segment stay in front of those of a later one.
   */
  lemma {:induction false} WithoutIdAppend(a: seq<Person>, b: seq<Person>, id: string)
    ensures WithoutId(a + b, id) == WithoutId(a, id) + WithoutId(b, id)
  {
    if a == [] {
      assert a + b == b;
    } else {
      assert (a + b)[1..] == a[1..] + b;
      WithoutIdAppend(a[1..], b, id);
    }
  }

  /**
   `r` is `s` read at the strictly increasing positions `f`: `r` keeps the
   relative order those elements have in `s`.
   */
  predicate SubsequenceAt(r: seq<Person>, s: seq<Person>, f: seq<nat>) {
    && |f| == |r|
    && (forall k :: 0 <= k < |f| ==> f[k] < |s| && r[k] == s[f[k]])
    && (forall k, l :: 0 <= k < l < |f| ==> f[k] < f[l])
  }

  /** Every position moved one to the right. */
  function Shift(g: seq<nat>): (h: seq<nat>)
    ensures |h| == |g| && forall k :: 0 <= k < |g| ==> h[k] == g[k] + 1
  {
    seq(|g|, k requires 0 <= k < |g| => g[k] + 1)
  }

  /** Every position whose record lacks the id is listed in `f`. */
  predicate CoversSurvivors(people: seq<Person>, id: string, f: seq<nat>) {
    forall i :: 0 <= i < |people| && people[i].id != id ==> i in f
  }

  /** Positions into the tail, moved right by one, are positions into the whole. */
  lemma SubsequenceShift(r: seq<Person>, people: seq<Person>, g: seq<nat>)
    requires people != []
    requires SubsequenceAt(r, people[1..], g)
    ensures SubsequenceAt(r, people, Shift(g))
    ensures SubsequenceAt([people[0]] + r, people, [0] + Shift(g))
  {
    var h := Shift(g);
    forall k | 0 <= k < |h| ensures h[k] < |people| && r[k] == people[h[k]] {
      assert r[k] == people[1..][g[k]];
    }
    var r', f' := [people[0]] + r, [0] + h;
    forall k | 0 <= k < |f'| ensures f'[k] < |people| && r'[k] == people[f'[k]] {
      if k > 0 {
        assert r'[k] == r[k - 1] && f'[k] == h[k - 1];
      }
    }
    forall k, l | 0 <= k < l < |f'| ensures f'[k] < f'[l] {
      if k > 0 {
        assert f'[k] == h[k - 1] && f'[l] == h[l - 1];
      }
    }
  }

  /** Covering the tail's survivors, shifted, covers every survivor but the head. */
  lemma CoversShift(people: seq<Person>, id: string, g: seq<nat>)
    requires people != []
    requires CoversSurvivors(people[1..], id, g)
    ensures people[0].id == id ==> CoversSurvivors(people, id, Shift(g))
    ensures CoversSurvivors(people, id, [0] + Shift(g))
  {
    var h := Shift(g);
    forall i | 1 <= i < |people| && people[i].id != id ensures i in h {
      assert people[1..][i - 1] == people[i];
      var k :| 0 <= k < |g| && g[k] == i - 1;
      assert h[k] == i;
    }
  }

  /**
   The positions of the records that survive the filter, in increasing
   order: the result of `WithoutId` is `people` read at these positions, and
   every position whose record lacks the id is among them.
   */
  function SurvivorIndices(people: seq<Person>, id: string): (f: seq<nat>)
    ensures SubsequenceAt(WithoutId(people, id), people, f)
    ensures CoversSurvivors(people, id, f)
  {
    if people == [] then []
    else
      var g := SurvivorIndices(people[1..], id);
      var w := WithoutId(people[1..], id);
      SubsequenceShift(w, people, g);
      CoversShift(people, id, g);
      if people[0].id == id then
        assert WithoutId(people, id) == w;
        Shift(g)
      else
        assert WithoutId(people, id) == [people[0]] + w;
        [0] + Shift(g)
  }

  /** Filtering on an id nobody has changes nothing. */
  lemma {:induction false} WithoutIdAbsent(people: seq<Person>, id: string)
    ensures !HasId(people, id) ==> WithoutId(people, id) == people
  {
    if people != [] && !HasId(people, id) {
      assert people[0].id == Ids(people)[0];
      IdsCons(people[0], people[1..]);
      assert people == [people[0]] + people[1..];
      WithoutIdAbsent(people[1..], id);
    }
  }

  /** Filtering keeps ids unique. */
  lemma {:induction false} WithoutIdKeepsUnique(people: seq<Person>, id: string)
    requires UniqueIds(people)
    ensures UniqueIds(WithoutId(people, id))
  {
    if people != [] {
      var p, rest := people[0], people[1..];
      assert people == [p] + rest;
      IdsCons(p, rest);
      DistinctCons(p.id, Ids(rest));
      WithoutIdKeepsUnique(rest, id);
      if p.id != id {
        var w := WithoutId(rest, id);
        forall k | 0 <= k < |w| ensures w[k].id != p.id {
          assert w[k] in multiset(w);
          assert w[k] in multiset(rest);
          assert w[k] in rest;
          var m :| 0 <= m < |rest| && rest[m] == w[k];
          assert Ids(rest)[m] == w[k].id;
        }
        assert p.id !in Ids(w);
        IdsCons(p, w);
        DistinctCons(p.id, Ids(w));
      }
    }
  }

  /**
   `people.map(p => p.id === person.id ? person : p)`: same length, and each
   position holds `person` where the id matches and the old record elsewhere.
   */
  function ReplaceById(people: seq<Person>, person: Person): (r: seq<Person>)
    ensures |r| == |people|
    ensures forall i :: 0 <= i < |people| ==>
      r[i] == if people[i].id == person.id then person else people[i]
  {
    if people == [] then []
    else
      [if people[0].id == person.id then person else people[0]]
      + ReplaceById(people[1..], person)
  }

  /** Replacing by id never changes the id at any position. */
  lemma ReplaceByIdKeepsIds(people: seq<Person>, person: Person)
    ensures Ids(ReplaceById(people, person)) == Ids(people)
    ensures UniqueIds(people) ==> UniqueIds(ReplaceById(people, person))
    ensures forall id :: HasId(ReplaceById(people, person), id) <==> HasId(people, id)
  {
    var r := ReplaceById(people, person);
    assert Ids(r) == Ids(people);
  }

  /** Saving a record whose id nobody has changes nothing. */
  lemma ReplaceByIdAbsent(people: seq<Person>, person: Person)
    requires !HasId(people, person.id)
    ensures ReplaceById(people, person) == people
  {
    var r := ReplaceById(people, person);
    forall i | 0 <= i < |people| ensures r[i] == people[i] {
      assert Ids(people)[i] == people[i].id;
    }
  }

  /**
   With unique ids, saving a record whose id sits at index `i` overwrites
   exactly that one position.
   */
  lemma ReplaceByIdExactlyOne(people: seq<Person>, person: Person, i: int)
    requires UniqueIds(people)
    requires 0 <= i < |people| && people[i].id == person.id
    ensures ReplaceById(people, person) == people[i := person]
  {
    var r := ReplaceById(people, person);
    forall k | 0 <= k < |people| ensures r[k] == people[i := person][k] {
      if k != i {
        assert Ids(people)[k] != Ids(people)[i];
      }
    }
  }
}
