/**
 * BiMapsDemo: the three-field records grouped by age, and a nested table age -> gender -> records
 * built record by record with `computeIfAbsent(age, HashMap::new)` and `merge(gender, [person],
 * addAll)`.
 */
module BiMapsDemo {
  import opened Wrappers
  import opened Domain
  import opened Loading
  import opened MapSums
  import opened CollectorsReductionDemo
  import PersonUtil

  /** The key of an inner map: a record's gender, `None` for a gender that was never set. */
  type Gender = Option<string>

  /** A `Map<Integer, Map<String, List<Person>>>` as a value. */
  type BiMap = map<int, map<Gender, seq<Person>>>

  /** The genders that occur among the records of age `a`. */
  function GendersWithAge(ps: seq<Person>, a: int): set<Gender>
  {
    set p | p in ps && p.age == a :: p.gender
  }

  /** The records of age `a` and gender `g`, in list order. */
  function WithAgeAndGender(ps: seq<Person>, a: int, g: Gender): (r: seq<Person>)
    ensures forall p :: p in r <==> p in ps && p.age == a && p.gender == g
    ensures g !in GendersWithAge(ps, a) ==> r == []
    decreases |ps|
  {
    if ps == [] then []
    else
      var last := ps[|ps| - 1];
      assert ps == ps[..|ps| - 1] + [last];
      var r := WithAgeAndGender(ps[..|ps| - 1], a, g);
      if last.age == a && last.gender == g then r + [last] else r
  }

  /** The records of gender `g` among `s`, in order. */
  function WithGender(s: seq<Person>, g: Gender): (r: seq<Person>)
    ensures forall p :: p in r <==> p in s && p.gender == g
    decreases |s|
  {
    if s == [] then []
    else
      assert s == s[..|s| - 1] + [s[|s| - 1]];
      var r := WithGender(s[..|s| - 1], g);
      if s[|s| - 1].gender == g then r + [s[|s| - 1]] else r
  }

  /**
   * One step of the loop on a table: the age's inner map is created if absent, and the record is
   * appended to the list of its gender, which is created if absent.
   */
  function AddRecord(m: BiMap, p: Person): (r: BiMap)
    ensures r.Keys == m.Keys + {p.age}
    ensures r[p.age].Keys == (if p.age in m then m[p.age].Keys else {}) + {p.gender}
  {
    var inner := if p.age in m then m[p.age] else map[];
    var list := if p.gender in inner then inner[p.gender] + [p] else [p];
    m[p.age := inner[p.gender := list]]
  }

  /** The table the loop builds from the records in list order. */
  function BiMapOf(ps: seq<Person>): (m: BiMap)
    ensures ps != [] <==> m != map[]
    decreases |ps|
  {
    if ps == [] then map[] else AddRecord(BiMapOf(ps[..|ps| - 1]), ps[|ps| - 1])
  }

  /** The loop's step on a prefix of the records. */
  lemma BiMapOfStep(ps: seq<Person>, i: int)
    requires 0 <= i < |ps|
    ensures BiMapOf(ps[..i + 1]) == AddRecord(BiMapOf(ps[..i]), ps[i])
  {
    assert ps[..i + 1][..i] == ps[..i];
  }

  /** The ages of a non-empty list: those of all but the last record, and the last record's. */
  lemma AgesLast(ps: seq<Person>)
    requires ps != []
    ensures Ages(ps) == Ages(ps[..|ps| - 1]) + {ps[|ps| - 1].age}
  {
    assert ps == ps[..|ps| - 1] + [ps[|ps| - 1]];
  }

  /** The ages of the records are the keys of the table. */
  lemma {:induction false} BiMapOfKeys(ps: seq<Person>)
    ensures BiMapOf(ps).Keys == Ages(ps)
    decreases |ps|
  {
    if ps != [] {
      BiMapOfKeys(ps[..|ps| - 1]);
      AgesLast(ps);
    }
  }

  /** The genders at age `a` of a non-empty list, split as in `AgesLast`. */
  lemma GendersLast(ps: seq<Person>, a: int)
    requires ps != []
    ensures GendersWithAge(ps, a)
         == GendersWithAge(ps[..|ps| - 1], a) + (if a == ps[|ps| - 1].age then {ps[|ps| - 1].gender} else {})
    ensures a !in Ages(ps[..|ps| - 1]) ==> GendersWithAge(ps[..|ps| - 1], a) == {}
  {
    assert ps == ps[..|ps| - 1] + [ps[|ps| - 1]];
  }

  /** The genders present among the records of age `a` are the keys of that age's inner map. */
  lemma {:induction false} BiMapOfGenders(ps: seq<Person>, a: int)
    ensures a in BiMapOf(ps) ==> BiMapOf(ps)[a].Keys == GendersWithAge(ps, a)
    decreases |ps|
  {
    if ps != [] {
      var prefix, last := ps[..|ps| - 1], ps[|ps| - 1];
      BiMapOfGenders(prefix, a);
      BiMapOfKeys(prefix);
      GendersLast(ps, a);
      var m := BiMapOf(prefix);
      if a != last.age && a in m {
        assert BiMapOf(ps)[a] == m[a];
      }
    }
  }

  /**
   * A lookup after one step: the list under the record's own age and gender gains the record at
   * its end (starting from an empty list), and every other list is the one stored before.
   */
  lemma AddRecordAt(m: BiMap, p: Person, a: int, g: Gender)
    requires a in AddRecord(m, p) && g in AddRecord(m, p)[a]
    ensures a == p.age && g == p.gender ==>
              AddRecord(m, p)[a][g] == (if a in m && g in m[a] then m[a][g] else []) + [p]
    ensures a != p.age || g != p.gender ==> a in m && g in m[a] && AddRecord(m, p)[a][g] == m[a][g]
  {
  }

  /**
   * The list under an age and a gender is every record with that age and gender, in list order:
   * `merge` with `addAll` appends, so the table keeps the order of the input.
   */
  lemma {:induction false} BiMapOfList(ps: seq<Person>, a: int, g: Gender)
    ensures a in BiMapOf(ps) && g in BiMapOf(ps)[a] ==> BiMapOf(ps)[a][g] == WithAgeAndGender(ps, a, g)
    decreases |ps|
  {
    if ps != [] {
      var prefix, last := ps[..|ps| - 1], ps[|ps| - 1];
      var m := BiMapOf(prefix);
      if a in BiMapOf(ps) && g in BiMapOf(ps)[a] {
        AddRecordAt(m, last, a, g);
        BiMapOfList(prefix, a, g);
        if a == last.age && g == last.gender && !(a in m && g in m[a]) {
          BiMapOfGenders(prefix, a);
          BiMapOfKeys(prefix);
          assert WithAgeAndGender(prefix, a, g) == [];
        }
      }
    }
  }

  /**
   * The body of the `biMap` loop for one record. `computeIfAbsent(age, HashMap::new)` creates the
   * inner map only for an age not seen before, calling `new HashMap(age)`: the age becomes the
   * initial capacity, and a negative one throws IllegalArgumentException. Then
   * `merge(gender, [person], (l1, l2) -> { l1.addAll(l2); return l1; })` stores the singleton
   * list for a new gender and otherwise extends the stored list by the record.
   */
  method PutPerson(biMap: BiMap, person: Person) returns (r: Result<BiMap, JavaException>)
    ensures r.Failure? <==> person.age !in biMap && person.age < 0
    ensures r.Failure? ==> r.error == IllegalArgument(person.age)
    ensures r.Success? ==> r.value == AddRecord(biMap, person)
  {
    var table := biMap;
    if person.age !in table {
      if person.age < 0 {
        return Failure(IllegalArgument(person.age));
      }
      table := table[person.age := map[]];
    }
    var inner := table[person.age];
    var merged := if person.gender in inner then inner[person.gender] + [person] else [person];
    inner := inner[person.gender := merged];
    r := Success(table[person.age := inner]);
  }

  /** The `biMap` loop of main: every record in list order, until one of them throws. */
  method BuildBiMap(persons: seq<Person>) returns (r: Result<BiMap, JavaException>)
    ensures r.Failure? <==> exists i :: 0 <= i < |persons| && persons[i].age < 0
    ensures r.Failure? ==> exists i :: FirstNegativeAge(persons, i) && r.error == IllegalArgument(persons[i].age)
    ensures r.Success? ==> r.value == BiMapOf(persons)
  {
    var biMap: BiMap := map[];
    var i := 0;
    assert persons[..i] == [];
    while i < |persons|
      invariant 0 <= i <= |persons|
      invariant biMap == BiMapOf(persons[..i])
      invariant forall a :: a in biMap ==> a >= 0
    {
      BiMapOfStep(persons, i);
      var step := PutPerson(biMap, persons[i]);
      if step.Failure? {
        StopsAtFirstNegative(persons, i);
        return step;
      }
      biMap := step.value;
      i := i + 1;
    }
    assert persons[..i] == persons;
    AgesAreKeys(persons);
    r := Success(biMap);
  }

  /** A table whose keys are all non-negative was built from records whose ages all are. */
  lemma AgesAreKeys(ps: seq<Person>)
    requires forall a :: a in BiMapOf(ps) ==> a >= 0
    ensures forall j :: 0 <= j < |ps| ==> ps[j].age >= 0
  {
    BiMapOfKeys(ps);
    forall j | 0 <= j < |ps|
      ensures ps[j].age >= 0
    {
      var p := ps[j];
      assert p in ps;
      assert p.age in Ages(ps);
      assert p.age in BiMapOf(ps);
    }
  }

  /** The loop stops at the first negative age. */
  lemma StopsAtFirstNegative(persons: seq<Person>, i: int)
    requires 0 <= i < |persons| && persons[i].age < 0
    requires forall a :: a in BiMapOf(persons[..i]) ==> a >= 0
    ensures FirstNegativeAge(persons, i)
  {
    AgesAreKeys(persons[..i]);
    assert forall j :: 0 <= j < i ==> persons[..i][j] == persons[j];
  }

  /** Record `i` is the first record with a negative age. */
  ghost predicate FirstNegativeAge(persons: seq<Person>, i: int)
  {
    0 <= i < |persons| && persons[i].age < 0 && forall j :: 0 <= j < i ==> persons[j].age >= 0
  }

  /**
   * Entries are created only when a record needs them: the table holds no empty inner map and no
   * empty list.
   */
  lemma BiMapHasNoEmptyParts(ps: seq<Person>, a: int, g: Gender)
    ensures a in BiMapOf(ps) ==> BiMapOf(ps)[a] != map[]
    ensures a in BiMapOf(ps) && g in BiMapOf(ps)[a] ==> BiMapOf(ps)[a][g] != []
  {
    BiMapOfKeys(ps);
    BiMapOfGenders(ps, a);
    BiMapOfList(ps, a, g);
    if a in BiMapOf(ps) {
      var p :| p in ps && p.age == a;
      assert p.gender in GendersWithAge(ps, a);
      if g in BiMapOf(ps)[a] {
        var q :| q in ps && q.age == a && q.gender == g;
        assert q in WithAgeAndGender(ps, a, g);
      }
    }
  }

  /** The table's inner map of `g` refines the age grouping: it is the age bucket filtered by gender. */
  lemma {:induction false} WithGenderOfBucket(ps: seq<Person>, a: int, g: Gender)
    ensures WithGender(WithAge(ps, a), g) == WithAgeAndGender(ps, a, g)
    decreases |ps|
  {
    if ps != [] {
      var prefix, last := ps[..|ps| - 1], ps[|ps| - 1];
      WithGenderOfBucket(prefix, a, g);
      if last.age == a {
        var w := WithAge(ps, a);
        assert w[..|w| - 1] == WithAge(prefix, a);
      }
    }
  }

  /**
   * The two tables of main agree: an age is a key of the nested table exactly when it is a key of
   * `groupingBy(Person::getAge)`, and its list for gender `g` is that age's bucket restricted to
   * gender `g`.
   */
  lemma BiMapRefinesGroupByAge(ps: seq<Person>, a: int, g: Gender)
    ensures a in BiMapOf(ps) <==> a in GroupByAge(ps)
    ensures a in BiMapOf(ps) && g in BiMapOf(ps)[a] ==>
              BiMapOf(ps)[a][g] == WithGender(GroupByAge(ps)[a], g)
  {
    GroupByAgeBuckets(ps);
    BiMapOfKeys(ps);
    BiMapOfList(ps, a, g);
    WithGenderOfBucket(ps, a, g);
  }

  /** The number of records held by one inner map. */
  ghost function InnerSize(inner: map<Gender, seq<Person>>): (n: nat)
    ensures inner == map[] ==> n == 0
  {
    SumValues(map g | g in inner :: |inner[g]|)
  }

  /** The number of records held by the whole table. */
  ghost function TableSize(b: BiMap): (n: nat)
    ensures b == map[] ==> n == 0
  {
    SumValues(map a | a in b :: InnerSize(b[a]))
  }

  /** Appending one record to the list of `g` (created if absent) adds one to the inner map's size. */
  lemma InnerSizeAppend(inner: map<Gender, seq<Person>>, g: Gender, p: Person)
    ensures InnerSize(inner[g := if g in inner then inner[g] + [p] else [p]]) == InnerSize(inner) + 1
  {
    var list := if g in inner then inner[g] + [p] else [p];
    var inner' := inner[g := list];
    var sizes := map h | h in inner :: |inner[h]|;
    assert (map h | h in inner' :: |inner'[h]|) == sizes[g := |list|];
    SumValuesUpdate(sizes, g, |list|);
  }

  /** Replacing the inner map of `a` replaces its share of the table's size. */
  lemma TableSizeUpdate(b: BiMap, a: int, inner: map<Gender, seq<Person>>)
    ensures TableSize(b[a := inner]) == TableSize(b) - (if a in b then InnerSize(b[a]) else 0) + InnerSize(inner)
  {
    var outer := map k | k in b :: InnerSize(b[k]);
    var b' := b[a := inner];
    var sizes := map k | k in b' :: InnerSize(b'[k]);
    assert sizes == outer[a := InnerSize(inner)] by {
      assert sizes.Keys == outer.Keys + {a};
      forall k | k in sizes
        ensures sizes[k] == outer[a := InnerSize(inner)][k]
      {
      }
    }
    SumValuesUpdate(outer, a, InnerSize(inner));
  }

  /** One loop step adds one record to the table. */
  lemma TableSizeAddRecord(b: BiMap, p: Person)
    ensures TableSize(AddRecord(b, p)) == TableSize(b) + 1
  {
    var inner: map<Gender, seq<Person>> := if p.age in b then b[p.age] else map[];
    InnerSizeAppend(inner, p.gender, p);
    TableSizeUpdate(b, p.age, inner[p.gender := if p.gender in inner then inner[p.gender] + [p] else [p]]);
  }

  /** Every record lands in exactly one list: the list lengths add up to the number of records. */
  lemma {:induction false} TableSizeIsLength(ps: seq<Person>)
    ensures TableSize(BiMapOf(ps)) == |ps|
    decreases |ps|
  {
    if ps != [] {
      var prefix, last := ps[..|ps| - 1], ps[|ps| - 1];
      TableSizeIsLength(prefix);
      TableSizeAddRecord(BiMapOf(prefix), last);
    }
  }

  /** What `main` prints, as values: the age grouping and the nested table. */
  datatype Tables = Tables(byAge: map<int, seq<Person>>, biMap: BiMap)

  /**
   * BiMapsDemo.main without its printing: the three-field load, the age grouping, then the nested
   * table; an exception from either loop ends `main`.
   */
  method Run(lines: seq<string>) returns (r: Result<Tables, JavaException>)
    ensures Load(lines, PersonUtil.ParseLine).Failure? ==>
              r == Failure(Load(lines, PersonUtil.ParseLine).error)
    ensures Load(lines, PersonUtil.ParseLine).Success? ==>
              var ps := Load(lines, PersonUtil.ParseLine).value;
              && (r.Failure? <==> exists i :: 0 <= i < |ps| && ps[i].age < 0)
              && (r.Failure? ==> r.error.IllegalArgument?)
              && (r.Success? ==> r.value == Tables(GroupByAge(ps), BiMapOf(ps)))
  {
    var loaded := PersonUtil.GetPersons(lines);
    if loaded.Failure? {
      return Failure(loaded.error);
    }
    var persons := loaded.value;
    var byAge := GroupByAge(persons);
    var built := BuildBiMap(persons);
    if built.Failure? {
      return Failure(built.error);
    }
    r := Success(Tables(byAge, built.value));
  }
}
