/**
 * MapsDemo: the three-field records indexed by name in a HashMap, a null value stored under
 * "test", and a lookup of "sachin" with a default record.
 */
module MapsDemo {
  import opened Wrappers
  import opened Domain
  import opened Loading
  import opened JavaHashMap
  import PersonUtil

  /** The entries `persons.forEach(p -> personMap.put(p.getName(), p))` leaves, record by record. */
  function NameIndex(ps: seq<Person>): (m: map<string, Option<Person>>)
    ensures ps != [] <==> m != map[]
    ensures |m| <= |ps|
    decreases |ps|
  {
    if ps == [] then map[] else NameIndex(ps[..|ps| - 1])[ps[|ps| - 1].name := Some(ps[|ps| - 1])]
  }

  /** Record `i` is the last record named `n`. */
  ghost predicate LastNamed(ps: seq<Person>, n: string, i: int)
  {
    0 <= i < |ps| && ps[i].name == n && forall j :: i < j < |ps| ==> ps[j].name != n
  }

  /**
   * Because `put` overwrites, the names of the records are exactly the keys, and each name maps
   * to the last record with that name.
   */
  lemma {:induction false} NameIndexLastWins(ps: seq<Person>, n: string)
    ensures n in NameIndex(ps) <==> exists i :: 0 <= i < |ps| && ps[i].name == n
    ensures n in NameIndex(ps) ==> exists i :: LastNamed(ps, n, i) && NameIndex(ps)[n] == Some(ps[i])
    decreases |ps|
  {
    if ps != [] {
      var prefix, last := ps[..|ps| - 1], ps[|ps| - 1];
      NameIndexLastWins(prefix, n);
      if last.name == n {
        assert LastNamed(ps, n, |ps| - 1);
      } else if n in NameIndex(prefix) {
        var i :| LastNamed(prefix, n, i) && NameIndex(prefix)[n] == Some(prefix[i]);
        assert LastNamed(ps, n, i);
      } else {
        forall i | 0 <= i < |ps|
          ensures ps[i].name != n
        {
          if i < |ps| - 1 {
            assert prefix[i] == ps[i];
          }
        }
      }
    }
  }

  /** Every value the `forEach` stores is a record, and it is filed under its own name. */
  lemma {:induction false} NameIndexHoldsRecords(ps: seq<Person>, n: string)
    ensures n in NameIndex(ps) ==> NameIndex(ps)[n].Some? && NameIndex(ps)[n].value.name == n
    decreases |ps|
  {
    if ps != [] {
      NameIndexHoldsRecords(ps[..|ps| - 1], n);
    }
  }

  /** The `forEach` at the start of main: a fresh map, then one `put` per record in list order. */
  method BuildNameMap(persons: seq<Person>) returns (personMap: HashMap<string, Person>)
    ensures fresh(personMap)
    ensures personMap.entries == NameIndex(persons)
  {
    personMap := new HashMap<string, Person>();
    var i := 0;
    while i < |persons|
      invariant 0 <= i <= |persons|
      invariant personMap.entries == NameIndex(persons[..i])
    {
      assert persons[..i + 1][..i] == persons[..i];
      var _ := personMap.Put(persons[i].name, Some(persons[i]));
      i := i + 1;
    }
    assert persons[..i] == persons;
  }

  /** The default record of main: `new Person("Tulasi", 36)`, without a gender. */
  const DefaultPerson := Person("Tulasi", 36, None)

  /** What main ends with: the map's entries and the name it prints. */
  datatype Lookup = Lookup(entries: map<string, Option<Person>>, printed: string)

  /**
   * MapsDemo.main without its printing: load, index by name, `put("test", null)`, then
   * `getOrDefault("sachin", defaultPerson).getName()`. "sachin" is not "test", so the lookup
   * meets a record (or the default) and never null: the printed name is "sachin" when a record has
   * that name, and "Tulasi" otherwise.
   */
  method Run(lines: seq<string>) returns (r: Result<Lookup, JavaException>)
    ensures Load(lines, PersonUtil.ParseLine).Failure? ==>
              r == Failure(Load(lines, PersonUtil.ParseLine).error)
    ensures Load(lines, PersonUtil.ParseLine).Success? ==>
              var ps := Load(lines, PersonUtil.ParseLine).value;
              && r.Success?
              && r.value.entries == NameIndex(ps)["test" := None]
              && r.value.printed == if exists i :: 0 <= i < |ps| && ps[i].name == "sachin" then "sachin" else "Tulasi"
  {
    var loaded := PersonUtil.GetPersons(lines);
    if loaded.Failure? {
      return Failure(loaded.error);
    }
    var persons := loaded.value;
    var personMap := BuildNameMap(persons);
    var _ := personMap.Put("test", None);
    NameIndexLastWins(persons, "sachin");
    NameIndexHoldsRecords(persons, "sachin");
    var p := personMap.GetOrDefault("sachin", Some(DefaultPerson));
    r := Success(Lookup(personMap.entries, p.value.name));
  }
}
