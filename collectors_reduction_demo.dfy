/**
 * CollectorsReductionDemo: the two-field records are loaded, then reduced to the youngest person
 * older than 20, the oldest person, and four `groupingBy(Person::getAge, ...)` views: the records,
 * their count, their names as a list and their names as a TreeSet, per age.
 */
module CollectorsReductionDemo {
  import opened Wrappers
  import opened Domain
  import opened JavaText
  import opened Loading
  import opened MapSums
  import ComparatorsDemo

  // ---------------------------------------------------------------------------
  // min and max by age
  // ---------------------------------------------------------------------------

  /** `filter(p -> p.getAge() > 20)`: the records older than 20, in list order. */
  function OlderThan20(ps: seq<Person>): (r: seq<Person>)
    ensures forall p :: p in r <==> p in ps && p.age > 20
    decreases |ps|
  {
    if ps == [] then []
    else
      var last := ps[|ps| - 1];
      assert ps == ps[..|ps| - 1] + [last];
      var r := OlderThan20(ps[..|ps| - 1]);
      if last.age > 20 then r + [last] else r
  }

  /**
   * `min(Comparator.comparing(Person::getAge))`: a left-to-right reduction with
   * BinaryOperator.minBy (keep the accumulated record unless the next one compares lower);
   * empty for an empty stream.
   */
  function MinByAge(ps: seq<Person>): (r: Option<Person>)
    ensures r.None? <==> ps == []
    ensures r.Some? ==> r.value in ps && forall q :: q in ps ==> r.value.age <= q.age
    decreases |ps|
  {
    if ps == [] then None
    else
      var last := ps[|ps| - 1];
      assert ps == ps[..|ps| - 1] + [last];
      match MinByAge(ps[..|ps| - 1])
      case None => Some(last)
      case Some(m) => if ComparatorsDemo.CompareInts(m.age, last.age) <= 0 then Some(m) else Some(last)
  }

  /**
   * `max(Comparator.comparing(Person::getAge))`: the same reduction with BinaryOperator.maxBy
   * (keep the accumulated record unless the next one compares higher).
   */
  function MaxByAge(ps: seq<Person>): (r: Option<Person>)
    ensures r.None? <==> ps == []
    ensures r.Some? ==> r.value in ps && forall q :: q in ps ==> q.age <= r.value.age
    decreases |ps|
  {
    if ps == [] then None
    else
      var last := ps[|ps| - 1];
      assert ps == ps[..|ps| - 1] + [last];
      match MaxByAge(ps[..|ps| - 1])
      case None => Some(last)
      case Some(m) => if ComparatorsDemo.CompareInts(m.age, last.age) >= 0 then Some(m) else Some(last)
  }

  /** The youngest person older than 20; empty exactly when nobody is older than 20. */
  function YoungestOver20(ps: seq<Person>): (r: Option<Person>)
    ensures r.None? <==> forall p :: p in ps ==> p.age <= 20
    ensures r.Some? ==> r.value in ps && r.value.age > 20
    ensures r.Some? ==> forall q :: q in ps && q.age > 20 ==> r.value.age <= q.age
  {
    var older := OlderThan20(ps);
    assert older == [] <==> forall p :: p in ps ==> p.age <= 20 by {
      if older != [] { assert older[0] in older; }
    }
    MinByAge(older)
  }

  // ---------------------------------------------------------------------------
  // Collectors.groupingBy(Person::getAge, downstream)
  // ---------------------------------------------------------------------------

  /** The ages that occur in `ps`. */
  function Ages(ps: seq<Person>): set<int>
  {
    set p | p in ps :: p.age
  }

  /** The records of age `k`, in list order. */
  function WithAge(ps: seq<Person>, k: int): (r: seq<Person>)
    ensures forall p :: p in r <==> p in ps && p.age == k
    ensures k !in Ages(ps) ==> r == []
    ensures |r| <= |ps|
    decreases |ps|
  {
    if ps == [] then []
    else
      var last := ps[|ps| - 1];
      assert ps == ps[..|ps| - 1] + [last];
      var r := WithAge(ps[..|ps| - 1], k);
      if last.age == k then r + [last] else r
  }

  /** A downstream collector applied to `s`: its accumulator folded over `s` from its supplier's `init`. */
  function Fold<A>(s: seq<Person>, init: A, acc: (A, Person) -> A): A
    decreases |s|
  {
    if s == [] then init else acc(Fold(s[..|s| - 1], init, acc), s[|s| - 1])
  }

  /**
   * `groupingBy(Person::getAge, downstream)`: for each record in list order, the container of its
   * age is created from `init` when the age is first seen and then updated with `acc`.
   */
  function GroupingByAge<A>(ps: seq<Person>, init: A, acc: (A, Person) -> A): (m: map<int, A>)
    ensures m.Keys == Ages(ps)
    decreases |ps|
  {
    if ps == [] then map[]
    else
      var last := ps[|ps| - 1];
      assert ps == ps[..|ps| - 1] + [last];
      var m := GroupingByAge(ps[..|ps| - 1], init, acc);
      m[last.age := acc(if last.age in m then m[last.age] else init, last)]
  }

  /** Each container of a grouping is its downstream collector run over the records of that age alone. */
  lemma {:induction false} GroupingByAgeBucket<A>(ps: seq<Person>, init: A, acc: (A, Person) -> A, k: int)
    requires k in Ages(ps)
    ensures GroupingByAge(ps, init, acc)[k] == Fold(WithAge(ps, k), init, acc)
    decreases |ps|
  {
    var prefix, last := ps[..|ps| - 1], ps[|ps| - 1];
    assert ps == prefix + [last];
    if k in Ages(prefix) {
      GroupingByAgeBucket(prefix, init, acc, k);
    }
    if last.age == k {
      assert WithAge(ps, k)[..|WithAge(ps, k)| - 1] == WithAge(prefix, k);
    }
  }

  /**
   * A collector consumes its stream in encounter order: collecting a prefix and then feeding the
   * rest into the same container is collecting the whole.
   */
  lemma {:induction false} FoldConcat<A>(s: seq<Person>, t: seq<Person>, init: A, acc: (A, Person) -> A)
    ensures Fold(s + t, init, acc) == Fold(t, Fold(s, init, acc), acc)
    decreases |t|
  {
    if t == [] {
      assert s + t == s;
    } else {
      var t', last := t[..|t| - 1], t[|t| - 1];
      assert (s + t)[..|s + t| - 1] == s + t';
      assert (s + t)[|s + t| - 1] == last;
      FoldConcat(s, t', init, acc);
    }
  }

  /** `toList()` as a downstream collector. */
  function AppendPerson(l: seq<Person>, p: Person): seq<Person> { l + [p] }

  /** `counting()` as a downstream collector. */
  function CountOne(n: nat, p: Person): nat { n + 1 }

  /** `mapping(Person::getName, toList())` as a downstream collector. */
  function AppendName(l: seq<string>, p: Person): seq<string> { l + [p.name] }

  /** `mapping(Person::getName, toCollection(TreeSet::new))` as a downstream collector. */
  function AddName(s: seq<string>, p: Person): seq<string> { TreeSetAdd(s, p.name) }

  /** `groupingBy(Person::getAge)`: the records of each age. */
  function GroupByAge(ps: seq<Person>): (m: map<int, seq<Person>>)
    ensures m.Keys == Ages(ps)
  {
    GroupingByAge(ps, [], AppendPerson)
  }

  /** `groupingBy(Person::getAge, counting())`: how many records have each age. */
  function CountByAge(ps: seq<Person>): (m: map<int, nat>)
    ensures m.Keys == Ages(ps)
  {
    GroupingByAge(ps, 0, CountOne)
  }

  /** `groupingBy(Person::getAge, mapping(Person::getName, toList()))`: the names of each age. */
  function NamesByAge(ps: seq<Person>): (m: map<int, seq<string>>)
    ensures m.Keys == Ages(ps)
  {
    GroupingByAge(ps, [], AppendName)
  }

  /** `groupingBy(Person::getAge, mapping(Person::getName, toCollection(TreeSet::new)))`. */
  function SortedNamesByAge(ps: seq<Person>): (m: map<int, seq<string>>)
    ensures m.Keys == Ages(ps)
  {
    GroupingByAge(ps, [], AddName)
  }

  lemma {:induction false} FoldAppendPerson(s: seq<Person>)
    ensures Fold(s, [], AppendPerson) == s
    decreases |s|
  {
    if s != [] {
      FoldAppendPerson(s[..|s| - 1]);
    }
  }

  /**
   * groupingBy(Person::getAge) partitions the list: the keys are exactly the ages present, and the
   * bucket of age `k` is the list's age-`k` records in list order.
   */
  lemma GroupByAgeBuckets(ps: seq<Person>)
    ensures GroupByAge(ps).Keys == Ages(ps)
    ensures forall k :: k in GroupByAge(ps) ==> GroupByAge(ps)[k] == WithAge(ps, k)
  {
    forall k | k in GroupByAge(ps)
      ensures GroupByAge(ps)[k] == WithAge(ps, k)
    {
      GroupingByAgeBucket(ps, [], AppendPerson, k);
      FoldAppendPerson(WithAge(ps, k));
    }
  }

  /** Every record is in the bucket of its own age and in no other bucket. */
  lemma RecordInOneBucket(ps: seq<Person>, i: int)
    requires 0 <= i < |ps|
    ensures ps[i].age in GroupByAge(ps) && ps[i] in GroupByAge(ps)[ps[i].age]
    ensures forall k :: k in GroupByAge(ps) && ps[i] in GroupByAge(ps)[k] ==> k == ps[i].age
  {
    GroupByAgeBuckets(ps);
    assert ps[i] in ps;
  }

  lemma {:induction false} FoldCountOne(s: seq<Person>)
    ensures Fold(s, 0, CountOne) == |s|
    decreases |s|
  {
    if s != [] {
      FoldCountOne(s[..|s| - 1]);
    }
  }

  /** The count of each age is the size of that age's bucket, and the counts have the same keys. */
  lemma CountIsBucketSize(ps: seq<Person>)
    ensures CountByAge(ps).Keys == GroupByAge(ps).Keys
    ensures forall k :: k in CountByAge(ps) ==> CountByAge(ps)[k] == |GroupByAge(ps)[k]|
  {
    GroupByAgeBuckets(ps);
    forall k | k in CountByAge(ps)
      ensures CountByAge(ps)[k] == |GroupByAge(ps)[k]|
    {
      GroupingByAgeBucket(ps, 0, CountOne, k);
      FoldCountOne(WithAge(ps, k));
    }
  }

  /** The counts add up to the number of records. */
  lemma {:induction false} CountsSumToLength(ps: seq<Person>)
    ensures SumValues(CountByAge(ps)) == |ps|
    decreases |ps|
  {
    if ps != [] {
      var prefix, last := ps[..|ps| - 1], ps[|ps| - 1];
      CountsSumToLength(prefix);
      var m := CountByAge(prefix);
      var n: nat := if last.age in m then m[last.age] else 0;
      assert CountByAge(ps) == m[last.age := n + 1];
      SumValuesUpdate(m, last.age, n + 1);
    }
  }

  /** No record is lost or duplicated by grouping: the bucket sizes add up to the number of records. */
  lemma BucketSizesSumToLength(ps: seq<Person>)
    ensures SumValues(map k | k in GroupByAge(ps) :: |GroupByAge(ps)[k]|) == |ps|
  {
    CountIsBucketSize(ps);
    CountsSumToLength(ps);
    assert (map k | k in GroupByAge(ps) :: |GroupByAge(ps)[k]|) == CountByAge(ps);
  }

  /** `Person::getName` over a list of records. */
  function NamesOf(s: seq<Person>): (r: seq<string>)
    ensures |r| == |s| && forall i :: 0 <= i < |s| ==> r[i] == s[i].name
    decreases |s|
  {
    if s == [] then [] else NamesOf(s[..|s| - 1]) + [s[|s| - 1].name]
  }

  lemma {:induction false} FoldAppendName(s: seq<Person>)
    ensures Fold(s, [], AppendName) == NamesOf(s)
    decreases |s|
  {
    if s != [] {
      FoldAppendName(s[..|s| - 1]);
    }
  }

  /** The names of age `k` are the names of the bucket of age `k`, in list order, duplicates kept. */
  lemma NamesByAgeBuckets(ps: seq<Person>)
    ensures NamesByAge(ps).Keys == GroupByAge(ps).Keys
    ensures forall k :: k in NamesByAge(ps) ==> NamesByAge(ps)[k] == NamesOf(GroupByAge(ps)[k])
  {
    GroupByAgeBuckets(ps);
    forall k | k in NamesByAge(ps)
      ensures NamesByAge(ps)[k] == NamesOf(GroupByAge(ps)[k])
    {
      GroupingByAgeBucket(ps, [], AppendName, k);
      FoldAppendName(WithAge(ps, k));
    }
  }

  // ---------------------------------------------------------------------------
  // TreeSet<String>
  // ---------------------------------------------------------------------------

  /** The iteration order of a TreeSet<String>: strictly ascending under `String.compareTo`. */
  ghost predicate StrictlyAscending(s: seq<string>)
  {
    forall i, j :: 0 <= i < j < |s| ==> CompareStrings(s[i], s[j]) < 0
  }

  /**
   * `TreeSet.add(x)`, on the set's elements in iteration order: `x` is placed before the first
   * element that compares greater, and nothing changes when an element compares equal.
   */
  function TreeSetAdd(s: seq<string>, x: string): (r: seq<string>)
    ensures forall y :: y in r <==> y in s || y == x
    ensures r != [] && (r[0] == x || (s != [] && r[0] == s[0]))
    decreases |s|
  {
    if s == [] then [x]
    else
      var c := CompareStrings(x, s[0]);
      if c == 0 then s
      else if c < 0 then [x] + s
      else
        var r := [s[0]] + TreeSetAdd(s[1..], x);
        assert s == [s[0]] + s[1..];
        r
  }

  /** Adding to a TreeSet keeps its elements strictly ascending, hence free of duplicates. */
  lemma {:induction false} TreeSetAddAscending(s: seq<string>, x: string)
    requires StrictlyAscending(s)
    ensures StrictlyAscending(TreeSetAdd(s, x))
    decreases |s|
  {
    if s != [] {
      var c := CompareStrings(x, s[0]);
      if c < 0 {
        forall j | 0 <= j < |s| ensures CompareStrings(x, s[j]) < 0 {
          if j > 0 { CompareStringsTransitive(x, s[0], s[j]); }
        }
        assert forall j :: 1 <= j < |[x] + s| ==> ([x] + s)[j] == s[j - 1];
      } else if c > 0 {
        assert StrictlyAscending(s[1..]) by {
          forall i, j | 0 <= i < j < |s[1..]| ensures CompareStrings(s[1..][i], s[1..][j]) < 0 {
            assert s[1..][i] == s[i + 1] && s[1..][j] == s[j + 1];
          }
        }
        TreeSetAddAscending(s[1..], x);
        CompareStringsAntisymmetric(x, s[0]);
        var t := TreeSetAdd(s[1..], x);
        forall y | y in t ensures CompareStrings(s[0], y) < 0 {
          if y != x {
            var j :| 0 <= j < |s[1..]| && s[1..][j] == y;
            assert y == s[j + 1];
          }
        }
        assert forall j :: 1 <= j < |[s[0]] + t| ==> ([s[0]] + t)[j] == t[j - 1];
        assert forall j :: 0 <= j < |t| ==> t[j] in t;
      }
    }
  }

  lemma {:induction false} FoldAddName(s: seq<Person>)
    ensures StrictlyAscending(Fold(s, [], AddName))
    ensures forall n :: n in Fold(s, [], AddName) <==> n in NamesOf(s)
    decreases |s|
  {
    if s != [] {
      var prefix := s[..|s| - 1];
      FoldAddName(prefix);
      TreeSetAddAscending(Fold(prefix, [], AddName), s[|s| - 1].name);
      assert NamesOf(s) == NamesOf(prefix) + [s[|s| - 1].name];
    }
  }

  /**
   * The TreeSet of age `k` holds exactly the names of the age-`k` records, duplicates collapsed,
   * and iterates them in strictly ascending String order.
   */
  lemma SortedNamesByAgeBuckets(ps: seq<Person>)
    ensures SortedNamesByAge(ps).Keys == NamesByAge(ps).Keys
    ensures forall k :: k in SortedNamesByAge(ps) ==> StrictlyAscending(SortedNamesByAge(ps)[k])
    ensures forall k, n :: k in SortedNamesByAge(ps) ==>
              (n in SortedNamesByAge(ps)[k] <==> n in NamesByAge(ps)[k])
  {
    forall k | k in SortedNamesByAge(ps)
      ensures StrictlyAscending(SortedNamesByAge(ps)[k])
      ensures forall n :: n in SortedNamesByAge(ps)[k] <==> n in NamesByAge(ps)[k]
    {
      GroupingByAgeBucket(ps, [], AddName, k);
      GroupingByAgeBucket(ps, [], AppendName, k);
      FoldAddName(WithAge(ps, k));
      FoldAppendName(WithAge(ps, k));
    }
  }

  // ---------------------------------------------------------------------------
  // main
  // ---------------------------------------------------------------------------

  /** What `main` prints, as values. */
  datatype Report = Report(
    youngestOver20: Person,
    oldest: Person,
    personsByAge: map<int, seq<Person>>,
    countByAge: map<int, nat>,
    namesByAge: map<int, seq<string>>,
    sortedNamesByAge: map<int, seq<string>>)

  /**
   * CollectorsReductionDemo.main without its printing. The load is the two-field one; a bad line
   * ends `main` with its exception; so does `get()` on the empty Optional when nobody is older
   * than 20. The second `get()` cannot fail then: somebody older than 20 makes the list non-empty.
   */
  method Run(lines: seq<string>) returns (r: Result<Report, JavaException>)
    ensures Load(lines, ComparatorsDemo.ParseLine).Failure? ==>
              r == Failure(Load(lines, ComparatorsDemo.ParseLine).error)
    ensures Load(lines, ComparatorsDemo.ParseLine).Success? ==>
              var ps := Load(lines, ComparatorsDemo.ParseLine).value;
              && (r.Failure? <==> forall p :: p in ps ==> p.age <= 20)
              && (r.Failure? ==> r.error == NoSuchElement)
              && (r.Success? ==>
                    && r.value.youngestOver20 in ps && r.value.youngestOver20.age > 20
                    && (forall q :: q in ps && q.age > 20 ==> r.value.youngestOver20.age <= q.age)
                    && r.value.oldest in ps
                    && (forall q :: q in ps ==> q.age <= r.value.oldest.age)
                    && r.value.personsByAge == GroupByAge(ps)
                    && r.value.countByAge == CountByAge(ps)
                    && r.value.namesByAge == NamesByAge(ps)
                    && r.value.sortedNamesByAge == SortedNamesByAge(ps))
  {
    var loaded := ComparatorsDemo.GetPersons(lines);
    if loaded.Failure? {
      return Failure(loaded.error);
    }
    var persons := loaded.value;
    var youngest := YoungestOver20(persons);
    if youngest.None? {
      return Failure(NoSuchElement);
    }
    var oldest := MaxByAge(persons);
    assert oldest.Some? by { assert youngest.value in persons; }
    r := Success(Report(youngest.value, oldest.value, GroupByAge(persons), CountByAge(persons),
                        NamesByAge(persons), SortedNamesByAge(persons)));
  }
}
