/**
 * ComparatorsDemo: a two-field loader (name and age, gender never set) and a sort of the loaded
 * list by `Comparator.comparing(Person::getName).thenComparing(Person::getAge)`.
 */
module ComparatorsDemo {
  import opened Wrappers
  import opened Domain
  import opened JavaText
  import opened Loading
  import PersonUtil

  /**
   * The two-field lambda body: `s = line.split(" ")`, then `new Person(s[0].trim(),
   * Integer.parseInt(s[1]))`; tokens after the second are never looked at.
   */
  function ParseLine(line: string): (r: Result<Person, JavaException>)
    ensures r.Success? ==> IsTrimmed(r.value.name) && IsInt32(r.value.age) && r.value.gender.None?
    ensures r.Failure? ==> r.error.IndexOutOfBounds? || r.error.NumberFormat?
    ensures r.Success? <==> |Split(line)| >= 2 && ParseInt(Split(line)[1]).Some?
    ensures |Split(line)| < 2 ==> r == Failure(IndexOutOfBounds(|Split(line)|))
    ensures |Split(line)| >= 2 && ParseInt(Split(line)[1]).None? ==> r == Failure(NumberFormat(Split(line)[1]))
  {
    var s := Split(line);
    if |s| == 0 then Failure(IndexOutOfBounds(0))
    else if |s| == 1 then Failure(IndexOutOfBounds(1))
    else
      match ParseInt(s[1])
      case None => Failure(NumberFormat(s[1]))
      case Some(age) => Success(Person(Trim(s[0]), age, None))
  }

  /**
   * The two parsers agree on name and age: where the three-field parser succeeds the two-field
   * one gives the same record without its gender, and where the two-field parser fails the
   * three-field one fails with the same error; the three-field parser fails alone only at `s[2]`.
   */
  lemma TwoFieldParseForgetsGender(line: string)
    ensures PersonUtil.ParseLine(line).Success? ==>
      ParseLine(line) == Success(PersonUtil.ParseLine(line).value.(gender := None))
    ensures ParseLine(line).Failure? ==> PersonUtil.ParseLine(line) == ParseLine(line)
    ensures ParseLine(line).Success? && PersonUtil.ParseLine(line).Failure? ==>
      PersonUtil.ParseLine(line).error == IndexOutOfBounds(2)
  {
    var s := Split(line);
    if |s| >= 2 && ParseInt(s[1]).Some? {
      var age := ParseInt(s[1]).value;
      assert ParseLine(line) == Success(Person(Trim(s[0]), age, None));
      if |s| >= 3 {
        assert PersonUtil.ParseLine(line) == Success(Person(Trim(s[0]), age, Some(Trim(s[2]))));
      } else {
        assert PersonUtil.ParseLine(line) == Failure(IndexOutOfBounds(2));
      }
    } else {
      assert PersonUtil.ParseLine(line) == ParseLine(line);
    }
  }

  /** A name and an age are enough for the two-field parser: it reads its own two-token lines back. */
  lemma ParseTwoTokenLine(name: string, age: int)
    requires PersonUtil.IsPlainToken(name) && IsInt32(age)
    ensures ParseLine(name + " " + FormatInt(age)) == Success(Person(name, age, None))
  {
    var toks := [name, FormatInt(age)];
    assert Join(toks) == name + " " + FormatInt(age);
    SplitJoin(toks);
    ParseFormatInt(age);
  }

  /**
   * Any line of two or more tokens with a well-formed age: the name is the first token trimmed,
   * the age is the second token's value, and the tokens after the second are ignored.
   */
  lemma ParseTwoTokens(toks: seq<string>, age: int)
    requires |toks| >= 2
    requires forall k :: 0 <= k < |toks| ==> ' ' !in toks[k]
    requires toks[|toks| - 1] != ""
    requires IsInt32(age) && toks[1] == FormatInt(age)
    ensures ParseLine(Join(toks)) == Success(Person(Trim(toks[0]), age, None))
  {
    SplitJoin(toks);
    ParseFormatInt(age);
  }

  /** `getPersons()`: one record per line in line order; the first bad line makes the whole call fail. */
  method GetPersons(lines: seq<string>) returns (r: Result<seq<Person>, JavaException>)
    ensures r == Load(lines, ParseLine)
  {
    r := LoadLines(lines, ParseLine);
  }

  // ---------------------------------------------------------------------------
  // The comparator
  // ---------------------------------------------------------------------------

  /** `Integer.compare(x, y)`, which `Integer.compareTo` calls. */
  function CompareInts(x: int, y: int): (c: int)
    ensures c < 0 <==> x < y
    ensures c == 0 <==> x == y
    ensures c > 0 <==> x > y
  {
    if x < y then -1 else if x == y then 0 else 1
  }

  /**
   * `comparing(Person::getName).thenComparing(Person::getAge)`: the name comparison decides
   * unless it is 0, and then the ages are compared. It orders exactly as "name less, or the
   * same name and age less", and it is 0 only for the same name and the same age.
   */
  function CompareNameThenAge(p: Person, q: Person): (c: int)
    ensures c < 0 <==> CompareStrings(p.name, q.name) < 0 || (p.name == q.name && p.age < q.age)
    ensures c == 0 <==> p.name == q.name && p.age == q.age
  {
    var byName := CompareStrings(p.name, q.name);
    if byName != 0 then byName else CompareInts(p.age, q.age)
  }

  lemma CompareNameThenAgeAntisymmetric(p: Person, q: Person)
    ensures CompareNameThenAge(q, p) == 0 <==> CompareNameThenAge(p, q) == 0
    ensures CompareNameThenAge(q, p) < 0 <==> CompareNameThenAge(p, q) > 0
  {
    CompareStringsAntisymmetric(p.name, q.name);
  }

  lemma CompareNameThenAgeTransitive(p: Person, q: Person, o: Person)
    requires CompareNameThenAge(p, q) <= 0 && CompareNameThenAge(q, o) <= 0
    ensures CompareNameThenAge(p, o) <= 0
  {
    if CompareStrings(p.name, q.name) <= 0 && CompareStrings(q.name, o.name) <= 0 {
      CompareStringsTransitive(p.name, q.name, o.name);
    }
  }

  /** Every record precedes every later record under the comparator. */
  ghost predicate SortedByNameThenAge(s: seq<Person>)
  {
    forall i, j :: 0 <= i < j < |s| ==> CompareNameThenAge(s[i], s[j]) <= 0
  }

  /**
   * What the sorted list looks like to a reader: each record's name is less than the next one's,
   * or the names are equal and the age is at most the next one's.
   */
  lemma SortedAdjacent(s: seq<Person>, i: int)
    requires SortedByNameThenAge(s)
    requires 0 <= i < |s| - 1
    ensures CompareStrings(s[i].name, s[i + 1].name) < 0
         || (s[i].name == s[i + 1].name && s[i].age <= s[i + 1].age)
  {
    assert CompareNameThenAge(s[i], s[i + 1]) <= 0;
  }

  /**
   * Records of the two-field loader never differ in gender, so two of them that compare as 0 are
   * the same value: the order among equal keys (which a stable sort would keep) cannot be seen.
   */
  lemma EqualKeysAreEqualRecords(p: Person, q: Person)
    requires p.gender.None? && q.gender.None?
    requires CompareNameThenAge(p, q) == 0
    ensures p == q
  {
  }

  // ---------------------------------------------------------------------------
  // persons.sort(comparator)
  // ---------------------------------------------------------------------------

  /**
   * `persons.sort(comparator)`: ArrayList.sort sorts its backing array in place. Modelled as an
   * insertion sort that moves each record left past every record the comparator puts after it.
   */
  method SortPersons(a: array<Person>)
    modifies a
    ensures SortedByNameThenAge(a[..])
    ensures multiset(a[..]) == multiset(old(a[..]))
  {
    var i := 0;
    while i < a.Length
      invariant 0 <= i <= a.Length
      invariant SortedPrefix(a[..], i)
      invariant multiset(a[..]) == multiset(old(a[..]))
    {
      InsertAt(a, i);
      i := i + 1;
    }
  }

  /** The first `n` records are in comparator order. */
  ghost predicate SortedPrefix(s: seq<Person>, n: int)
    requires 0 <= n <= |s|
  {
    forall k, l :: 0 <= k < l < n ==> CompareNameThenAge(s[k], s[l]) <= 0
  }

  /**
   * The state of one insertion step: the records up to `i` other than the moving one at `j` are
   * in order, and the moving record is no larger than any record between `j` and `i`.
   */
  ghost predicate Inserting(s: seq<Person>, i: int, j: int)
  {
    && 0 <= j <= i < |s|
    && (forall k, l :: 0 <= k < l <= i && k != j && l != j ==> CompareNameThenAge(s[k], s[l]) <= 0)
    && (forall l :: j < l <= i ==> CompareNameThenAge(s[j], s[l]) <= 0)
  }

  /** One insertion step: the record at `i` moves left until the prefix up to `i` is in order. */
  method InsertAt(a: array<Person>, i: int)
    requires 0 <= i < a.Length
    requires SortedPrefix(a[..], i)
    modifies a
    ensures SortedPrefix(a[..], i + 1)
    ensures multiset(a[..]) == multiset(old(a[..]))
    ensures forall k :: i < k < a.Length ==> a[k] == old(a[k])
  {
    var j := i;
    while j > 0 && CompareNameThenAge(a[j - 1], a[j]) > 0
      invariant 0 <= j <= i
      invariant Inserting(a[..], i, j)
      invariant multiset(a[..]) == multiset(old(a[..]))
      invariant forall k :: i < k < a.Length ==> a[k] == old(a[k])
    {
      ghost var before := a[..];
      Swap(a, j);
      SwapKeepsInserting(before, a[..], i, j);
      j := j - 1;
    }
    InsertionCloses(a[..], i, j);
  }

  /** Swapping the moving record with a larger left neighbour moves it one place left. */
  lemma SwapKeepsInserting(s: seq<Person>, t: seq<Person>, i: int, j: int)
    requires Inserting(s, i, j) && 0 < j
    requires CompareNameThenAge(s[j - 1], s[j]) > 0
    requires |t| == |s| && t[j - 1] == s[j] && t[j] == s[j - 1]
    requires forall k :: 0 <= k < |s| && k != j - 1 && k != j ==> t[k] == s[k]
    ensures Inserting(t, i, j - 1)
  {
    CompareNameThenAgeAntisymmetric(s[j - 1], s[j]);
  }

  /**
   * When the moving record at `j` is no smaller than its left neighbour (or has none), the
   * records up to `i` are in order.
   */
  lemma InsertionCloses(s: seq<Person>, i: int, j: int)
    requires Inserting(s, i, j)
    requires j == 0 || CompareNameThenAge(s[j - 1], s[j]) <= 0
    ensures SortedPrefix(s, i + 1)
  {
    forall k | 0 <= k < j
      ensures CompareNameThenAge(s[k], s[j]) <= 0
    {
      if k < j - 1 {
        CompareNameThenAgeTransitive(s[k], s[j - 1], s[j]);
      }
    }
  }

  /** Exchanges the records at `j - 1` and `j`. */
  method Swap(a: array<Person>, j: int)
    requires 0 < j < a.Length
    modifies a
    ensures a[j - 1] == old(a[j]) && a[j] == old(a[j - 1])
    ensures forall k :: 0 <= k < a.Length && k != j - 1 && k != j ==> a[k] == old(a[k])
    ensures multiset(a[..]) == multiset(old(a[..]))
  {
    a[j - 1], a[j] := a[j], a[j - 1];
  }

  /** ComparatorsDemo.main without its printing: load the two-field records and sort them. */
  method Run(lines: seq<string>) returns (r: Result<seq<Person>, JavaException>)
    ensures Load(lines, ParseLine).Failure? ==> r == Failure(Load(lines, ParseLine).error)
    ensures Load(lines, ParseLine).Success? ==>
              && r.Success?
              && SortedByNameThenAge(r.value)
              && multiset(r.value) == multiset(Load(lines, ParseLine).value)
  {
    var loaded := GetPersons(lines);
    if loaded.Failure? {
      return Failure(loaded.error);
    }
    var persons := loaded.value;
    var a := new Person[|persons|](k requires 0 <= k < |persons| => persons[k]);
    assert a[..] == persons;
    SortPersons(a);
    r := Success(a[..]);
  }
}
