# Person dataset pipeline: a Dafny model

The model covers the person-record pipeline of the Java 11 demo repository. A line-oriented
resource, `persons.txt`, is parsed into `Person` records (name, age, optional gender). Four
demos then compute views of the list:

- **ComparatorsDemo** sorts the list by name, then age.
- **CollectorsReductionDemo** finds the youngest person over 20 and the oldest person, and groups
  by age four ways: the records, their count, their names, and their names sorted.
- **BiMapsDemo** builds a nested age → gender → records table with `computeIfAbsent` and `merge`.
- **MapsDemo** indexes the records by name in a `HashMap`, stores a null value, and looks up a
  name with a default.

The modules follow the Java sources:

| module | models |
|---|---|
| `Wrappers`, `Domain` | `Option` and `Result`; the `Person` record; the exceptions the pipeline can raise |
| `JavaText` | the JDK library calls the parsers depend on: `String.split(" ")`, `String.trim()`, `Integer.parseInt`, `String.compareTo` |
| `Loading` | the line-by-line load shared by the three loaders; the first line that throws ends the load |
| `PersonUtil` | `PersonUtil.getPersons`, the three-field parser |
| `ComparatorsDemo` | the two-field parser and the `comparing(getName).thenComparing(getAge)` sort |
| `CollectorsReductionDemo` | `min`/`max` by age and the `groupingBy` collectors |
| `BiMapsDemo` | the `computeIfAbsent`/`merge` loop over nested maps |
| `JavaHashMap` | a `HashMap` class with the `Map` methods MapsDemo documents |
| `MapsDemo` | MapsDemo's `main` |
| `MapSums` | the sum of a map's values, used for the "no record lost or duplicated" counts |

Each demo's `main` becomes a `Run(lines)` method. Its input is the resource's lines. Its result is
either what `main` computes or the exception that ends it.

## Notes on the code

The model follows these behaviours of the code:

- A line that fails to parse throws an exception that is not an `IOException`. It therefore
  escapes `getPersons`/`main`, so no partial list is ever returned. `Load` yields a `Failure`
  carrying the first failing line's error.
- No operation merges two age groupings. The only merge in the code is BiMapsDemo's
  `HashMap.merge` with `addAll`, which is modelled inside `BuildBiMap`.
- Names are not checked to be non-empty. A line such as `" 30 M"` is split into `["", "30", "M"]`
  and gives a record with an empty name.

## Model

| member | source | states |
|---|---|---|
| Loading.Load | java/com/demo/util/PersonUtil.java:23-29 | the load succeeds exactly when every line parses; it then holds one record per line, in line order; otherwise it fails with the error of the first failing line |
| Loading.LoadFailsAt | java/com/demo/util/PersonUtil.java:23-29 | if line k is the first failing line, the load fails with line k's error |
| Loading.LoadSucceedsWith | java/com/demo/util/PersonUtil.java:23-29 | if every line i parses to ps[i], the load yields exactly ps |
| Loading.LoadLines | java/com/demo/util/PersonUtil.java:23-29 | the loop that adds each parsed record to the list computes `Load` |
| JavaText.Segments | java/com/demo/util/PersonUtil.java:24 | the pieces of a line between single spaces contain no space, and joining them back with spaces gives the line |
| JavaText.DropTrailingEmpty | java/com/demo/util/PersonUtil.java:24 | removes only trailing empty strings and leaves a non-empty last element, or nothing |
| JavaText.Split | java/com/demo/util/PersonUtil.java:24 | `split(" ")`: a line without a space gives itself; otherwise the space-separated pieces with trailing empty pieces dropped; no token contains a space |
| JavaText.SplitJoin | java/com/demo/util/PersonUtil.java:24 | splitting tokens joined by single spaces gives the tokens back, provided none has a space and the last is non-empty |
| JavaText.SplitOnlySpaces | java/com/demo/util/PersonUtil.java:24 | a non-empty line of spaces splits into no token at all |
| JavaText.Trim | java/com/demo/util/PersonUtil.java:25 | `trim()` leaves no character `<= ' '` at either end, never lengthens, and leaves a trimmed string unchanged |
| JavaText.TrimIsInfix | java/com/demo/util/PersonUtil.java:25 | `trim()` returns an infix of its input, and every character it cuts off before or after that infix is `<= ' '` |
| JavaText.TrimIdempotent | java/com/demo/util/PersonUtil.java:25 | trimming twice is trimming once |
| JavaText.ParseInt | java/com/demo/util/PersonUtil.java:25 | `Integer.parseInt`: a result comes only from an optional sign followed by digits, and lies in the 32-bit range |
| JavaText.FormatInt | java/com/demo/util/PersonUtil.java:25 | the decimal text of an age is non-empty, has no space, and consists of digits after an optional leading '-' |
| JavaText.ParseFormatInt | java/com/demo/util/PersonUtil.java:25 | parsing the decimal text of any 32-bit integer gives it back |
| JavaText.ParseIntExamples | java/com/demo/util/PersonUtil.java:25 | "+007" is 7 and "-5" is -5; "", "-" and "2147483648" are rejected |
| JavaText.CompareStrings | java/com/demo/collections/ComparatorsDemo.java:42 | `compareTo` is 0 exactly for equal strings |
| JavaText.CompareStringsAntisymmetric | java/com/demo/collections/ComparatorsDemo.java:42 | swapping the strings flips the sign of `compareTo` |
| JavaText.CompareStringsTransitive | java/com/demo/collections/ComparatorsDemo.java:42 | `compareTo` ordering is transitive, and strictly so |
| PersonUtil.ParseLine | java/com/demo/util/PersonUtil.java:24-26 | succeeds exactly when the line has at least three tokens and the second parses as an `int`; fewer than two tokens fail at `s[0]` or `s[1]`; a bad age fails with NumberFormatException before `s[2]` is read; a record has a trimmed name, a 32-bit age and a trimmed non-null gender |
| PersonUtil.ParseTokens | java/com/demo/util/PersonUtil.java:24-26 | for any three or more space-free tokens: the name is the first token trimmed, the age the second token's value, the gender the third token trimmed; later tokens are ignored |
| PersonUtil.GetPersons | java/com/demo/util/PersonUtil.java:14-34 | `getPersons()` yields the load of the lines with the three-field parser |
| PersonUtil.ParseFormatLine | java/com/demo/util/PersonUtil.java:24-26 | a line "name age gender" written from plain tokens is read back as exactly that record |
| PersonUtil.EmptyLineFails | java/com/demo/util/PersonUtil.java:24-25 | an empty line fails at `s[1]` |
| PersonUtil.BlankLineFails | java/com/demo/util/PersonUtil.java:24-25 | a line of spaces fails at `s[0]` |
| PersonUtil.MissingGenderFails | java/com/demo/util/PersonUtil.java:26 | a line with a name and an age but no gender fails at `s[2]` |
| PersonUtil.BadAgeFails | java/com/demo/util/PersonUtil.java:25 | a non-numeric age fails with NumberFormatException even when a gender follows |
| ComparatorsDemo.ParseLine | java/com/demo/collections/ComparatorsDemo.java:59-60 | succeeds exactly when the line has at least two tokens and the second parses as an `int`; fewer than two tokens fail at `s[0]` or `s[1]`, a bad age with NumberFormatException; a record has a trimmed name, a 32-bit age and no gender |
| ComparatorsDemo.ParseTwoTokens | java/com/demo/collections/ComparatorsDemo.java:59-60 | for any two or more space-free tokens: the name is the first token trimmed and the age the second token's value; later tokens are ignored |
| ComparatorsDemo.TwoFieldParseForgetsGender | java/com/demo/collections/ComparatorsDemo.java:59-60 | the two-field parser agrees with the three-field one except for the gender, and succeeds alone only where the other fails at `s[2]` |
| ComparatorsDemo.ParseTwoTokenLine | java/com/demo/collections/ComparatorsDemo.java:59-60 | "name age" is read back as that record without a gender |
| ComparatorsDemo.GetPersons | java/com/demo/collections/ComparatorsDemo.java:49-69 | `getPersons()` yields the load of the lines with the two-field parser |
| ComparatorsDemo.CompareInts | java/com/demo/collections/ComparatorsDemo.java:42 | `Integer.compare`, which `thenComparing(getAge)` applies: negative, zero or positive exactly as the first age is less than, equal to or greater than the second |
| ComparatorsDemo.CompareNameThenAge | java/com/demo/collections/ComparatorsDemo.java:42 | negative exactly when the name is less, or the names are equal and the age is less; zero exactly when name and age are equal |
| ComparatorsDemo.CompareNameThenAgeAntisymmetric | java/com/demo/collections/ComparatorsDemo.java:42 | swapping the records flips the sign of the comparator |
| ComparatorsDemo.CompareNameThenAgeTransitive | java/com/demo/collections/ComparatorsDemo.java:42 | the comparator's ordering is transitive |
| ComparatorsDemo.SortedAdjacent | java/com/demo/collections/ComparatorsDemo.java:42-43 | in the sorted list each name is less than the next one, or equal to it with an age no larger |
| ComparatorsDemo.EqualKeysAreEqualRecords | java/com/demo/collections/ComparatorsDemo.java:42-43 | two gender-less records the comparator calls equal are the same record, so sort stability cannot be observed |
| ComparatorsDemo.SortPersons | java/com/demo/collections/ComparatorsDemo.java:43 | `persons.sort(comparator)` leaves the array sorted by the comparator and a permutation of what it held |
| ComparatorsDemo.InsertAt | java/com/demo/collections/ComparatorsDemo.java:43 | one insertion step extends the sorted prefix by one position, permutes the array, and leaves every position after the inserted one as it was |
| ComparatorsDemo.Swap | java/com/demo/collections/ComparatorsDemo.java:43 | exchanges two neighbouring records and nothing else |
| ComparatorsDemo.Run | java/com/demo/collections/ComparatorsDemo.java:40-46 | a load failure ends `main` with that error; otherwise the result is the loaded list, sorted by name then age and permuted |
| CollectorsReductionDemo.OlderThan20 | java/com/demo/streams/CollectorsReductionDemo.java:81 | the filter keeps exactly the records with age over 20 |
| CollectorsReductionDemo.MinByAge | java/com/demo/streams/CollectorsReductionDemo.java:82 | `min` is empty exactly for an empty stream; otherwise it is a record of the stream with the least age |
| CollectorsReductionDemo.MaxByAge | java/com/demo/streams/CollectorsReductionDemo.java:86 | `max` is empty exactly for an empty stream; otherwise it is a record of the stream with the greatest age |
| CollectorsReductionDemo.YoungestOver20 | java/com/demo/streams/CollectorsReductionDemo.java:81-82 | empty exactly when nobody is over 20; otherwise a listed record over 20 that is no older than anyone else over 20 |
| CollectorsReductionDemo.WithAge | java/com/demo/streams/CollectorsReductionDemo.java:90-92 | the records of a given age, in list order; empty for an age nobody has |
| CollectorsReductionDemo.FoldConcat | java/com/demo/streams/CollectorsReductionDemo.java:90-113 | a downstream collector consumes the records in encounter order: collecting a prefix and then the rest into the same container is collecting the whole |
| CollectorsReductionDemo.GroupingByAge | java/com/demo/streams/CollectorsReductionDemo.java:90-113 | `groupingBy(getAge, downstream)` has exactly the ages present as keys |
| CollectorsReductionDemo.GroupingByAgeBucket | java/com/demo/streams/CollectorsReductionDemo.java:90-113 | each key's value is the downstream collector run over that age's records, in list order |
| CollectorsReductionDemo.FoldAppendPerson | java/com/demo/streams/CollectorsReductionDemo.java:90-92 | the `toList` collector returns its input unchanged |
| CollectorsReductionDemo.GroupByAge | java/com/demo/streams/CollectorsReductionDemo.java:90-92 | the map `groupingBy(getAge)` collects has exactly the ages present as keys |
| CollectorsReductionDemo.GroupByAgeBuckets | java/com/demo/streams/CollectorsReductionDemo.java:90-92 | `groupingBy(getAge)` maps every age present to exactly its records, in list order |
| CollectorsReductionDemo.RecordInOneBucket | java/com/demo/streams/CollectorsReductionDemo.java:90-92 | every record appears in the bucket of its own age and in no other bucket |
| CollectorsReductionDemo.CountByAge | java/com/demo/streams/CollectorsReductionDemo.java:96-99 | the map `groupingBy(getAge, counting())` collects has exactly the ages present as keys |
| CollectorsReductionDemo.FoldCountOne | java/com/demo/streams/CollectorsReductionDemo.java:96-99 | `counting()` counts its input |
| CollectorsReductionDemo.CountIsBucketSize | java/com/demo/streams/CollectorsReductionDemo.java:96-99 | the count per age equals the size of that age's bucket |
| CollectorsReductionDemo.CountsSumToLength | java/com/demo/streams/CollectorsReductionDemo.java:96-99 | the counts over all ages add up to the number of records |
| CollectorsReductionDemo.BucketSizesSumToLength | java/com/demo/streams/CollectorsReductionDemo.java:90-92 | the bucket sizes add up to the number of records, so none is lost or duplicated |
| CollectorsReductionDemo.NamesOf | java/com/demo/streams/CollectorsReductionDemo.java:105 | `mapping(getName, …)` gives one name per record, in order |
| CollectorsReductionDemo.FoldAppendName | java/com/demo/streams/CollectorsReductionDemo.java:105 | `mapping(getName, toList())` is the list of names of its input |
| CollectorsReductionDemo.NamesByAge | java/com/demo/streams/CollectorsReductionDemo.java:103-106 | the map `groupingBy(getAge, mapping(getName, toList()))` collects has exactly the ages present as keys |
| CollectorsReductionDemo.NamesByAgeBuckets | java/com/demo/streams/CollectorsReductionDemo.java:103-106 | each age's names are the names of that age's bucket, in list order |
| CollectorsReductionDemo.TreeSetAdd | java/com/demo/streams/CollectorsReductionDemo.java:112 | `TreeSet.add` gives the old elements plus the new one |
| CollectorsReductionDemo.TreeSetAddAscending | java/com/demo/streams/CollectorsReductionDemo.java:112 | adding to a strictly ascending set keeps it strictly ascending, so no duplicates arise |
| CollectorsReductionDemo.FoldAddName | java/com/demo/streams/CollectorsReductionDemo.java:112 | `toCollection(TreeSet::new)` over names is strictly ascending and holds exactly the input's names |
| CollectorsReductionDemo.SortedNamesByAge | java/com/demo/streams/CollectorsReductionDemo.java:110-113 | the map `groupingBy(getAge, mapping(getName, toCollection(TreeSet::new)))` collects has exactly the ages present as keys |
| CollectorsReductionDemo.SortedNamesByAgeBuckets | java/com/demo/streams/CollectorsReductionDemo.java:110-113 | each age's sorted name set is strictly ascending and has the same names as the unsorted name list |
| CollectorsReductionDemo.Run | java/com/demo/streams/CollectorsReductionDemo.java:59-116 | a load failure ends `main`; with nobody over 20, `person.get()` throws NoSuchElementException; otherwise the youngest over 20, the oldest, and the four age groupings are as specified |
| BiMapsDemo.WithAgeAndGender | java/com/demo/collections/BiMapsDemo.java:23-29 | the records of a given age and gender, in list order; empty for a gender absent at that age |
| BiMapsDemo.WithGender | java/com/demo/collections/BiMapsDemo.java:26 | the records of a list with a given gender, in order: a record is in it exactly when it is in the list and has that gender |
| BiMapsDemo.AddRecord | java/com/demo/collections/BiMapsDemo.java:24-29 | one step adds the record's age as a key and its gender as a key of that age's inner map |
| BiMapsDemo.AddRecordAt | java/com/demo/collections/BiMapsDemo.java:26-29 | after one step the record's own list gains the record at its end, starting from an empty list; every other list is unchanged |
| BiMapsDemo.BiMapOf | java/com/demo/collections/BiMapsDemo.java:23-29 | the table the `forEach` leaves, one step per record in list order; it is empty exactly when there are no records |
| BiMapsDemo.BiMapOfKeys | java/com/demo/collections/BiMapsDemo.java:24-25 | the outer keys of the table are exactly the ages present |
| BiMapsDemo.BiMapOfGenders | java/com/demo/collections/BiMapsDemo.java:26-29 | the inner keys under an age are exactly the genders present at that age |
| BiMapsDemo.BiMapOfList | java/com/demo/collections/BiMapsDemo.java:26-29 | the list under an age and a gender is exactly the records with that age and gender, in list order |
| BiMapsDemo.PutPerson | java/com/demo/collections/BiMapsDemo.java:24-29 | `computeIfAbsent` plus `merge` for one record: fails with IllegalArgumentException exactly when the age is new and negative, otherwise performs one step |
| BiMapsDemo.BuildBiMap | java/com/demo/collections/BiMapsDemo.java:21-29 | fails exactly when some age is negative, with the first such record's age; otherwise yields the table of the records |
| BiMapsDemo.AgesAreKeys | java/com/demo/collections/BiMapsDemo.java:24-25 | a table with only non-negative keys comes from records with only non-negative ages |
| BiMapsDemo.StopsAtFirstNegative | java/com/demo/collections/BiMapsDemo.java:24-25 | the loop stops at the first record whose age is negative |
| BiMapsDemo.BiMapHasNoEmptyParts | java/com/demo/collections/BiMapsDemo.java:24-29 | the table has no empty inner map and no empty list |
| BiMapsDemo.WithGenderOfBucket | java/com/demo/collections/BiMapsDemo.java:18-29 | an age bucket filtered by gender is the list of records with that age and gender |
| BiMapsDemo.BiMapRefinesGroupByAge | java/com/demo/collections/BiMapsDemo.java:18-29 | the table has the same ages as `groupingBy(getAge)`, and each of its lists is that age's bucket restricted to one gender |
| BiMapsDemo.InnerSizeAppend | java/com/demo/collections/BiMapsDemo.java:26-29 | `merge` of a singleton list adds one record to the inner map |
| BiMapsDemo.TableSizeUpdate | java/com/demo/collections/BiMapsDemo.java:24-25 | replacing one age's inner map replaces only that map's share of the record count |
| BiMapsDemo.TableSizeAddRecord | java/com/demo/collections/BiMapsDemo.java:24-29 | each step adds exactly one record to the table |
| BiMapsDemo.TableSizeIsLength | java/com/demo/collections/BiMapsDemo.java:23-29 | the lengths of all lists add up to the number of records |
| BiMapsDemo.Run | java/com/demo/collections/BiMapsDemo.java:15-34 | a load failure ends `main`; a negative age ends it with IllegalArgumentException; otherwise the results are the age grouping and the nested table |
| JavaHashMap.HashMap.constructor | java/com/demo/collections/MapsDemo.java:35 | `new HashMap<>()` is empty |
| JavaHashMap.HashMap.Get | java/com/demo/collections/MapsDemo.java:18-23 | `get` gives a non-null value only for a present key, where it is the stored value, and null for an absent key |
| JavaHashMap.NullValueIsPresent | java/com/demo/collections/MapsDemo.java:18-23 | a key mapped to null is present (`containsKey`), and `getOrDefault` gives null for it rather than the default, while `get` gives null as for an absent key |
| JavaHashMap.HashMap.GetOrDefault | java/com/demo/collections/MapsDemo.java:18-23 | gives the default only for an absent key; a key mapped to null gives null |
| JavaHashMap.HashMap.Put | java/com/demo/collections/MapsDemo.java:37-40 | stores the value under the key, changes no other entry, and returns the previous value |
| JavaHashMap.HashMap.PutIfAbsent | java/com/demo/collections/MapsDemo.java:25 | stores only where `get` gives null; a non-null value is never overwritten |
| JavaHashMap.HashMap.Replace | java/com/demo/collections/MapsDemo.java:26 | stores only under a key that is present; an absent key leaves the map unchanged |
| JavaHashMap.HashMap.ReplaceIfEquals | java/com/demo/collections/MapsDemo.java:27 | replaces only when the key is present with the given old value, and reports whether it did |
| JavaHashMap.HashMap.ReplaceAll | java/com/demo/collections/MapsDemo.java:28 | keeps the keys and maps every value through the function of its key and old value |
| JavaHashMap.HashMap.RemoveIfEquals | java/com/demo/collections/MapsDemo.java:29 | removes only when the key is present with the given value, and reports whether it did |
| MapsDemo.NameIndex | java/com/demo/collections/MapsDemo.java:37 | the map `forEach(p -> put(p.getName(), p))` leaves, one `put` per record in list order; it is empty exactly when there are no records, and has at most one entry per record |
| MapsDemo.NameIndexLastWins | java/com/demo/collections/MapsDemo.java:37 | the keys are exactly the names, and each name maps to the last record with that name |
| MapsDemo.NameIndexHoldsRecords | java/com/demo/collections/MapsDemo.java:37 | every stored value is a non-null record filed under its own name |
| MapsDemo.BuildNameMap | java/com/demo/collections/MapsDemo.java:35-37 | one `put` per record, in list order, gives a fresh map holding the name index |
| MapsDemo.Run | java/com/demo/collections/MapsDemo.java:33-49 | a load failure ends `main`; otherwise the map is the name index with "test" mapped to null, and the printed name is "sachin" if a record has that name and "Tulasi" otherwise, so `p.getName()` never meets null |
| MapSums.SumValuesRemove | java/com/demo/streams/CollectorsReductionDemo.java:96-99 | a map's value sum is one entry plus the sum of the rest, whichever entry is taken |
| MapSums.SumValuesUpdate | java/com/demo/streams/CollectorsReductionDemo.java:96-99 | storing a value under a key replaces that key's share of the sum |

## Left out

- Reading `persons.txt` and all console output are not modelled. The resource's lines are a
  parameter of each `Run`; an `IOException` and the printing of records and results are left out.
- The literal-data demos and the file and directory readers in other files are not modelled.
  They do not touch the person pipeline.
- com/demo/domain/Person.java is not part of this model. `Person` is taken to be a record with
  plain getters and `setGender`. Two records are equal when their fields are equal; no `equals`
  is visible in the code.
- JavaText.ParseInt: its contract states what a successful parse implies. That every 32-bit
  decimal text is accepted is stated by `ParseFormatInt` instead. It accepts only ASCII digits. `Integer.parseInt` also accepts the digits of
  other Unicode scripts.
- JavaText.CompareStrings: compares Dafny characters, i.e. Unicode scalar values. Java compares
  UTF-16 code units, so the two can differ on characters outside the Basic Multilingual Plane.
- CollectorsReductionDemo.MinByAge: does not state which of several records of equal age is
  returned. `Stream.min` and `Stream.max` keep the earlier one, and the function body does the
  same.
- CollectorsReductionDemo.YoungestOver20: the same tie-breaking is left unstated.
- ComparatorsDemo.SortPersons: the sort is an insertion sort, not the JDK's merge sort. It is
  stated only as "sorted and a permutation". Stability is not stated; `EqualKeysAreEqualRecords`
  shows that stability cannot be observed on the records this demo sorts.
- HashMap iteration and print order are unspecified by the JDK and are not modelled, including
  the order `forEach` and `replaceAll` visit entries in.
- BiMapsDemo.BuildBiMap: the nested `HashMap`s and `ArrayList`s are modelled as values.
  `computeIfAbsent` returns the stored inner map, and `merge` extends the stored list in place;
  the aliasing this relies on is not modelled, only its outcome.
- BiMapsDemo.PutPerson: `new HashMap(age)` with a very large age may run out of memory. The model
  treats every non-negative capacity as accepted.
