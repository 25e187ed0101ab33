/**
 * PersonUtil.getPersons: every line of persons.txt becomes a Person with name, age and gender,
 * appended to a list in line order.
 */
module PersonUtil {
  import opened Wrappers
  import opened Domain
  import opened JavaText
  import opened Loading

  /**
   * The body of the per-line lambda: `s = line.split(" ")`, then `new Person(s[0].trim(),
   * Integer.parseInt(s[1]))`, then `setGender(s[2].trim())`. Java evaluates `s[0]`, `s[1]`,
   * `parseInt` and `s[2]` in that order, so the first of them that throws decides the error.
   */
  function ParseLine(line: string): (r: Result<Person, JavaException>)
    ensures r.Success? ==> IsTrimmed(r.value.name) && IsInt32(r.value.age)
    ensures r.Success? ==> r.value.gender.Some? && IsTrimmed(r.value.gender.value)
    ensures r.Failure? ==> r.error.IndexOutOfBounds? || r.error.NumberFormat?
    ensures r.Success? <==> |Split(line)| >= 3 && ParseInt(Split(line)[1]).Some?
    ensures |Split(line)| < 2 ==> r == Failure(IndexOutOfBounds(|Split(line)|))
    ensures |Split(line)| >= 2 && ParseInt(Split(line)[1]).None? ==> r == Failure(NumberFormat(Split(line)[1]))
  {
    var s := Split(line);
    if |s| == 0 then Failure(IndexOutOfBounds(0))
    else if |s| == 1 then Failure(IndexOutOfBounds(1))
    else
      match ParseInt(s[1])
      case None => Failure(NumberFormat(s[1]))
      case Some(age) =>
        if |s| == 2 then Failure(IndexOutOfBounds(2))
        else
          var p := Person(Trim(s[0]), age, None);
          Success(p.(gender := Some(Trim(s[2]))))
  }

  /**
   * `getPersons()` over the lines of the resource: the stream's `map` step appends each parsed
   * record to `persons`; an exception from a line is not an IOException, so it leaves the method.
   */
  method GetPersons(lines: seq<string>) returns (r: Result<seq<Person>, JavaException>)
    ensures r == Load(lines, ParseLine)
  {
    r := LoadLines(lines, ParseLine);
  }

  /** A line in the layout persons.txt uses: name, age and gender separated by single spaces. */
  function FormatLine(name: string, age: int, gender: string): string
  {
    Join([name, FormatInt(age), gender])
  }

  /** A token the layout can carry: no space in it and nothing `trim()` would remove. */
  predicate IsPlainToken(t: string)
  {
    ' ' !in t && IsTrimmed(t)
  }

  /** Every well-formed line is read back as the record it was written from. */
  lemma ParseFormatLine(name: string, age: int, gender: string)
    requires IsPlainToken(name) && IsPlainToken(gender) && gender != ""
    requires IsInt32(age)
    ensures ParseLine(FormatLine(name, age, gender)) == Success(Person(name, age, Some(gender)))
  {
    var toks := [name, FormatInt(age), gender];
    SplitJoin(toks);
    ParseFormatInt(age);
  }

  /**
   * Any line of three or more tokens with a well-formed age: the name is the first token trimmed,
   * the age is the second token's value, the gender is the third token trimmed, and the tokens
   * after the third are ignored.
   */
  lemma ParseTokens(toks: seq<string>, age: int)
    requires |toks| >= 3
    requires forall k :: 0 <= k < |toks| ==> ' ' !in toks[k]
    requires toks[|toks| - 1] != ""
    requires IsInt32(age) && toks[1] == FormatInt(age)
    ensures ParseLine(Join(toks)) == Success(Person(Trim(toks[0]), age, Some(Trim(toks[2]))))
  {
    SplitJoin(toks);
    ParseFormatInt(age);
  }

  /** An empty line splits into the single token "" and fails at `s[1]`. */
  lemma EmptyLineFails()
    ensures ParseLine("") == Failure(IndexOutOfBounds(1))
  {
    assert Split("") == [""];
  }

  /** A non-empty line of spaces splits into no token and fails at `s[0]`. */
  lemma BlankLineFails(line: string)
    requires line != [] && forall k :: 0 <= k < |line| ==> line[k] == ' '
    ensures ParseLine(line) == Failure(IndexOutOfBounds(0))
  {
    SplitOnlySpaces(line);
  }

  /** A line with a name and a valid age but no gender fails at `s[2]`. */
  lemma MissingGenderFails(name: string, age: int)
    requires IsPlainToken(name) && IsInt32(age)
    ensures ParseLine(name + " " + FormatInt(age)) == Failure(IndexOutOfBounds(2))
  {
    var toks := [name, FormatInt(age)];
    assert Join(toks) == name + " " + FormatInt(age);
    SplitJoin(toks);
    ParseFormatInt(age);
  }

  /** A non-numeric age token fails with NumberFormatException even when a gender follows. */
  lemma BadAgeFails(name: string, age: string, gender: string)
    requires IsPlainToken(name) && IsPlainToken(gender) && gender != "" && ' ' !in age
    requires ParseInt(age).None?
    ensures ParseLine(Join([name, age, gender])) == Failure(NumberFormat(age))
  {
    SplitJoin([name, age, gender]);
  }
}
