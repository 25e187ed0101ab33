/**
 * The load loop the demos share: each line of the resource is parsed in order and the record
 * appended to the list; the first exception a line raises escapes the loop (only IOException is
 * caught), so no partial list is ever returned.
 */
module Loading {
  import opened Wrappers
  import opened Domain

  /** Parse every line with `parse`, in line order; fail with the error of the first line that fails. */
  function Load(lines: seq<string>, parse: string -> Result<Person, JavaException>): (r: Result<seq<Person>, JavaException>)
    ensures r.Success? <==> forall i :: 0 <= i < |lines| ==> parse(lines[i]).Success?
    ensures r.Success? ==> |r.value| == |lines|
    ensures r.Success? ==> forall i :: 0 <= i < |lines| ==> r.value[i] == parse(lines[i]).value
    ensures r.Failure? ==> exists k :: FirstFailure(lines, parse, k) && r.error == parse(lines[k]).error
    decreases |lines|
  {
    if lines == [] then Success([])
    else
      match parse(lines[0])
      case Failure(e) =>
        assert FirstFailure(lines, parse, 0);
        Failure(e)
      case Success(p) =>
        var rest := Load(lines[1..], parse);
        match rest
        case Failure(e) =>
          assert forall k :: FirstFailure(lines[1..], parse, k) ==> FirstFailure(lines, parse, k + 1);
          Failure(e)
        case Success(ps) => Success([p] + ps)
  }

  /** Line `k` is the first line whose parse fails. */
  ghost predicate FirstFailure(lines: seq<string>, parse: string -> Result<Person, JavaException>, k: int)
  {
    0 <= k < |lines| && parse(lines[k]).Failure? && forall i :: 0 <= i < k ==> parse(lines[i]).Success?
  }

  /** The load fails exactly with the error of its first failing line. */
  lemma LoadFailsAt(lines: seq<string>, parse: string -> Result<Person, JavaException>, k: int)
    requires FirstFailure(lines, parse, k)
    ensures Load(lines, parse) == Failure(parse(lines[k]).error)
  {
    var r := Load(lines, parse);
    var j :| FirstFailure(lines, parse, j) && r.error == parse(lines[j]).error;
    assert !(j < k) && !(k < j);
  }

  /** The load succeeds with one record per line when every line parses. */
  lemma LoadSucceedsWith(lines: seq<string>, parse: string -> Result<Person, JavaException>, ps: seq<Person>)
    requires |ps| == |lines|
    requires forall i :: 0 <= i < |lines| ==> parse(lines[i]) == Success(ps[i])
    ensures Load(lines, parse) == Success(ps)
  {
    var r := Load(lines, parse);
    assert r.value == ps;
  }

  /**
   * The load loop: `stream.map(line -> ...).forEach(...)` with a lambda that appends the parsed
   * record to `persons`; the stream is consumed in line order and an exception thrown by the
   * lambda leaves the loop at once.
   */
  method LoadLines(lines: seq<string>, parse: string -> Result<Person, JavaException>) returns (r: Result<seq<Person>, JavaException>)
    ensures r == Load(lines, parse)
  {
    var persons: seq<Person> := [];
    var i := 0;
    while i < |lines|
      invariant 0 <= i <= |lines|
      invariant |persons| == i
      invariant forall j :: 0 <= j < i ==> parse(lines[j]) == Success(persons[j])
    {
      var parsed := parse(lines[i]);
      if parsed.Failure? {
        LoadFailsAt(lines, parse, i);
        return Failure(parsed.error);
      }
      persons := persons + [parsed.value];
      i := i + 1;
    }
    LoadSucceedsWith(lines, parse, persons);
    r := Success(persons);
  }
}
