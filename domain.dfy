/**
 * The record shared by all demos (com.demo.domain.Person, whose source is not part of this model)
 * and the unchecked exceptions that escape the person pipeline.
 */
module Domain {
  import opened Wrappers

  /** Bounds of Java's `int`. */
  const MinInt: int := -0x8000_0000
  const MaxInt: int := 0x7FFF_FFFF

  predicate IsInt32(n: int) { MinInt <= n <= MaxInt }

  /**
   * A person record: the name, the age (a Java `int`) and the gender, which is `None`
   * when `setGender` was never called (a Java `null`).
   */
  datatype Person = Person(name: string, age: int, gender: Option<string>)

  /** The exceptions the pipeline can raise; none of them is caught by the demo code. */
  datatype JavaException =
    | IndexOutOfBounds(index: int)   // ArrayIndexOutOfBoundsException on the array of split tokens
    | NumberFormat(input: string)    // NumberFormatException from Integer.parseInt
    | NoSuchElement                  // NoSuchElementException from Optional.get on an empty Optional
    | IllegalArgument(capacity: int) // IllegalArgumentException from new HashMap(int) with a negative capacity
}
