/**
 * The values that flow through a pipeline, and the small wrapper types the
 * library uses around them.
 *
 * Java generics are erased, so every pipeline carries plain objects at run
 * time; `Value` is that universe of objects, with Java's `Objects.equals`
 * as Dafny's structural equality (a `Tuple2`, a `List` and a map entry all
 * compare field by field / element by element in Java as well).
 */
module Values {

  datatype Value =
    | Null
    | Int(i: int)
    | Str(s: string)
    /** `Linq.Tuple2`, the pair built by `zip` */
    | Tuple2(value1: Value, value2: Value)
    /** a `java.util.List`, the element type of `chunk` */
    | List(items: seq<Value>)
    /** a `Map.Entry<K, List<T>>`, the element type of `groupBy` */
    | Entry(key: Value, values: seq<Value>)

  /**
   * `Holder<T>`: either `Holder.none()` or `Holder.of(value)`.  A present
   * holder may carry `Null`: presence is not the same as non-null.
   */
  datatype Holder<T> = None | Of(value: T)
  {
    predicate Exists() { Of? }
  }

  /** The exceptions the library throws, by class. */
  datatype Error =
    | IllegalState        // IllegalStateException
    | NoSuchElement       // NoSuchElementException
    | IndexOutOfBounds    // IndexOutOfBoundsException
    | Arithmetic          // ArithmeticException
    | IllegalArgument     // IllegalArgumentException
    | NullPointer         // NullPointerException
    | StackOverflow       // StackOverflowError

  datatype Result<T> = Ok(value: T) | Err(error: Error)

  /**
   * A field that Java leaves `null` until the first pull builds it (the
   * iterator of a buffering stage, the set or map of `except` and `join`).
   */
  datatype Lazy<T> = Unbuilt | Built(value: T)

  /** `Holder.value()`: the carried value, or `NoSuchElementException` when absent. */
  function HolderValue<T>(h: Holder<T>): (r: Result<T>)
    ensures r.Ok? <==> h.Exists()
    ensures r.Ok? ==> h == Of(r.value)
    ensures r.Err? ==> r.error == NoSuchElement
  {
    match h
    case None => Err(NoSuchElement)
    case Of(v) => Ok(v)
  }

  /**
   * Java's `long` division, which truncates toward zero (Dafny's `/` is
   * Euclidean): the quotient's magnitude is that of the natural-number
   * quotient of the magnitudes, and its sign is the product of the
   * operands' signs.
   */
  function JavaDiv(a: int, b: int): (q: int)
    requires b != 0
    ensures Abs(q) == Abs(a) / Abs(b)
    ensures q > 0 ==> (a > 0 <==> b > 0)
    ensures q < 0 ==> (a > 0 <==> b < 0)
  {
    var m := Abs(a) / Abs(b);
    assert 0 <= m by { DivisionOfNaturals(Abs(a), Abs(b)); }
    if (a >= 0) == (b > 0) then m else -m
  }

  lemma DivisionOfNaturals(x: nat, y: nat)
    requires y > 0
    ensures x / y >= 0
  {
  }

  /** Whether `x` fits a Java `int`. */
  predicate IsInt32(x: int)
  {
    -0x8000_0000 <= x < 0x8000_0000
  }

  /** Java `int` arithmetic: the result is reduced modulo 2^32 into the `int` range. */
  function Wrap32(x: int): (r: int)
    ensures IsInt32(r)
    ensures (x - r) % 0x1_0000_0000 == 0
    ensures IsInt32(x) ==> r == x
  {
    (x + 0x8000_0000) % 0x1_0000_0000 - 0x8000_0000
  }

  /** Whether `x` fits a Java `long`. */
  predicate IsInt64(x: int)
  {
    -0x8000_0000_0000_0000 <= x < 0x8000_0000_0000_0000
  }

  /** Java `long` arithmetic: the result is reduced modulo 2^64 into the `long` range. */
  function Wrap64(x: int): (r: int)
    ensures IsInt64(r)
    ensures (x - r) % 0x1_0000_0000_0000_0000 == 0
    ensures IsInt64(x) ==> r == x
  {
    (x + 0x8000_0000_0000_0000) % 0x1_0000_0000_0000_0000 - 0x8000_0000_0000_0000
  }

  function Abs(x: int): (r: nat)
    ensures r == x || r == -x
  {
    if x < 0 then -x else x
  }
}
