/** The parts of `java.lang.Object`'s contract that the entities override:
    the argument of `equals(Object)` and the `hashCode` arithmetic of
    `Objects.hash`, `String`, `Long` and `Boolean`, with 32-bit wrap-around. */
module JavaObjects {
  import opened Common

  /** The argument of `equals(Object obj)`: `null`, an object of the same class,
      or an object of some other class. */
  datatype Obj<T> = Null | Same(v: T) | Other

  const IntModulus: int := 0x1_0000_0000
  const MinInt: int := -0x8000_0000
  const MaxInt: int := 0x7FFF_FFFF

  /** The narrowing of an integer to a Java `int`: the unique 32-bit value congruent to it. */
  function ToInt(x: int): (r: int)
    ensures MinInt <= r <= MaxInt
    ensures (x - r) % IntModulus == 0
  {
    var m := x % IntModulus;
    if m <= MaxInt then m else m - IntModulus
  }

  /** `String.hashCode`: h = 31 * h + c over the characters, in `int` arithmetic. */
  function StringHash(s: string): (h: int)
    ensures MinInt <= h <= MaxInt
  {
    if s == [] then 0 else ToInt(31 * StringHash(s[..|s| - 1]) + s[|s| - 1] as int)
  }

  /** `Long.hashCode`: `(int) (v ^ (v >>> 32))` on the 64-bit two's complement of `v`. */
  function LongHash(v: int): (h: int)
    ensures MinInt <= h <= MaxInt
  {
    var u := (v % 0x1_0000_0000_0000_0000) as bv64;
    ToInt((u ^ (u >> 32)) as int)
  }

  /** `Boolean.hashCode`. */
  function BoolHash(b: bool): int
  {
    if b then 1231 else 1237
  }

  /** The hash of a nullable `String` inside `Objects.hash`: 0 for null. */
  function OptStringHash(s: Option<string>): (h: int)
    ensures MinInt <= h <= MaxInt
  {
    if s.None? then 0 else StringHash(s.value)
  }

  /** The hash of a nullable `Long`-like value inside `Objects.hash`: 0 for null. */
  function OptLongHash(v: Option<int>): (h: int)
    ensures MinInt <= h <= MaxInt
  {
    if v.None? then 0 else LongHash(v.value)
  }

  /** `AbstractSet.hashCode` of a `Set<String>`: the `int` sum of the element hashes. */
  ghost function StringSetHash(s: set<string>): (h: int)
    ensures MinInt <= h <= MaxInt
  {
    if s == {} then 0
    else
      var x :| x in s;
      ToInt(StringHash(x) + StringSetHash(s - {x}))
  }

  /** `Objects.hash(a1, ..., an)`, given the hashes of its arguments: result = 1,
      then result = 31 * result + h for each argument, in `int` arithmetic. */
  function ObjectsHash(parts: seq<int>): (h: int)
    ensures MinInt <= h <= MaxInt
  {
    if parts == [] then 1 else ToInt(31 * ObjectsHash(parts[..|parts| - 1]) + parts[|parts| - 1])
  }
}
