/**
 * Small PHP-level notions shared by the whole model: an optional value (PHP
 * `null`), the outcome of an operation that may throw, the exceptions the
 * core raises, and PHP truthiness for the argument kinds the core tests with
 * `if ($x)`, `$a ?: $b` and `empty($x)`.
 */
module Php {

  datatype Option<+T> = None | Some(value: T)

  /** What the core's operations throw. */
  datatype Error =
    | NotFound(path: string)                    // the storage driver found no file at `path`
    | WriteFailed(disk: string, path: string)   // the storage driver threw while writing
    | InvalidClippable                          // `Invalid clippable type %s/%s.`
    | ArrayToString                             // the notice "Array to string conversion", which the
                                                // framework's error handler raises as an `ErrorException`
    | ProcessorFailed(reason: string)           // an exception a processor throws, passed on unchanged
    | MissingArgument(callee: string)           // a call that omits a required parameter of `callee`
    | NullArgument(callee: string)              // null, or nothing, passed for a parameter of `callee`
                                                // typed with a class that admits no null (a `TypeError`)

  /** An operation that either returns a value or throws. */
  datatype Result<+T> = Ok(value: T) | Err(error: Error)

  /** PHP truthiness of a string: only "" and "0" are falsy. */
  predicate TruthyString(s: string)
  {
    s != "" && s != "0"
  }

  /** PHP truthiness of a nullable string. */
  predicate Truthy(s: Option<string>)
  {
    s.Some? && TruthyString(s.value)
  }

  /** PHP truthiness of a nullable integer key: null and 0 are falsy. */
  predicate TruthyKey(k: Option<nat>)
  {
    k.Some? && k.value != 0
  }

  /** `strtolower` on one byte: only the ASCII capitals change. */
  function LowerChar(c: char): char
  {
    if 'A' <= c <= 'Z' then (c as int - 'A' as int + 'a' as int) as char else c
  }

  /**
   * PHP looks methods up by their lower-cased name, so `method_exists` and
   * `$object->$name()` ignore ASCII case.
   */
  function Lower(s: string): (r: string)
    ensures |r| == |s|
    ensures forall i :: 0 <= i < |s| ==> r[i] == LowerChar(s[i])
  {
    seq(|s|, i requires 0 <= i < |s| => LowerChar(s[i]))
  }

  /** Lower-casing is idempotent: a lower-cased name is its own lookup key. */
  lemma LowerIdempotent(s: string)
    ensures Lower(Lower(s)) == Lower(s)
  {
    assert forall i :: 0 <= i < |s| ==> LowerChar(LowerChar(s[i])) == LowerChar(s[i]);
  }

  /** A method table as PHP keeps it: every name lower-cased. */
  predicate LowerKeyed<V>(m: map<string, V>)
  {
    forall k :: k in m ==> Lower(k) == k
  }
}
