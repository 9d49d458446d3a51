/**
 * Cell values as they flow through the value store, formulas and the
 * built-in sheet functions. JavaScript's dynamic values are reduced to
 * the cases the engine distinguishes.
 */
module Values {

  datatype Value =
    | Undefined           // a missing list slot, property or argument
    | Null
    | Num(n: int)
    | Str(s: string)
    | Bool(b: bool)
    | Error(code: string) // an `Error` object, such as the not-available error
    | Loading             // the LOADING sentinel of an unfinished asynchronous function

  /** JavaScript truthiness, restricted to the cases of `Value`. */
  predicate Truthy(v: Value)
  {
    match v
    case Undefined => false
    case Null => false
    case Num(n) => n != 0
    case Str(s) => s != ""
    case Bool(b) => b
    case Error(_) => true
    case Loading => true
  }

  /** ASCII upper-casing of one character (other characters are unchanged). */
  function Upper(c: char): char
  {
    if 'a' <= c <= 'z' then (c as int - 32) as char else c
  }

  /** ASCII lower-casing of one character (other characters are unchanged). */
  function Lower(c: char): char
  {
    if 'A' <= c <= 'Z' then (c as int + 32) as char else c
  }

  function ToUpper(s: string): (r: string)
    ensures |r| == |s|
    ensures forall i :: 0 <= i < |s| ==> r[i] == Upper(s[i])
  {
    seq(|s|, i requires 0 <= i < |s| => Upper(s[i]))
  }

  function ToLower(s: string): (r: string)
    ensures |r| == |s|
    ensures forall i :: 0 <= i < |s| ==> r[i] == Lower(s[i])
  {
    seq(|s|, i requires 0 <= i < |s| => Lower(s[i]))
  }

  /** `s.startsWith(prefix)` */
  predicate StartsWith(s: string, prefix: string)
  {
    |prefix| <= |s| && s[..|prefix|] == prefix
  }

  /** `needle` occurs in `hay` starting at index `i`. */
  predicate OccursAt(hay: string, needle: string, i: nat)
  {
    i + |needle| <= |hay| && hay[i..i + |needle|] == needle
  }

  /** `hay.indexOf(needle) != -1` */
  predicate Contains(hay: string, needle: string)
  {
    exists i: nat :: i <= |hay| && OccursAt(hay, needle, i)
  }
}
