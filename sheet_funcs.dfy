/**
 * The built-in sheet functions: `VLOOKUP`, a first-match linear search
 * down the first column of a table, and `HYPERLINK`, which shows its value
 * and ignores its link. src/ takes VLOOKUP's arguments one by one, dist/
 * as one array; both run the same search.
 */
module SheetFuncs {
  import opened Wrappers
  import opened Values

  /** The formula parser's not-available error code. */
  const NotAvailable: string := "N/A"

  /** How a call ends: with a value, or by throwing (lower-casing a needle that is no string). */
  datatype Outcome = Returns(value: Value) | Throws

  /** How one row's first column `v` answers the needle. */
  datatype RowTest = Hit | Miss | Raise

  /**
   * `v === needle`, or `v` a string that contains the needle ignoring
   * case; comparing a string `v` with a needle that is no string throws.
   */
  function Test(needle: Value, v: Value): (t: RowTest)
    ensures t == Hit <==> v == needle || (v.Str? && needle.Str? && Contains(ToLower(v.s), ToLower(needle.s)))
    ensures t == Raise <==> v != needle && v.Str? && !needle.Str?
  {
    if v == needle then Hit
    else if !v.Str? then Miss
    else if !needle.Str? then Raise
    else if Contains(ToLower(v.s), ToLower(needle.s)) then Hit
    else Miss
  }

  /** `row[k]`: `Undefined` outside the row. */
  function At(row: seq<Value>, k: int): (r: Value)
    ensures 0 <= k < |row| ==> r == row[k]
    ensures !(0 <= k < |row|) ==> r == Undefined
  {
    if 0 <= k < |row| then row[k] else Undefined
  }

  /** The first row whose first column does not miss, if any. */
  function FirstNonMiss(needle: Value, table: seq<seq<Value>>): (r: Option<nat>)
    ensures r.None? ==> forall i :: 0 <= i < |table| ==> Test(needle, At(table[i], 0)) == Miss
    ensures r.Some? ==> r.value < |table| && Test(needle, At(table[r.value], 0)) != Miss
                        && forall i :: 0 <= i < r.value ==> Test(needle, At(table[i], 0)) == Miss
    decreases |table|
  {
    if table == [] then None
    else if Test(needle, At(table[0], 0)) != Miss then Some(0)
    else
      match FirstNonMiss(needle, table[1..])
      case None => None
      case Some(i) => Some(i + 1)
  }

  /** The value returned from a matched row: column `index` (1-based) if the row is long enough, else the first column. */
  function Pick(row: seq<Value>, index: int): Value
  {
    if index < |row| + 1 then At(row, index - 1) else At(row, 0)
  }

  /**
   * `VLOOKUP(needle, table, index, exactmatch)`, with `index` already
   * defaulted (an omitted or falsy index is 0). Returns the needle itself
   * for an error or null needle; otherwise the outcome of the first row
   * that does not miss, or the not-available error when every row misses.
   * `exactmatch` does not appear: it cannot change the outcome.
   */
  method VLookup(needle: Value, table: seq<seq<Value>>, index: int, exactmatch: bool) returns (r: Outcome)
    ensures needle.Error? || needle.Null? ==> r == Returns(needle)
    ensures !(needle.Error? || needle.Null?) ==>
              match FirstNonMiss(needle, table)
              case None => r == Returns(Error(NotAvailable))
              case Some(i) => r == if Test(needle, At(table[i], 0)) == Raise then Throws
                                   else Returns(Pick(table[i], index))
  {
    if needle.Error? || needle.Null? {
      return Returns(needle);
    }
    for i := 0 to |table|
      invariant forall k :: 0 <= k < i ==> Test(needle, At(table[k], 0)) == Miss
    {
      var row := table[i];
      var v := At(row, 0);
      var isExact := exactmatch && v == needle;
      if !(v == needle) && v.Str? && !needle.Str? {
        return Throws;       // `needle.toLowerCase` is not a function
      }
      var isApprox := v == needle || (v.Str? && Contains(ToLower(v.s), ToLower(needle.s)));
      if isExact || isApprox {
        return Returns(if index < |row| + 1 then At(row, index - 1) else v);
      }
    }
    return Returns(Error(NotAvailable));
  }

  /** The table of the lookup example: letters a..e against the numbers 2..6. */
  function LetterTable(): seq<seq<Value>>
  {
    [[Str("a"), Num(2)], [Str("b"), Num(3)], [Str("c"), Num(4)], [Str("d"), Num(5)], [Str("e"), Num(6)]]
  }

  /** Looking up "c" in the letter table with index 2 finds the third row and yields 4. */
  lemma LookupExample()
    ensures FirstNonMiss(Str("c"), LetterTable()) == Some(2)
    ensures Pick(LetterTable()[2], 2) == Num(4)
  {
    var t := LetterTable();
    forall a: string | a in ["a", "b"]
      ensures !Contains(ToLower(a), ToLower("c"))
    {
      assert ToLower(a) == a && ToLower("c") == "c";
      forall i: nat | i <= |a|
        ensures !OccursAt(a, "c", i)
      {
        if i + 1 <= |a| {
          assert a[i..i + 1] == [a[0]];
        }
      }
    }
    assert ToLower("c") == "c";
    assert OccursAt("c", "c", 0);
    assert Test(Str("c"), At(t[0], 0)) == Miss;
    assert Test(Str("c"), At(t[1], 0)) == Miss;
    assert Test(Str("c"), At(t[2], 0)) == Hit;
    assert t[1..][1..] == t[2..];
  }

  /** `HYPERLINK([link, value])`: the displayed value; `Undefined` when it is missing. */
  function Hyperlink(args: seq<Value>): (r: Value)
    ensures |args| >= 2 ==> r == args[1]
    ensures |args| < 2 ==> r == Undefined
  {
    At(args, 1)
  }
}
