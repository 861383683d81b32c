/**
 * The row objects `sheet_to_json` hands to the search route: each row is an
 * object whose own properties, in `Object.keys` order, are the sheet's
 * column headers, and whose values are cells (`null` where the sheet is blank).
 */
module Rows {
  import opened Wrappers
  import opened JsStrings

  /** A cell value: `null`, a string, an integral number or a boolean. */
  datatype Cell = Null | Text(s: string) | Num(n: int) | Bool(b: bool)

  /**
   * A row object: its properties in `Object.keys` order. A JavaScript object
   * never has two properties of one name; the type does not forbid it, and
   * `Lookup` reads the first, so on rows with distinct names, the only ones
   * the route sees, it reads the single property of that name.
   */
  type Row = seq<(string, Cell)>

  /** `Object.keys(row)` */
  function KeysOf(row: Row): (keys: seq<string>)
    ensures |keys| == |row|
    ensures forall i :: 0 <= i < |row| ==> keys[i] == row[i].0
  {
    seq(|row|, i requires 0 <= i < |row| => row[i].0)
  }

  /** `row[key]`: the value of the property named `key`, `None` when it is `undefined`. */
  function Lookup(row: Row, key: string): (v: Option<Cell>)
    ensures v.None? <==> key !in KeysOf(row)
    ensures v.Some? ==> exists i :: 0 <= i < |row| && row[i] == (key, v.value)
  {
    if row == [] then None
    else if row[0].0 == key then Some(row[0].1)
    else
      var v := Lookup(row[1..], key);
      assert KeysOf(row) == [row[0].0] + KeysOf(row[1..]);
      assert v.Some? ==> exists i :: 0 <= i < |row| && row[i] == (key, v.value) by {
        if v.Some? {
          var i :| 0 <= i < |row[1..]| && row[1..][i] == (key, v.value);
          assert row[i + 1] == (key, v.value);
        }
      }
      v
  }

  /**
   * `String(value)` for a non-null cell: a string is itself; a number or a
   * boolean becomes a text that trimming and lower-casing leave unchanged.
   */
  function Stringify(c: Cell): (s: string)
    requires !c.Null?
    ensures c.Text? ==> s == c.s
    ensures c.Num? ==> s == IntToDecimal(c.n)
    ensures !c.Text? ==> Trim(s) == s && ToLower(s) == s
    ensures c.Bool? ==> s == (if c.b then "true" else "false")
  {
    match c
    case Text(t) => t
    case Num(n) =>
      DecimalIsNormal(n);
      IntToDecimal(n)
    case Bool(b) =>
      var t := if b then "true" else "false";
      PlainTextIsNormal(t);
      t
  }
}
