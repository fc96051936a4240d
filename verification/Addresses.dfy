/** How a flat key addresses a row of a table. */
module Addresses {
  import opened Prelude
  import Joining

  datatype RowAddress = RowAddress(table: string, primaryKey: string)

  /** The text before and after the first separator. */
  function SplitOnce(text: string, separator: char): (parts: Option<(string, string)>)
    ensures parts.None? <==> separator !in text
    ensures parts.Some? ==> text == parts.value.0 + [separator] + parts.value.1 && separator !in parts.value.0
  {
    if text == "" then None
    else if text[0] == separator then Some(("", text[1..]))
    else
      var rest := SplitOnce(text[1..], separator);
      assert text == [text[0]] + text[1..];
      if rest.None? then None else Some(([text[0]] + rest.value.0, rest.value.1))
  }

  /** `RowAddress::parse`. */
  function ParseAddress(key: string): Option<RowAddress> {
    match SplitOnce(key, ':')
    case None => None
    case Some((table, primaryKey)) =>
      if table == "" || primaryKey == "" then None else Some(RowAddress(table, primaryKey))
  }

  function RowKey(table: string, primaryKey: string): string {
    table + [':'] + primaryKey
  }

  /** A row can be found under its key exactly when its table's name has no colon and neither
      name nor primary key is empty; the primary key may contain anything. */
  lemma AddressRoundTripExactly(table: string, primaryKey: string)
    ensures ParseAddress(RowKey(table, primaryKey)) == Some(RowAddress(table, primaryKey))
            <==> ':' !in table && table != "" && primaryKey != ""
  {
    var key := RowKey(table, primaryKey);
    assert key[|table|] == ':';
    var parts := SplitOnce(key, ':').value;
    if ':' !in table {
      Joining.FirstSeparator(parts.0, parts.1, table, primaryKey, ':');
    }
  }

  /** A key that addresses a row is the key of that row and of no other. */
  lemma AddressedKeyIsRowKey(key: string)
    ensures ParseAddress(key).Some? ==>
              var a := ParseAddress(key).value; key == RowKey(a.table, a.primaryKey) && ':' !in a.table
  {}

  /** Keys of tables whose names have no colon are shared only by the same row of the same table. */
  lemma RowKeysApart(t: string, k: string, u: string, l: string)
    requires ':' !in t && ':' !in u && RowKey(t, k) == RowKey(u, l)
    ensures t == u && k == l
  {
    Joining.FirstSeparator(t, k, u, l, ':');
  }

  /** A colon in a table's name makes its rows another table's. */
  lemma ColonMovesTheRow(t: string, u: string, k: string)
    requires t != "" && ':' !in t && u + [':'] + k != ""
    ensures RowKey(t + [':'] + u, k) == RowKey(t, u + [':'] + k)
    ensures ParseAddress(RowKey(t + [':'] + u, k)) == Some(RowAddress(t, u + [':'] + k))
  {
    assert (t + [':'] + u) + [':'] + k == t + [':'] + (u + [':'] + k);
    AddressRoundTripExactly(t, u + [':'] + k);
  }
}
