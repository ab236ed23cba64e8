/**
 * The ninth GFF column, `key=value` pairs separated by `;`, turned into a
 * dictionary the way `dict(item.split("=") for item in column.split(";")
 * if "=" in item)` does it.
 */
module Attributes {
  import opened Wrappers
  import PyStr

  /** Items without `=` are dropped by the comprehension's filter. */
  predicate HasEquals(item: string) {
    '=' in item
  }

  /** An item that `split("=")` cuts into exactly a key and a value. */
  predicate IsPair(item: string) {
    HasEquals(item) && |PyStr.Split(item, '=')| == 2
  }

  /** An item with two or more `=`: `dict` rejects the longer list it splits into. */
  predicate IsMalformed(item: string) {
    HasEquals(item) && |PyStr.Split(item, '=')| != 2
  }

  function Key(item: string): string
    requires IsPair(item)
  {
    PyStr.Split(item, '=')[0]
  }

  function Value(item: string): string
    requires IsPair(item)
  {
    PyStr.Split(item, '=')[1]
  }

  /** `key=value` with no other `=` is a pair that splits back into that key and value. */
  lemma PairOfKeyValue(key: string, value: string)
    requires '=' !in key && '=' !in value
    ensures IsPair(key + "=" + value)
    ensures Key(key + "=" + value) == key && Value(key + "=" + value) == value
  {
    assert PyStr.Join([key, value], '=') == key + "=" + value;
    PyStr.SplitJoin([key, value], '=');
  }

  /** No later pair of `items` has the same key as the pair at `i`. */
  predicate LastWithKey(items: seq<string>, i: nat)
    requires i < |items| && IsPair(items[i])
  {
    forall j :: i < j < |items| && IsPair(items[j]) ==> Key(items[j]) != Key(items[i])
  }

  /** Builds the dictionary from the items in order, stopping at the first malformed one. */
  function Collect(items: seq<string>): Result<map<string, string>, string> {
    if items == [] then Ok(map[])
    else
      var item := items[|items| - 1];
      match Collect(items[..|items| - 1])
      case Err(e) => Err(e)
      case Ok(m) =>
        if !HasEquals(item) then Ok(m)
        else if !IsPair(item) then Err(item)
        else Ok(m[Key(item) := Value(item)])
  }

  /** `dict` fails exactly when some item is malformed, and it names the first one. */
  lemma {:induction false} CollectFails(items: seq<string>)
    ensures Collect(items).Err? <==> exists i :: 0 <= i < |items| && IsMalformed(items[i])
    ensures Collect(items).Err? ==>
              exists i :: 0 <= i < |items| && items[i] == Collect(items).error && IsMalformed(items[i])
                          && forall j :: 0 <= j < i ==> !IsMalformed(items[j])
  {
    if items != [] {
      var init := items[..|items| - 1];
      CollectFails(init);
      assert forall i :: 0 <= i < |init| ==> init[i] == items[i];
    }
  }

  /** The keys of the dictionary are exactly the keys of the pairs. */
  lemma {:induction false} CollectKeys(items: seq<string>)
    requires Collect(items).Ok?
    ensures forall key :: key in Collect(items).value <==>
              exists i :: 0 <= i < |items| && IsPair(items[i]) && Key(items[i]) == key
  {
    if items != [] {
      var init := items[..|items| - 1];
      CollectKeys(init);
      assert forall i :: 0 <= i < |init| ==> init[i] == items[i];
    }
  }

  /** Every value in the dictionary is the value of some pair with its key. */
  lemma {:induction false} CollectValues(items: seq<string>)
    requires Collect(items).Ok?
    ensures forall key :: key in Collect(items).value ==>
              exists i :: 0 <= i < |items| && IsPair(items[i]) && Key(items[i]) == key
                          && Collect(items).value[key] == Value(items[i])
  {
    if items != [] {
      var init := items[..|items| - 1];
      CollectValues(init);
      assert forall i :: 0 <= i < |init| ==> init[i] == items[i];
    }
  }

  /** A later pair with a key already seen overwrites it: the last pair with each key wins. */
  lemma {:induction false} CollectLastWins(items: seq<string>, i: nat)
    requires Collect(items).Ok?
    requires i < |items| && IsPair(items[i]) && LastWithKey(items, i)
    ensures Key(items[i]) in Collect(items).value
    ensures Collect(items).value[Key(items[i])] == Value(items[i])
  {
    var init := items[..|items| - 1];
    assert forall j :: 0 <= j < |init| ==> init[j] == items[j];
    if i < |items| - 1 {
      CollectLastWins(init, i);
    }
  }

  /** The attribute column parsed into its dictionary, or the item `dict` rejects. */
  function Parse(column: string): Result<map<string, string>, string> {
    Collect(PyStr.Split(column, ';'))
  }

  /** Every character of every value comes from the column. */
  lemma ValuesFromColumn(column: string)
    requires Parse(column).Ok?
    ensures forall key, k :: key in Parse(column).value && 0 <= k < |Parse(column).value[key]| ==>
              Parse(column).value[key][k] in column
  {
    var items := PyStr.Split(column, ';');
    var m := Parse(column).value;
    CollectValues(items);
    PyStr.SplitPiecesFromSource(column, ';');
    forall key, k | key in m && 0 <= k < |m[key]| ensures m[key][k] in column {
      var i :| 0 <= i < |items| && IsPair(items[i]) && Key(items[i]) == key && m[key] == Value(items[i]);
      PyStr.SplitPiecesFromSource(items[i], '=');
      assert m[key][k] in items[i];
    }
  }
}
