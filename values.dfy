/**
  The JavaScript values that flow through a table view data source.

  A data-set item is a plain object whose properties are read and written
  in place, so it is a class `Item` holding a map from property name to
  value; a property that is absent from the map is `undefined`.  The value
  helpers of the data source (`getValuesArray`, `getValuesObject`,
  `setValuesFromObject`, `clearValues`) are specified here by functions
  over snapshots of the items' property maps, and their properties are
  proved about those functions.
*/
module Values {

  datatype Option<T> = None | Some(value: T)

  /** A JavaScript value; `undefined` is an absent property. Numbers are integers. */
  datatype Value =
    | Null
    | Bool(b: bool)
    | Num(n: int)
    | Str(s: string)
    | Arr(elems: seq<Value>)
    | Obj(item: Item)

  type Fields = map<string, Value>

  /** A data-set item: a plain object shared by reference and updated in place. */
  class Item {
    var fields: Fields

    constructor(fields: Fields)
      ensures this.fields == fields
    {
      this.fields := fields;
    }
  }

  /** JavaScript truthiness. */
  predicate Truthy(v: Value)
  {
    match v
    case Null => false
    case Bool(b) => b
    case Num(n) => n != 0
    case Str(s) => s != ""
    case Arr(_) => true
    case Obj(_) => true
  }

  /** Truthiness of a possibly undefined property. */
  predicate TruthyField(f: Fields, key: string)
  {
    key in f && Truthy(f[key])
  }

  /** `name || fallback` for a string argument (an omitted argument is the empty string). */
  function OrDefault(name: string, fallback: string): (r: string)
    ensures fallback != "" ==> r != ""
    ensures name != "" ==> r == name
    ensures name == "" ==> r == fallback
  {
    if name != "" then name else fallback
  }

  function Digit(d: nat): char
    requires d < 10
  {
    "0123456789"[d]
  }

  function Decimal(n: nat): (r: string)
    ensures |r| >= 1
  {
    if n < 10 then [Digit(n)] else Decimal(n / 10) + [Digit(n % 10)]
  }

  /**
    `String(v)`, the property key a value becomes when it indexes an object:
    arrays join their elements with "," (null elements giving ""), objects
    print as "[object Object]".
  */
  function KeyOf(v: Value): string
  {
    match v
    case Null => "null"
    case Bool(b) => if b then "true" else "false"
    case Num(n) => if n < 0 then "-" + Decimal(-n) else Decimal(n)
    case Str(s) => s
    case Arr(es) => JoinKeys(es)
    case Obj(_) => "[object Object]"
  }

  function JoinKeys(es: seq<Value>): string
  {
    if es == [] then ""
    else
      var first := if es[0].Null? then "" else KeyOf(es[0]);
      if |es| == 1 then first else first + "," + JoinKeys(es[1..])
  }

  /** The property maps of a sequence of items, as they are now. */
  function FieldsOf(items: seq<Item>): (r: seq<Fields>)
    reads set it | it in items
    ensures |r| == |items| && forall i :: 0 <= i < |items| ==> r[i] == items[i].fields
  {
    if items == [] then [] else FieldsOf(items[..|items| - 1]) + [items[|items| - 1].fields]
  }

  /** The items of a sequence of object values, None when some element is not an object. */
  function ObjectItems(es: seq<Value>): (r: Option<seq<Item>>)
    ensures r.Some? ==> |r.value| == |es| && forall i :: 0 <= i < |es| ==> es[i] == Obj(r.value[i])
    ensures r.Some? <==> forall e :: e in es ==> e.Obj?
  {
    if es == [] then Some([])
    else if !es[0].Obj? then None
    else
      match ObjectItems(es[1..])
      case None => None
      case Some(rest) => Some([es[0].item] + rest)
  }

  // ---------------------------------------------------------------------
  // getValuesArray

  /** One `{name, value}` entry of the values array. */
  datatype NameValue = NameValue(name: Value, value: Value)

  /** The entry one item contributes: none when its value field is undefined; a falsy name becomes the key field name. */
  function EntryOf(f: Fields, keyField: string, valueField: string): seq<NameValue>
  {
    if valueField in f then
      [NameValue(if TruthyField(f, keyField) then f[keyField] else Str(keyField), f[valueField])]
    else []
  }

  /** The values array of a data set whose items hold the given property maps, in data-set order. */
  function ValuesArray(items: seq<Fields>, keyField: string, valueField: string): seq<NameValue>
  {
    if items == [] then []
    else ValuesArray(items[..|items| - 1], keyField, valueField) + EntryOf(items[|items| - 1], keyField, valueField)
  }

  /** The values array of a concatenation is the concatenation of the values arrays: entries keep data-set order. */
  lemma {:induction false} ValuesArrayConcat(a: seq<Fields>, b: seq<Fields>, keyField: string, valueField: string)
    ensures ValuesArray(a + b, keyField, valueField) == ValuesArray(a, keyField, valueField) + ValuesArray(b, keyField, valueField)
    decreases |b|
  {
    if b == [] {
      assert a + b == a;
    } else {
      assert (a + b)[..|a + b| - 1] == a + b[..|b| - 1];
      ValuesArrayConcat(a, b[..|b| - 1], keyField, valueField);
    }
  }

  /** The positions of the items whose value field is defined. */
  ghost function DefinedPositions(items: seq<Fields>, valueField: string): set<int>
  {
    set i | 0 <= i < |items| && valueField in items[i]
  }

  /** The defined positions of items are those of all but its last item, and the last one when it is defined. */
  lemma DefinedPositionsSnoc(items: seq<Fields>, valueField: string)
    requires items != []
    ensures var n := |items| - 1;
            DefinedPositions(items, valueField) ==
              DefinedPositions(items[..n], valueField) + (if valueField in items[n] then {n} else {}) &&
            n !in DefinedPositions(items[..n], valueField)
  {
    var n := |items| - 1;
    forall i | 0 <= i < n ensures items[..n][i] == items[i] { }
  }

  /** There is exactly one entry per item whose value is defined. */
  lemma {:induction false} ValuesArrayOnePerDefinedValue(items: seq<Fields>, keyField: string, valueField: string)
    ensures |ValuesArray(items, keyField, valueField)| == |DefinedPositions(items, valueField)|
  {
    if items != [] {
      ValuesArrayOnePerDefinedValue(items[..|items| - 1], keyField, valueField);
      DefinedPositionsSnoc(items, valueField);
    }
  }

  /** Every entry carries the defined value of some item. */
  lemma {:induction false} ValuesArrayValuesComeFromItems(items: seq<Fields>, keyField: string, valueField: string)
    ensures forall e :: e in ValuesArray(items, keyField, valueField) ==>
              exists i :: 0 <= i < |items| && valueField in items[i] && e.value == items[i][valueField]
  {
    if items != [] {
      var n := |items| - 1;
      var pre := items[..n];
      ValuesArrayValuesComeFromItems(pre, keyField, valueField);
      forall e | e in ValuesArray(items, keyField, valueField)
        ensures exists i :: 0 <= i < |items| && valueField in items[i] && e.value == items[i][valueField]
      {
        if e in ValuesArray(pre, keyField, valueField) {
          var i :| 0 <= i < |pre| && valueField in pre[i] && e.value == pre[i][valueField];
          assert items[i] == pre[i];
        } else {
          assert e in EntryOf(items[n], keyField, valueField);
        }
      }
    }
  }

  /** With a non-empty key field name every name in the values array is truthy. */
  lemma {:induction false} ValuesArrayNamesAreTruthy(items: seq<Fields>, keyField: string, valueField: string)
    requires keyField != ""
    ensures forall e :: e in ValuesArray(items, keyField, valueField) ==> Truthy(e.name)
  {
    if items != [] {
      ValuesArrayNamesAreTruthy(items[..|items| - 1], keyField, valueField);
    }
  }

  // ---------------------------------------------------------------------
  // getValuesObject

  /** A repeated name: an array value grows, any other value becomes a two-element array. */
  function Combine(existing: Value, v: Value): (r: Value)
    ensures r.Arr?
  {
    if existing.Arr? then Arr(existing.elems + [v]) else Arr([existing, v])
  }

  /** One entry added to a values object: a first value as is, a repeated name turns into an array. */
  function AddEntry(o: map<string, Value>, e: NameValue): map<string, Value>
  {
    var k := KeyOf(e.name);
    if k in o then o[k := Combine(o[k], e.value)] else o[k := e.value]
  }

  /** The values object built from a values array, entry by entry. */
  function ValuesObject(arr: seq<NameValue>): map<string, Value>
  {
    if arr == [] then map[]
    else AddEntry(ValuesObject(arr[..|arr| - 1]), arr[|arr| - 1])
  }

  /** The values of the entries whose name is the key k, in order. */
  function ValuesNamed(arr: seq<NameValue>, k: string): seq<Value>
  {
    if arr == [] then []
    else ValuesNamed(arr[..|arr| - 1], k) + (if KeyOf(arr[|arr| - 1].name) == k then [arr[|arr| - 1].value] else [])
  }

  /**
    The values object groups the values array by name: a name seen once
    maps to its value; a name seen two or more times maps to the array of
    all its values in order, or, when the first value was itself an array,
    to that array extended by the later values.
  */
  lemma {:induction false} ValuesObjectGroupsByName(arr: seq<NameValue>, k: string)
    ensures k in ValuesObject(arr) <==> |ValuesNamed(arr, k)| > 0
    ensures |ValuesNamed(arr, k)| == 1 ==> ValuesObject(arr)[k] == ValuesNamed(arr, k)[0]
    ensures |ValuesNamed(arr, k)| >= 2 && !ValuesNamed(arr, k)[0].Arr? ==>
              ValuesObject(arr)[k] == Arr(ValuesNamed(arr, k))
    ensures |ValuesNamed(arr, k)| >= 2 && ValuesNamed(arr, k)[0].Arr? ==>
              ValuesObject(arr)[k] == Arr(ValuesNamed(arr, k)[0].elems + ValuesNamed(arr, k)[1..])
  {
    if arr != [] {
      var pre := arr[..|arr| - 1];
      var e := arr[|arr| - 1];
      ValuesObjectGroupsByName(pre, k);
      var vs := ValuesNamed(pre, k);
      if KeyOf(e.name) == k {
        assert ValuesNamed(arr, k) == vs + [e.value];
        if |vs| >= 2 {
          assert (vs + [e.value])[1..] == vs[1..] + [e.value];
        } else if |vs| == 1 {
          assert vs + [e.value] == [vs[0], e.value];
        }
      } else {
        assert ValuesNamed(arr, k) == vs;
      }
    }
  }

  /** Every key of the values object is the string form of some name in the values array. */
  lemma ValuesObjectKeys(arr: seq<NameValue>)
    ensures forall k :: k in ValuesObject(arr) <==> exists e :: e in arr && KeyOf(e.name) == k
  {
    forall k ensures k in ValuesObject(arr) <==> exists e :: e in arr && KeyOf(e.name) == k {
      ValuesObjectGroupsByName(arr, k);
      ValuesNamedNonEmpty(arr, k);
    }
  }

  lemma {:induction false} ValuesNamedNonEmpty(arr: seq<NameValue>, k: string)
    ensures |ValuesNamed(arr, k)| > 0 <==> exists e :: e in arr && KeyOf(e.name) == k
  {
    if arr != [] {
      var pre := arr[..|arr| - 1];
      ValuesNamedNonEmpty(pre, k);
      assert arr == pre + [arr[|arr| - 1]];
      if exists e :: e in arr && KeyOf(e.name) == k {
        var e :| e in arr && KeyOf(e.name) == k;
        if e !in pre {
          assert e == arr[|arr| - 1];
        }
      }
    }
  }

  /**
    One entry added as getValuesObject adds it: reading `push` of a null
    first value throws, so a repeated name whose value so far is null ends
    the call with a TypeError (None); any other case is AddEntry.
  */
  function AddEntryAsWritten(o: map<string, Value>, e: NameValue): (r: Option<map<string, Value>>)
    ensures r.None? <==> KeyOf(e.name) in o && o[KeyOf(e.name)].Null?
    ensures r.Some? ==> r.value == AddEntry(o, e)
  {
    var k := KeyOf(e.name);
    if k in o && o[k].Null? then None else Some(AddEntry(o, e))
  }

  /** getValuesObject as written: the values object, or None when it throws. */
  function ValuesObjectAsWritten(arr: seq<NameValue>): Option<map<string, Value>>
  {
    if arr == [] then Some(map[])
    else
      match ValuesObjectAsWritten(arr[..|arr| - 1])
      case None => None
      case Some(o) => AddEntryAsWritten(o, arr[|arr| - 1])
  }

  /** A name seen at least twice whose first value is null. */
  predicate RepeatedAfterNull(arr: seq<NameValue>, k: string)
  {
    |ValuesNamed(arr, k)| >= 2 && ValuesNamed(arr, k)[0].Null?
  }

  /**
    getValuesObject as written throws exactly when some name is seen twice
    or more with null as its first value; otherwise it builds the values
    object that ValuesObjectGroupsByName describes.
  */
  lemma {:induction false} ValuesObjectAsWrittenThrowsOnNull(arr: seq<NameValue>)
    ensures ValuesObjectAsWritten(arr).None? <==> exists k :: RepeatedAfterNull(arr, k)
    ensures ValuesObjectAsWritten(arr).Some? ==> ValuesObjectAsWritten(arr).value == ValuesObject(arr)
  {
    if arr != [] {
      var pre, e := arr[..|arr| - 1], arr[|arr| - 1];
      var kk := KeyOf(e.name);
      ValuesObjectAsWrittenThrowsOnNull(pre);
      forall k | k != kk ensures ValuesNamed(arr, k) == ValuesNamed(pre, k) { }
      assert ValuesNamed(arr, kk) == ValuesNamed(pre, kk) + [e.value];
      if ValuesObjectAsWritten(pre).None? {
        var k :| RepeatedAfterNull(pre, k);
        assert RepeatedAfterNull(arr, k);
      } else {
        ValuesObjectGroupsByName(pre, kk);
        if ValuesObjectAsWritten(arr).None? {
          assert RepeatedAfterNull(arr, kk);
        } else {
          var o := ValuesObjectAsWritten(pre).value;
          assert !(kk in o && o[kk].Null?);
          forall k ensures !RepeatedAfterNull(arr, k) {
            assert !RepeatedAfterNull(pre, k);
            if k == kk && |ValuesNamed(pre, kk)| >= 1 {
              assert ValuesNamed(arr, kk)[0] == ValuesNamed(pre, kk)[0];
            }
          }
        }
      }
    }
  }

  /** Building the values object as written one entry further. */
  lemma ValuesObjectAsWrittenExtend(arr: seq<NameValue>, i: nat, o: map<string, Value>)
    requires i < |arr| && ValuesObjectAsWritten(arr[..i]) == Some(o)
    ensures ValuesObjectAsWritten(arr[..i + 1]) == AddEntryAsWritten(o, arr[i])
  {
    assert arr[..i + 1][..i] == arr[..i];
  }

  /** Once a prefix of the values array throws, the whole call throws. */
  lemma {:induction false} ValuesObjectAsWrittenThrowPersists(arr: seq<NameValue>, j: nat)
    requires j <= |arr| && ValuesObjectAsWritten(arr[..j]).None?
    ensures ValuesObjectAsWritten(arr).None?
  {
    if j < |arr| {
      var pre := arr[..|arr| - 1];
      assert pre[..j] == arr[..j];
      ValuesObjectAsWrittenThrowPersists(pre, j);
    } else {
      assert arr[..j] == arr;
    }
  }

  /**
    Two entries named "c" whose first value is null, as clearValues leaves a
    group of items without defaults: the code throws, where the values
    object would group them as for any other first value.
  */
  lemma NullFirstValueThrows()
    ensures ValuesObjectAsWritten([NameValue(Str("c"), Null), NameValue(Str("c"), Str("x"))]).None?
    ensures ValuesObject([NameValue(Str("c"), Null), NameValue(Str("c"), Str("x"))])["c"] == Arr([Null, Str("x")])
  {
    var arr := [NameValue(Str("c"), Null), NameValue(Str("c"), Str("x"))];
    assert KeyOf(Str("c")) == "c";
    assert arr[..1][..0] == [];
    assert ValuesObjectAsWritten(arr[..1]) == Some(map["c" := Null]);
  }

  // ---------------------------------------------------------------------
  // clearValues

  /**
    Clearing one item: the default is the item's default-value field when
    truthy, else null; it is written when the value field is defined or the
    default is truthy.
  */
  function ClearFields(f: Fields, valueField: string, defaultField: string): (r: Fields)
    ensures forall k :: k != valueField ==> (k in r <==> k in f)
    ensures forall k :: k != valueField && k in f ==> r[k] == f[k]
  {
    var dflt := if TruthyField(f, defaultField) then f[defaultField] else Null;
    if valueField in f || Truthy(dflt) then f[valueField := dflt] else f
  }

  /** Clearing twice is clearing once. */
  lemma ClearFieldsIdempotent(f: Fields, valueField: string, defaultField: string)
    ensures ClearFields(ClearFields(f, valueField, defaultField), valueField, defaultField)
         == ClearFields(f, valueField, defaultField)
  {
    var g := ClearFields(f, valueField, defaultField);
    if valueField == defaultField {
      if valueField in g {
        assert g[valueField] == Null || TruthyField(f, defaultField);
      }
    } else {
      assert TruthyField(g, defaultField) == TruthyField(f, defaultField);
    }
  }

  /** After clearing, a defined value field holds the truthy default or null. */
  lemma ClearFieldsResult(f: Fields, valueField: string, defaultField: string)
    ensures var r := ClearFields(f, valueField, defaultField);
            valueField in r <==> valueField in f || TruthyField(f, defaultField)
    ensures var r := ClearFields(f, valueField, defaultField);
            valueField in r ==> r[valueField] == (if TruthyField(f, defaultField) then f[defaultField] else Null)
  {
  }

  // ---------------------------------------------------------------------
  // setValuesFromObject

  /** `item[keyField] === key` for a string key. */
  predicate Named(f: Fields, keyField: string, key: string)
  {
    keyField in f && f[keyField] == Str(key)
  }

  /** The position of the first item named key in the state st, if any. */
  function FirstNamed(items: seq<Item>, st: map<Item, Fields>, keyField: string, key: string): (r: Option<nat>)
    requires forall it :: it in items ==> it in st
    ensures r.Some? ==> r.value < |items| && Named(st[items[r.value]], keyField, key)
    ensures r.Some? ==> forall j :: 0 <= j < r.value ==> !Named(st[items[j]], keyField, key)
    ensures r.None? ==> forall j :: 0 <= j < |items| ==> !Named(st[items[j]], keyField, key)
  {
    if items == [] then None
    else if Named(st[items[0]], keyField, key) then Some(0)
    else
      match FirstNamed(items[1..], st, keyField, key)
      case None => None
      case Some(i) => Some(i + 1)
  }

  /** One key of the object: its value is written to the first item with that name. */
  function WriteKey(items: seq<Item>, st: map<Item, Fields>, keyField: string, valueField: string, key: string, v: Value): (r: map<Item, Fields>)
    requires forall it :: it in items ==> it in st
    ensures r.Keys == st.Keys
  {
    match FirstNamed(items, st, keyField, key)
    case None => st
    case Some(i) => st[items[i] := st[items[i]][valueField := v]]
  }

  /** All keys of the object, in enumeration order. */
  function WriteAll(items: seq<Item>, st: map<Item, Fields>, keyField: string, valueField: string, pairs: seq<(string, Value)>): (r: map<Item, Fields>)
    requires forall it :: it in items ==> it in st
    ensures r.Keys == st.Keys
  {
    if pairs == [] then st
    else
      var pre := WriteAll(items, st, keyField, valueField, pairs[..|pairs| - 1]);
      WriteKey(items, pre, keyField, valueField, pairs[|pairs| - 1].0, pairs[|pairs| - 1].1)
  }

  /** Writing one more key: the state after the shorter prefix, with that key written. */
  lemma WriteAllExtend(items: seq<Item>, st: map<Item, Fields>, keyField: string, valueField: string, pairs: seq<(string, Value)>, j: nat)
    requires forall it :: it in items ==> it in st
    requires j < |pairs|
    ensures WriteAll(items, st, keyField, valueField, pairs[..j + 1]) ==
              WriteKey(items, WriteAll(items, st, keyField, valueField, pairs[..j]), keyField, valueField, pairs[j].0, pairs[j].1)
  {
    assert pairs[..j + 1][..j] == pairs[..j];
  }

  /** The state map of the items as they are now. */
  function Snapshot(items: seq<Item>): (st: map<Item, Fields>)
    reads set it | it in items
    ensures forall it :: it in items ==> it in st && st[it] == it.fields
  {
    map it | it in items :: it.fields
  }

  predicate DistinctKeys(pairs: seq<(string, Value)>)
  {
    forall i, j :: 0 <= i < j < |pairs| ==> pairs[i].0 != pairs[j].0
  }

  /** The item a key is written to: the first item named key. */
  predicate TargetOf(items: seq<Item>, st: map<Item, Fields>, keyField: string, key: string, it: Item)
    requires forall x :: x in items ==> x in st
  {
    var p := FirstNamed(items, st, keyField, key);
    p.Some? && items[p.value] == it
  }

  /** Two states give every item in items the same name. */
  predicate SameNames(items: seq<Item>, st: map<Item, Fields>, st': map<Item, Fields>, keyField: string)
    requires forall x :: x in items ==> x in st && x in st'
  {
    forall x :: x in items ==> (keyField in st[x] <==> keyField in st'[x]) && (keyField in st[x] ==> st[x][keyField] == st'[x][keyField])
  }

  lemma {:induction false} FirstNamedSameNames(items: seq<Item>, st: map<Item, Fields>, st': map<Item, Fields>, keyField: string, key: string)
    requires forall x :: x in items ==> x in st && x in st'
    requires SameNames(items, st, st', keyField)
    ensures FirstNamed(items, st, keyField, key) == FirstNamed(items, st', keyField, key)
  {
    if items != [] {
      FirstNamedSameNames(items[1..], st, st', keyField, key);
    }
  }

  /** Writing keys never renames an item, since the value field is not the key field. */
  lemma {:induction false} WriteAllKeepsNames(items: seq<Item>, st: map<Item, Fields>, keyField: string, valueField: string, pairs: seq<(string, Value)>)
    requires forall it :: it in items ==> it in st
    requires keyField != valueField
    ensures SameNames(items, st, WriteAll(items, st, keyField, valueField, pairs), keyField)
  {
    if pairs != [] {
      WriteAllKeepsNames(items, st, keyField, valueField, pairs[..|pairs| - 1]);
    }
  }

  /** One key is written to its target item and to no other. */
  lemma WriteKeyEffect(items: seq<Item>, st: map<Item, Fields>, keyField: string, valueField: string, key: string, v: Value, x: Item)
    requires forall it :: it in items ==> it in st
    requires x in st
    ensures WriteKey(items, st, keyField, valueField, key, v)[x] ==
              if TargetOf(items, st, keyField, key, x) then st[x][valueField := v] else st[x]
  {
  }

  /** The last key of pairs is written, by the names before any key was written, over what the other keys left. */
  lemma WriteAllLastKey(items: seq<Item>, st: map<Item, Fields>, keyField: string, valueField: string, pairs: seq<(string, Value)>, it: Item)
    requires forall it :: it in items ==> it in st
    requires keyField != valueField && pairs != [] && it in st
    ensures var n := |pairs| - 1; var mid := WriteAll(items, st, keyField, valueField, pairs[..n]);
            WriteAll(items, st, keyField, valueField, pairs)[it] ==
              if TargetOf(items, st, keyField, pairs[n].0, it) then mid[it][valueField := pairs[n].1] else mid[it]
  {
    var n := |pairs| - 1;
    var mid := WriteAll(items, st, keyField, valueField, pairs[..n]);
    WriteAllKeepsNames(items, st, keyField, valueField, pairs[..n]);
    FirstNamedSameNames(items, st, mid, keyField, pairs[n].0);
    WriteKeyEffect(items, mid, keyField, valueField, pairs[n].0, pairs[n].1, it);
  }

  /** The key at position j is written to the first item with its name. */
  lemma {:induction false} SetValuesWritesKey(items: seq<Item>, st: map<Item, Fields>, keyField: string, valueField: string, pairs: seq<(string, Value)>, j: nat)
    requires forall it :: it in items ==> it in st
    requires keyField != valueField && DistinctKeys(pairs)
    requires j < |pairs| && FirstNamed(items, st, keyField, pairs[j].0).Some?
    ensures var it := items[FirstNamed(items, st, keyField, pairs[j].0).value];
            WriteAll(items, st, keyField, valueField, pairs)[it] == st[it][valueField := pairs[j].1]
  {
    var n := |pairs| - 1;
    var pre := pairs[..n];
    var it := items[FirstNamed(items, st, keyField, pairs[j].0).value];
    var mid := WriteAll(items, st, keyField, valueField, pre);
    WriteAllLastKey(items, st, keyField, valueField, pairs, it);
    if j == n {
      SetValuesLastKeyUntouched(items, st, keyField, valueField, pairs);
    } else {
      assert DistinctKeys(pre);
      assert pre[j] == pairs[j];
      SetValuesWritesKey(items, st, keyField, valueField, pre, j);
      OtherKeyMissesTarget(items, st, keyField, pairs[j].0, pairs[n].0, it);
    }
  }

  /** An item named key is not the target of another key. */
  lemma OtherKeyMissesTarget(items: seq<Item>, st: map<Item, Fields>, keyField: string, key: string, other: string, it: Item)
    requires forall x :: x in items ==> x in st
    requires it in st && Named(st[it], keyField, key) && key != other
    ensures !TargetOf(items, st, keyField, other, it)
  {
  }

  /** With distinct keys, the target of the last key is left alone by all the keys before it. */
  lemma SetValuesLastKeyUntouched(items: seq<Item>, st: map<Item, Fields>, keyField: string, valueField: string, pairs: seq<(string, Value)>)
    requires forall x :: x in items ==> x in st
    requires keyField != valueField && DistinctKeys(pairs) && pairs != []
    requires FirstNamed(items, st, keyField, pairs[|pairs| - 1].0).Some?
    ensures var n := |pairs| - 1; var it := items[FirstNamed(items, st, keyField, pairs[n].0).value];
            WriteAll(items, st, keyField, valueField, pairs[..n])[it] == st[it]
  {
    var n := |pairs| - 1;
    var pre := pairs[..n];
    var it := items[FirstNamed(items, st, keyField, pairs[n].0).value];
    SetValuesLeavesOtherItems(items, st, keyField, valueField, pre);
    forall k | 0 <= k < |pre| ensures !TargetOf(items, st, keyField, pre[k].0, it) {
      assert pre[k] == pairs[k];
      OtherKeyMissesTarget(items, st, keyField, pairs[n].0, pairs[k].0, it);
    }
  }

  /** Each key of the object is written to the first item with that name. */
  lemma SetValuesWritesFirstNamedOnly(items: seq<Item>, st: map<Item, Fields>, keyField: string, valueField: string, pairs: seq<(string, Value)>)
    requires forall it :: it in items ==> it in st
    requires keyField != valueField && DistinctKeys(pairs)
    ensures forall j :: 0 <= j < |pairs| && FirstNamed(items, st, keyField, pairs[j].0).Some? ==>
              var it := items[FirstNamed(items, st, keyField, pairs[j].0).value];
              WriteAll(items, st, keyField, valueField, pairs)[it] == st[it][valueField := pairs[j].1]
  {
    forall j | 0 <= j < |pairs| && FirstNamed(items, st, keyField, pairs[j].0).Some?
      ensures var it := items[FirstNamed(items, st, keyField, pairs[j].0).value];
              WriteAll(items, st, keyField, valueField, pairs)[it] == st[it][valueField := pairs[j].1]
    {
      SetValuesWritesKey(items, st, keyField, valueField, pairs, j);
    }
  }

  /** An item that is the first named item of no key of the object keeps its properties. */
  lemma {:induction false} SetValuesLeavesOtherItems(items: seq<Item>, st: map<Item, Fields>, keyField: string, valueField: string, pairs: seq<(string, Value)>)
    requires forall it :: it in items ==> it in st
    requires keyField != valueField
    ensures forall it :: it in st && (forall j :: 0 <= j < |pairs| ==> !TargetOf(items, st, keyField, pairs[j].0, it)) ==>
              WriteAll(items, st, keyField, valueField, pairs)[it] == st[it]
  {
    if pairs != [] {
      var n := |pairs| - 1;
      var pre := pairs[..n];
      SetValuesLeavesOtherItems(items, st, keyField, valueField, pre);
      var mid := WriteAll(items, st, keyField, valueField, pre);
      WriteAllKeepsNames(items, st, keyField, valueField, pre);
      FirstNamedSameNames(items, st, mid, keyField, pairs[n].0);
      forall it | it in st && (forall j :: 0 <= j < |pairs| ==> !TargetOf(items, st, keyField, pairs[j].0, it))
        ensures WriteAll(items, st, keyField, valueField, pairs)[it] == st[it]
      {
        forall j | 0 <= j < |pre| ensures !TargetOf(items, st, keyField, pre[j].0, it) {
          assert pre[j] == pairs[j];
          assert !TargetOf(items, st, keyField, pairs[j].0, it);
        }
        assert !TargetOf(items, st, keyField, pairs[n].0, it);
        WriteKeyEffect(items, mid, keyField, valueField, pairs[n].0, pairs[n].1, it);
      }
    }
  }
}
