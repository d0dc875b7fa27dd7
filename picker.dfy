/**
  The chosen-value list of a picker cell.

  A picker cell keeps its chosen values in `_value` and mirrors them,
  joined with ",", in the element's `data-value` attribute.  In multiple
  mode the list behaves as a set kept in insertion order; in single mode it
  holds at most the last value chosen.  Construction splits the element's
  initial `data-value` at "," and feeds the fields to `setValue`.
*/
module PickerCell {
  import opened Seqs

  /** `s.split(sep)`: the fields between separators; the empty string gives one empty field. */
  function Split(s: string, sep: char): (r: seq<string>)
    ensures |r| >= 1
  {
    if s == [] then [""]
    else
      var rest := Split(s[1..], sep);
      if s[0] == sep then [""] + rest else [[s[0]] + rest[0]] + rest[1..]
  }

  /** `xs.join(sep)`. */
  function Join(xs: seq<string>, sep: char): string
  {
    if xs == [] then ""
    else if |xs| == 1 then xs[0]
    else xs[0] + [sep] + Join(xs[1..], sep)
  }

  /** Joining the fields of a split gives back the string. */
  lemma {:induction false} JoinSplit(s: string, sep: char)
    ensures Join(Split(s, sep), sep) == s
  {
    if s != [] {
      var rest := Split(s[1..], sep);
      JoinSplit(s[1..], sep);
      if s[0] == sep {
        assert Split(s, sep) == [""] + rest;
        assert Split(s, sep)[1..] == rest;
        assert s == [sep] + s[1..];
      } else {
        var r := [[s[0]] + rest[0]] + rest[1..];
        if |rest| == 1 {
          assert r == [[s[0]] + rest[0]];
          assert s == [s[0]] + s[1..];
        } else {
          assert r[1..] == rest[1..];
          assert Join(rest, sep) == rest[0] + [sep] + Join(rest[1..], sep);
          assert s == [s[0]] + s[1..];
        }
      }
    }
  }

  /** A string without separators is a single field. */
  lemma {:induction false} SplitNoSeparator(a: string, sep: char)
    requires sep !in a
    ensures Split(a, sep) == [a]
  {
    if a != [] {
      SplitNoSeparator(a[1..], sep);
      assert a == [a[0]] + a[1..];
    }
  }

  /** Splitting at a separator that follows a separator-free field. */
  lemma {:induction false} SplitAfterField(a: string, b: string, sep: char)
    requires sep !in a
    ensures Split(a + [sep] + b, sep) == [a] + Split(b, sep)
  {
    if a == [] {
      assert a + [sep] + b == [sep] + b;
      assert ([sep] + b)[1..] == b;
    } else {
      assert (a + [sep] + b)[1..] == a[1..] + [sep] + b;
      SplitAfterField(a[1..], b, sep);
      assert [a[0]] + a[1..] == a;
    }
  }

  /** Splitting a join of separator-free values gives back the values. */
  lemma {:induction false} SplitJoin(xs: seq<string>, sep: char)
    requires |xs| >= 1
    requires forall i :: 0 <= i < |xs| ==> sep !in xs[i]
    ensures Split(Join(xs, sep), sep) == xs
  {
    if |xs| == 1 {
      SplitNoSeparator(xs[0], sep);
    } else {
      SplitJoin(xs[1..], sep);
      SplitAfterField(xs[0], Join(xs[1..], sep), sep);
      assert xs == [xs[0]] + xs[1..];
    }
  }

  /** The empty list joins to "" and that splits into one empty field: clearing is not undone by a split. */
  lemma EmptyListDoesNotSurviveSplit(sep: char)
    ensures Split(Join([], sep), sep) == [""]
  {
  }

  /** The values in order, with every later repetition dropped. */
  function Dedup(xs: seq<string>): seq<string>
  {
    if xs == [] then []
    else
      var d := Dedup(xs[..|xs| - 1]);
      if xs[|xs| - 1] in d then d else d + [xs[|xs| - 1]]
  }

  lemma FirstIndexPrefix(xs: seq<string>, n: nat, y: string)
    requires n <= |xs| && y in xs[..n]
    ensures y in xs && FirstIndex(xs, y) == FirstIndex(xs[..n], y)
  {
    var i := FirstIndex(xs[..n], y);
    assert xs[..n][..i] == xs[..i];
    FirstIndexUnique(xs, y, i);
  }

  /**
    Dedup keeps exactly the values of xs, each once, ordered by where each
    value first occurs.
  */
  lemma {:induction false} DedupFirstOccurrences(xs: seq<string>)
    ensures NoDuplicates(Dedup(xs))
    ensures forall y :: y in Dedup(xs) <==> y in xs
    ensures forall i, j :: 0 <= i < j < |Dedup(xs)| ==> FirstIndex(xs, Dedup(xs)[i]) < FirstIndex(xs, Dedup(xs)[j])
  {
    if xs != [] {
      var n := |xs| - 1;
      var pre := xs[..n];
      DedupFirstOccurrences(pre);
      var d := Dedup(pre);
      assert xs == pre + [xs[n]];
      forall y | y in d ensures y in xs && FirstIndex(xs, y) == FirstIndex(pre, y) && FirstIndex(pre, y) < n {
        FirstIndexPrefix(xs, n, y);
      }
      if xs[n] !in d {
        var r := d + [xs[n]];
        assert xs[n] !in pre;
        assert FirstIndex(xs, xs[n]) == n;
        forall i, j | 0 <= i < j < |r| ensures FirstIndex(xs, r[i]) < FirstIndex(xs, r[j]) {
          if j < |d| {
            assert r[i] == d[i] && r[j] == d[j];
          } else {
            assert r[i] == d[i];
          }
        }
      }
    }
  }

  /** A list without duplicates is its own Dedup. */
  lemma {:induction false} DedupOfDistinct(xs: seq<string>)
    requires NoDuplicates(xs)
    ensures Dedup(xs) == xs
  {
    if xs != [] {
      var n := |xs| - 1;
      assert NoDuplicates(xs[..n]);
      DedupOfDistinct(xs[..n]);
      assert xs[n] !in xs[..n];
      assert xs == xs[..n] + [xs[n]];
    }
  }

  /**
    The text `($element.data('value') || '') + ''` gives for a `data-value`
    attribute: jQuery reads "false", "null" and "0" as false, null and 0,
    which are falsy and so become the empty string; other attributes are
    read as their own text.
  */
  function DataValueText(attribute: string): (r: string)
    ensures attribute in {"false", "null", "0"} ==> r == ""
    ensures attribute !in {"false", "null", "0"} ==> r == attribute
  {
    if attribute == "false" || attribute == "null" || attribute == "0" then "" else attribute
  }

  /** `Pushpop.TableViewPickerCell` reduced to its chosen values and its `data-value` attribute. */
  class TableViewPickerCell {
    const isMultiple: bool
    var value: seq<string>
    var dataValue: string

    /** The list is a set in multiple mode and holds at most one value in single mode; the attribute mirrors it. */
    ghost predicate Valid()
      reads this
    {
      (isMultiple ==> NoDuplicates(value)) &&
      (!isMultiple ==> |value| <= 1) &&
      dataValue == Join(value, ',')
    }

    /** Construction from the element's initial `data-value` attribute ("" when it has none). */
    constructor(isMultiple: bool, initialDataValue: string)
      ensures Valid()
      ensures this.isMultiple == isMultiple
      ensures isMultiple ==> value == Dedup(Split(DataValueText(initialDataValue), ','))
      ensures !isMultiple ==> value == [Split(DataValueText(initialDataValue), ',')[0]]
    {
      this.isMultiple := isMultiple;
      value := [];
      dataValue := initialDataValue;
      new;
      var values := Split(DataValueText(initialDataValue), ',');
      if isMultiple {
        var i := 0;
        while i < |values|
          invariant 0 <= i <= |values|
          invariant NoDuplicates(value) && value == Dedup(values[..i])
          invariant i > 0 ==> dataValue == Join(value, ',')
        {
          assert values[..i + 1][..i] == values[..i];
          SetValue(values[i]);
          i := i + 1;
        }
        assert values[..i] == values;
      } else {
        SetValue(values[0]);
      }
    }

    /** `setValue`: a value already chosen in multiple mode changes nothing; otherwise it is chosen. */
    method SetValue(v: string)
      requires isMultiple ==> NoDuplicates(value)
      requires !isMultiple ==> |value| <= 1
      modifies this
      ensures isMultiple && v in old(value) ==> value == old(value) && dataValue == old(dataValue)
      ensures isMultiple && v !in old(value) ==> value == old(value) + [v] && dataValue == Join(value, ',')
      ensures !isMultiple ==> value == [v] && dataValue == v
      ensures isMultiple ==> NoDuplicates(value)
      ensures !isMultiple ==> |value| <= 1
    {
      if isMultiple {
        var i := 0;
        while i < |value|
          invariant 0 <= i <= |value|
          invariant v !in value[..i]
        {
          if value[i] == v {
            return;
          }
          assert value[..i + 1] == value[..i] + [value[i]];
          i := i + 1;
        }
        assert value[..i] == value;
        value := value + [v];
        dataValue := Join(value, ',');
      } else {
        value := [v];
        dataValue := Join(value, ',');
      }
    }

    /** `removeValue`: in multiple mode the first occurrence goes (nothing happens if there is none); single mode empties the list. */
    method RemoveValue(v: string)
      requires Valid()
      modifies this
      ensures Valid()
      ensures isMultiple && v !in old(value) ==> value == old(value) && dataValue == old(dataValue)
      ensures isMultiple && v in old(value) ==> value == RemoveFirst(old(value), v)
      ensures !isMultiple ==> value == [] && dataValue == ""
    {
      if isMultiple {
        var index := -1;
        var i := 0;
        while i < |value|
          invariant 0 <= i <= |value|
          invariant v !in value[..i]
        {
          if value[i] == v {
            index := i;
            break;
          }
          assert value[..i + 1] == value[..i] + [value[i]];
          i := i + 1;
        }
        if index == -1 {
          assert value[..i] == value;
          return;
        }
        RemoveFirstAt(value, v);
        RemoveFirstNoDuplicates(value, v);
        value := value[..index] + value[index + 1..];
      } else {
        value := [];
      }
      dataValue := Join(value, ',');
    }
  }

  /**
    A chosen list written out and read back by a new multiple-mode picker
    is the same list, unless its attribute is one that jQuery reads as a
    falsy value (see FalsyAttributeDoesNotRoundTrip).
  */
  lemma MultipleRoundTrip(value: seq<string>)
    requires |value| >= 1 && NoDuplicates(value)
    requires forall i :: 0 <= i < |value| ==> ',' !in value[i]
    requires Join(value, ',') !in {"false", "null", "0"}
    ensures Dedup(Split(DataValueText(Join(value, ',')), ',')) == value
  {
    SplitJoin(value, ',');
    DedupOfDistinct(value);
  }

  /** A picker whose only chosen value is "0" writes the attribute "0", which a new picker reads back as the empty value. */
  lemma FalsyAttributeDoesNotRoundTrip()
    ensures Join(["0"], ',') == "0"
    ensures Dedup(Split(DataValueText(Join(["0"], ',')), ',')) == [""]
  {
    assert Split("", ',') == [""];
    assert Dedup([""]) == Dedup([""][..0]) + [""];
  }
}
