/**
  Search filtering of an in-memory data set.

  A search builds the regular expression `searchString + '+'` (with the
  `i` flag unless the search is case sensitive) and hands it to the data
  source's filter function together with each item.  The regular
  expression is modelled by its source text and its case flag; the default
  filter tests the item's title, and for a search string without regular
  expression metacharacters `/s+/` matches exactly where `s` occurs, so it
  is modelled as substring containment over case-folded text.
*/
module Filtering {
  import opened Values

  /** The regular expression of a search: its search string and whether the `i` flag is set. */
  datatype Pattern = Pattern(source: string, ignoreCase: bool)

  /** A filter function `(regExp, item) -> boolean`, applied to the item's properties. */
  type FilterFunction = (Pattern, Fields) -> bool

  /** The pattern a search for searchString builds. */
  function PatternFor(searchString: string, isCaseSensitive: bool): (p: Pattern)
    ensures p.source == searchString && p.ignoreCase == !isCaseSensitive
  {
    Pattern(searchString, !isCaseSensitive)
  }

  predicate IsPrefix(p: string, s: string)
  {
    |p| <= |s| && s[..|p|] == p
  }

  /** `searchString.indexOf(last) === 0`, where a null last search string is coerced to "null". */
  predicate ContinuesLastSearch(searchString: string, last: Option<string>)
  {
    IsPrefix(if last.Some? then last.value else "null", searchString)
  }

  /** Case folding of one character under the `i` flag (ASCII letters). */
  function FoldChar(c: char): char
  {
    if 'A' <= c <= 'Z' then (c as int - 'A' as int + 'a' as int) as char else c
  }

  function Fold(s: string, ignoreCase: bool): (r: string)
    ensures |r| == |s|
    ensures forall i :: 0 <= i < |s| ==> r[i] == (if ignoreCase then FoldChar(s[i]) else s[i])
  {
    if ignoreCase then seq(|s|, i requires 0 <= i < |s| => FoldChar(s[i])) else s
  }

  /** sub occurs in text starting at position i. */
  predicate OccursAt(sub: string, text: string, i: int)
  {
    0 <= i <= |text| - |sub| && text[i..i + |sub|] == sub
  }

  predicate Occurs(sub: string, text: string)
  {
    exists i :: 0 <= i <= |text| - |sub| && OccursAt(sub, text, i)
  }

  /** The text `regExp.test(item.title)` examines: `String(item.title)`, "undefined" when there is no title. */
  function TitleText(item: Fields): string
  {
    if "title" in item then KeyOf(item["title"]) else "undefined"
  }

  /** The default filter function: the pattern's text occurs in the title, case-folded under the `i` flag. */
  predicate DefaultFilter(p: Pattern, item: Fields)
  {
    Occurs(Fold(p.source, p.ignoreCase), Fold(TitleText(item), p.ignoreCase))
  }

  /** The filter function a data source starts with: `regExp.test(item.title)`. */
  const DefaultFilterFunction: FilterFunction := (p, x) => DefaultFilter(p, x)

  /** Pattern q is a continuation of pattern p that matches no more: it extends p's text and is case-insensitive only if p is. */
  predicate Narrows(q: Pattern, p: Pattern)
  {
    IsPrefix(p.source, q.source) && (q.ignoreCase ==> p.ignoreCase)
  }

  lemma OccursInFold(sub: string, text: string, ignoreCase: bool)
    requires Occurs(sub, text)
    ensures Occurs(Fold(sub, ignoreCase), Fold(text, ignoreCase))
  {
    var i :| 0 <= i <= |text| - |sub| && OccursAt(sub, text, i);
    var fs, ft := Fold(sub, ignoreCase), Fold(text, ignoreCase);
    assert ft[i..i + |fs|] == fs by {
      forall k | 0 <= k < |fs| ensures ft[i..i + |fs|][k] == fs[k] {
        assert text[i..i + |sub|][k] == sub[k];
      }
    }
    assert OccursAt(fs, ft, i);
  }

  lemma OccursPrefix(p: string, s: string, text: string)
    requires IsPrefix(p, s) && Occurs(s, text)
    ensures Occurs(p, text)
  {
    var i :| 0 <= i <= |text| - |s| && OccursAt(s, text, i);
    assert text[i..i + |p|] == s[..|p|];
    assert OccursAt(p, text, i);
  }

  lemma FoldPrefix(p: string, s: string, ignoreCase: bool)
    requires IsPrefix(p, s)
    ensures IsPrefix(Fold(p, ignoreCase), Fold(s, ignoreCase))
  {
    var fp, fs := Fold(p, ignoreCase), Fold(s, ignoreCase);
    assert fs[..|fp|] == fp by {
      forall k | 0 <= k < |fp| ensures fs[..|fp|][k] == fp[k] {
        assert s[..|p|][k] == p[k];
      }
    }
  }

  /**
    The default title filter is monotone for plain-text search strings:
    every item a narrower pattern accepts is accepted by the wider one.
  */
  lemma DefaultFilterMonotone()
    ensures forall p: Pattern, q: Pattern, x: Fields :: Narrows(q, p) && DefaultFilterFunction(q, x) ==> DefaultFilterFunction(p, x)
  {
    forall p: Pattern, q: Pattern, x: Fields | Narrows(q, p) && DefaultFilter(q, x)
      ensures DefaultFilter(p, x)
    {
      var t := TitleText(x);
      var tq := Fold(t, q.ignoreCase);
      FoldPrefix(p.source, q.source, q.ignoreCase);
      OccursPrefix(Fold(p.source, q.ignoreCase), Fold(q.source, q.ignoreCase), tq);
      if p.ignoreCase && !q.ignoreCase {
        OccursInFold(p.source, t, true);
      }
    }
  }

  /** The items a filter accepts, in order: the filtered data set a search produces from items. */
  function Accepted(items: seq<Item>, f: FilterFunction, p: Pattern): seq<Item>
    reads set it | it in items
  {
    if items == [] then []
    else
      var n := |items| - 1;
      Accepted(items[..n], f, p) + (if f(p, items[n].fields) then [items[n]] else [])
  }

  /** Filtering a concatenation filters each part: the filtered set is an order-preserving subsequence. */
  lemma {:induction false} AcceptedConcat(a: seq<Item>, b: seq<Item>, f: FilterFunction, p: Pattern)
    ensures Accepted(a + b, f, p) == Accepted(a, f, p) + Accepted(b, f, p)
    decreases |b|
  {
    if b == [] {
      assert a + b == a;
    } else {
      assert (a + b)[..|a + b| - 1] == a + b[..|b| - 1];
      AcceptedConcat(a, b[..|b| - 1], f, p);
    }
  }

  /** The filtered set holds exactly the accepted items. */
  lemma {:induction false} AcceptedMembers(items: seq<Item>, f: FilterFunction, p: Pattern)
    ensures forall it :: it in Accepted(items, f, p) <==> it in items && f(p, it.fields)
    ensures |Accepted(items, f, p)| <= |items|
  {
    if items != [] {
      var n := |items| - 1;
      AcceptedMembers(items[..n], f, p);
      assert items == items[..n] + [items[n]];
    }
  }

  /**
    Incremental filtering equals full filtering: when the previous filtered
    set was produced by a pattern p and every item the new pattern q accepts
    is accepted by p, filtering the previous filtered set with q gives what
    filtering the whole data set with q gives.
  */
  lemma {:induction false} IncrementalFilterMatchesFullFilter(items: seq<Item>, f: FilterFunction, p: Pattern, q: Pattern)
    requires forall x: Fields :: f(q, x) ==> f(p, x)
    ensures Accepted(Accepted(items, f, p), f, q) == Accepted(items, f, q)
  {
    if items != [] {
      var n := |items| - 1;
      IncrementalFilterMatchesFullFilter(items[..n], f, p, q);
      var last := items[n];
      var tail := if f(p, last.fields) then [last] else [];
      AcceptedConcat(Accepted(items[..n], f, p), tail, f, q);
      if !f(p, last.fields) {
        assert !f(q, last.fields);
      }
      assert Accepted(tail, f, q) == (if f(q, last.fields) then [last] else []) by {
        if tail != [] {
          assert tail[..0] == [];
        }
      }
    }
  }

  /** The continuation optimisation is exact for a monotone filter (one that accepts no more with a narrower pattern) whenever the new search narrows the last one. */
  lemma MonotoneIncrementalFilterMatchesFullFilter(items: seq<Item>, f: FilterFunction, p: Pattern, q: Pattern)
    requires forall p: Pattern, q: Pattern, x: Fields :: Narrows(q, p) && f(q, x) ==> f(p, x)
    requires Narrows(q, p)
    ensures Accepted(Accepted(items, f, p), f, q) == Accepted(items, f, q)
  {
    IncrementalFilterMatchesFullFilter(items, f, p, q);
  }

  /** The filtering loop of a search: the items the filter function accepts, in data-set order. */
  method Filter(items: seq<Item>, f: FilterFunction, p: Pattern) returns (r: seq<Item>)
    ensures r == Accepted(items, f, p)
  {
    r := [];
    var i := 0;
    while i < |items|
      invariant 0 <= i <= |items|
      invariant r == Accepted(items[..i], f, p)
    {
      assert items[..i + 1][..i] == items[..i];
      if f(p, items[i].fields) {
        r := r + [items[i]];
      }
      i := i + 1;
    }
    assert items[..i] == items;
  }

  /**
    The items a search runs the filter over, as shouldReloadTableForSearchString
    chooses them: the previous filtered set whenever the search string
    extends the last one, whatever the case flags of the two searches.
  */
  function SearchedItemsAsWritten(searchString: string, last: Option<string>, lastFiltered: seq<Item>, dataSet: seq<Item>): (r: seq<Item>)
    ensures ContinuesLastSearch(searchString, last) ==> r == lastFiltered
    ensures !ContinuesLastSearch(searchString, last) ==> r == dataSet
  {
    if ContinuesLastSearch(searchString, last) then lastFiltered else dataSet
  }

  /**
    The choice as written is exact unless the search widens the case: with
    a monotone filter, when the previous filtered set is the data set (no
    search yet) or the result of the last search, and the new search
    ignores case only if the last one did (as when both use the same flag,
    which is all the search bar does), filtering the chosen items gives
    what filtering the whole data set gives.
  */
  lemma AsWrittenFilterExactly(f: FilterFunction, searchString: string, ignoreCase: bool, last: Option<string>,
                               lastIgnoreCase: bool, lastFiltered: seq<Item>, dataSet: seq<Item>)
    requires forall p: Pattern, q: Pattern, x: Fields :: Narrows(q, p) && f(q, x) ==> f(p, x)
    requires last.None? ==> lastFiltered == dataSet
    requires last.Some? ==> lastFiltered == Accepted(dataSet, f, Pattern(last.value, lastIgnoreCase))
    requires ignoreCase ==> lastIgnoreCase
    ensures Accepted(SearchedItemsAsWritten(searchString, last, lastFiltered, dataSet), f, Pattern(searchString, ignoreCase))
         == Accepted(dataSet, f, Pattern(searchString, ignoreCase))
  {
    if last.Some? && ContinuesLastSearch(searchString, last) {
      MonotoneIncrementalFilterMatchesFullFilter(dataSet, f, Pattern(last.value, lastIgnoreCase), Pattern(searchString, ignoreCase));
    }
  }

  /**
    A case-insensitive search that continues a case-sensitive one loses
    matches: after a case-sensitive search for "a" has filtered out the
    item titled "AB", the case-insensitive search for "ab" only looks at the
    (empty) previous result, although the item matches it.
  */
  lemma AsWrittenContinuationLosesMatches(it: Item)
    requires it.fields == map["title" := Str("AB")]
    ensures Accepted(SearchedItemsAsWritten("ab", Some("a"), Accepted([it], DefaultFilterFunction, Pattern("a", false)), [it]),
                     DefaultFilterFunction, Pattern("ab", true)) == []
    ensures Accepted([it], DefaultFilterFunction, Pattern("ab", true)) == [it]
  {
    assert TitleText(it.fields) == "AB";
    assert !DefaultFilter(Pattern("a", false), it.fields) by {
      forall i | 0 <= i <= 1 ensures !OccursAt("a", "AB", i) {
        assert "AB"[i..i + 1] == ["AB"[i]];
      }
    }
    assert DefaultFilter(Pattern("ab", true), it.fields) by {
      assert Fold("ab", true) == "ab";
      assert Fold("AB", true) == "ab";
      assert OccursAt("ab", "ab", 0);
    }
    assert [it][..0] == [];
    assert ContinuesLastSearch("ab", Some("a"));
  }

  /**
    The corrected choice: the previous filtered set is reused only when the
    search string extends the last one and the new search ignores case
    only if the last one did.
  */
  function SearchedItems(searchString: string, ignoreCase: bool, last: Option<string>, lastIgnoreCase: bool,
                         lastFiltered: seq<Item>, dataSet: seq<Item>): (r: seq<Item>)
    ensures ContinuesLastSearch(searchString, last) && (ignoreCase ==> lastIgnoreCase) ==> r == lastFiltered
    ensures !(ContinuesLastSearch(searchString, last) && (ignoreCase ==> lastIgnoreCase)) ==> r == dataSet
  {
    if ContinuesLastSearch(searchString, last) && (ignoreCase ==> lastIgnoreCase) then lastFiltered else dataSet
  }

  /**
    With the corrected choice an incremental search with a monotone filter
    (such as the default one) gives exactly what a search of the whole data
    set gives, provided the previous filtered set is the data set (no search
    yet) or the result of the last search.
  */
  lemma SearchedItemsFilterExactly(f: FilterFunction, searchString: string, ignoreCase: bool, last: Option<string>,
                                   lastIgnoreCase: bool, lastFiltered: seq<Item>, dataSet: seq<Item>)
    requires forall p: Pattern, q: Pattern, x: Fields :: Narrows(q, p) && f(q, x) ==> f(p, x)
    requires last.None? ==> lastFiltered == dataSet
    requires last.Some? ==> lastFiltered == Accepted(dataSet, f, Pattern(last.value, lastIgnoreCase))
    ensures Accepted(SearchedItems(searchString, ignoreCase, last, lastIgnoreCase, lastFiltered, dataSet),
                     f, Pattern(searchString, ignoreCase))
         == Accepted(dataSet, f, Pattern(searchString, ignoreCase))
  {
    if last.Some? && ContinuesLastSearch(searchString, last) && (ignoreCase ==> lastIgnoreCase) {
      MonotoneIncrementalFilterMatchesFullFilter(dataSet, f, Pattern(last.value, lastIgnoreCase), Pattern(searchString, ignoreCase));
    }
  }
}
