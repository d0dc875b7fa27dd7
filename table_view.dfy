/**
  The virtualised table view, its cells and its data source.

  A table view renders only a window of rows: the visible rows plus up to one
  viewport of buffer rows on each side.  Cells leaving the window go back to
  a pool of reusable cells keyed by reuse identifier, and cells entering it
  are taken from that pool (or built from the registered cell prototype).
  The table view's list element is a separate object whose `children` are
  its cells in document order; `renderedCells` is the table view's own list
  of live cells, in the order they were dequeued.  Events the table view
  triggers are appended to `events`.
*/
module Pushpop {
  import opened Seqs
  import opened Window
  import opened Values
  import opened Filtering

  const DefaultReuseIdentifier := "pp-table-view-cell-default"
  const AccessoryTypeNone := "pp-table-view-cell-accessory-none"
  const EditingAccessoryTypeNone := "pp-table-view-cell-editing-accessory-none"
  const DefaultRowHeight := 44

  /** A cell prototype: the cell class it constructs and its own reuse identifier. */
  datatype CellPrototype = CellPrototype(kind: string, reuseIdentifier: string)

  /** The prototype of the base `TableViewCell`. */
  const TableViewCellPrototype := CellPrototype("TableViewCell", DefaultReuseIdentifier)

  /** The events a table view triggers. */
  datatype Event =
    | DidDeselectRowAtIndex(index: int)
    | DidDrawRowsWithIndexes(minimumRowIndex: int, maximumRowIndex: int)
    | DidChangeValueForItemInDataSource(item: Item, key: string, value: Value, previousValue: Option<Value>)
    | DidChangeDataSource(dataSource: TableViewDataSource, previousDataSource: TableViewDataSource?)

  /** The geometry of a completed draw: scroll position, viewport height, row height and number of rows. */
  datatype DrawGeometry = DrawGeometry(scroll: int, height: int, rowHeight: int, rows: nat)

  /** One DidDeselectRowAtIndex event per index, in order. */
  function DeselectEvents(indexes: seq<int>): (r: seq<Event>)
    ensures |r| == |indexes| && forall k :: 0 <= k < |r| ==> r[k] == DidDeselectRowAtIndex(indexes[k])
  {
    if indexes == [] then []
    else DeselectEvents(indexes[..|indexes| - 1]) + [DidDeselectRowAtIndex(indexes[|indexes| - 1])]
  }

  /** `item[key] || fallback` for a property used as a string. */
  function ItemString(f: Fields, key: string, fallback: string): string
  {
    if TruthyField(f, key) then KeyOf(f[key]) else fallback
  }

  /** What a cell stores for an accessory type: nothing for the "none" type. */
  function StoredAccessoryType(t: string, none: string): Option<string>
  {
    if t == none then None else Some(t)
  }

  /** The value a cell holds after `setData(item)` when it held prev: the item's truthy `value` property, or prev. */
  function ValueAfterSetData(f: Fields, prev: Value): Value
  {
    if TruthyField(f, "value") then f["value"] else prev
  }

  /** `reusableCells[id]`, empty when there is no pool for id yet. */
  function BucketOf(buckets: map<string, seq<TableViewCell>>, id: string): seq<TableViewCell>
  {
    if id in buckets then buckets[id] else []
  }

  /**
    The recycling invariant: every cell of cs is either rendered or
    waiting, reset, in the pool of its own reuse identifier, and no cell is
    in two places.
  */
  ghost predicate PoolInvariant(cs: set<TableViewCell>, rendered: seq<TableViewCell>,
                                buckets: map<string, seq<TableViewCell>>)
    reads cs
  {
    (forall c :: c in rendered ==> c in cs) &&
    NoDuplicates(rendered) &&
    (forall id :: id in buckets ==> NoDuplicates(buckets[id])) &&
    (forall id, c :: id in buckets && c in buckets[id] ==>
       c in cs && c.reuseIdentifier == id && c.Pooled() && c !in rendered) &&
    (forall c :: c in cs ==> c in rendered || c in BucketOf(buckets, c.reuseIdentifier))
  }

  /** Every cell of cs belongs to the owner. */
  ghost predicate OwnedBy(owner: TableView, cs: set<TableViewCell>)
    reads cs
  {
    forall c :: c in cs ==> c.tableView == owner
  }

  /** A reset rendered cell that moves to the end of its pool keeps the invariant. */
  lemma PoolMoveToBucket(cs: set<TableViewCell>, rendered: seq<TableViewCell>,
                         buckets: map<string, seq<TableViewCell>>, cell: TableViewCell)
    requires PoolInvariant(cs, rendered, buckets) && cell in rendered && cell.Pooled()
    ensures PoolInvariant(cs, RemoveFirst(rendered, cell),
                          buckets[cell.reuseIdentifier := BucketOf(buckets, cell.reuseIdentifier) + [cell]])
  {
    var id := cell.reuseIdentifier;
    var bucket := BucketOf(buckets, id);
    var rest := RemoveFirst(rendered, cell);
    var buckets' := buckets[id := bucket + [cell]];
    RemoveFirstNoDuplicates(rendered, cell);
    forall c | c in rest ensures c in cs {
      assert c in rendered;
    }
    assert cell !in bucket;
    AppendNoDuplicates(bucket, cell);
    forall k, c | k in buckets' && c in buckets'[k]
      ensures c in cs && c.reuseIdentifier == k && c.Pooled() && c !in rest
    {
      if c != cell {
        assert c in buckets[k];
      }
    }
    forall c | c in cs ensures c in rest || c in BucketOf(buckets', c.reuseIdentifier) {
      if c != cell && c !in rendered {
        assert c in BucketOf(buckets, c.reuseIdentifier);
      }
    }
  }

  /** Taking the last cell of a non-empty pool into the rendered cells keeps the invariant. */
  lemma PoolTakeLast(cs: set<TableViewCell>, rendered: seq<TableViewCell>,
                     buckets: map<string, seq<TableViewCell>>, id: string)
    requires PoolInvariant(cs, rendered, buckets) && |BucketOf(buckets, id)| > 0
    ensures var b := BucketOf(buckets, id);
            b[|b| - 1] !in rendered && b[|b| - 1].reuseIdentifier == id && b[|b| - 1].Pooled() &&
            b[|b| - 1] in cs &&
            PoolInvariant(cs, rendered + [b[|b| - 1]], buckets[id := b[..|b| - 1]])
  {
    var b := BucketOf(buckets, id);
    var n := |b| - 1;
    var cell := b[n];
    var rendered' := rendered + [cell];
    var buckets' := buckets[id := b[..n]];
    DropLastNoDuplicates(b);
    AppendNoDuplicates(rendered, cell);
    forall k, c | k in buckets' && c in buckets'[k]
      ensures c in cs && c.reuseIdentifier == k && c.Pooled() && c !in rendered'
    {
      assert c in buckets[k];
    }
    forall c | c in cs ensures c in rendered' || c in BucketOf(buckets', c.reuseIdentifier) {
      if c !in rendered' && c.reuseIdentifier == id {
        var j :| 0 <= j < |b| && b[j] == c;
        assert b[..n][j] == c;
      }
    }
  }

  /** Creating an empty pool for an identifier that has none keeps the invariant. */
  lemma PoolEnsureBucket(cs: set<TableViewCell>, rendered: seq<TableViewCell>,
                         buckets: map<string, seq<TableViewCell>>, id: string)
    requires PoolInvariant(cs, rendered, buckets)
    ensures PoolInvariant(cs, rendered, buckets[id := BucketOf(buckets, id)])
  {
    var buckets' := buckets[id := BucketOf(buckets, id)];
    forall k, c | k in buckets' && c in buckets'[k] ensures c in buckets[k] { }
    forall c | c in cs ensures BucketOf(buckets', c.reuseIdentifier) == BucketOf(buckets, c.reuseIdentifier) { }
  }

  /** A new cell that joins the rendered cells keeps the invariant. */
  lemma PoolAddFresh(cs: set<TableViewCell>, rendered: seq<TableViewCell>,
                     buckets: map<string, seq<TableViewCell>>, cell: TableViewCell)
    requires PoolInvariant(cs, rendered, buckets) && cell !in cs
    ensures PoolInvariant(cs + {cell}, rendered + [cell], buckets)
  {
    AppendNoDuplicates(rendered, cell);
  }

  /** The cells cs show the rows `rows`, position by position. */
  ghost predicate ShowsRows(cs: seq<TableViewCell>, rows: seq<int>)
    reads set c | c in cs
  {
    |cs| == |rows| && forall k :: 0 <= k < |cs| ==> cs[k].index == rows[k]
  }

  /** The back part of cells showing rows r1 + r2 shows r2 when the front part is as long as r1. */
  lemma ShowsRowsBack(xs: seq<TableViewCell>, ys: seq<TableViewCell>, r1: seq<int>, r2: seq<int>)
    requires ShowsRows(xs + ys, r1 + r2) && |xs| == |r1|
    ensures ShowsRows(ys, r2)
  {
    forall k | 0 <= k < |ys| ensures ys[k].index == r2[k] {
      assert (xs + ys)[|xs| + k] == ys[k] && (r1 + r2)[|r1| + k] == r2[k];
    }
  }

  /** The front part of cells showing rows r1 + r2 shows r1 when the back part is as long as r2. */
  lemma ShowsRowsFront(xs: seq<TableViewCell>, ys: seq<TableViewCell>, r1: seq<int>, r2: seq<int>)
    requires ShowsRows(xs + ys, r1 + r2) && |ys| == |r2|
    ensures ShowsRows(xs, r1)
  {
    forall k | 0 <= k < |xs| ensures xs[k].index == r1[k] {
      assert (xs + ys)[k] == xs[k] && (r1 + r2)[k] == r1[k];
    }
  }

  /** Releasing the row of a shown cell whose row occurs once takes out exactly that cell. */
  lemma KeepReleased(cs: seq<TableViewCell>, rows: seq<int>, cell: TableViewCell)
    requires ShowsRows(cs, rows) && NoDuplicates(cs) && NoDuplicates(rows) && cell in cs
    ensures Keep(cs, rows, cell.index, cell.index) == RemoveFirst(cs, cell)
  {
    var j := FirstIndex(cs, cell);
    KeepOne(cs, rows, cell.index, j);
  }

  /** Positions kept by a release of rows lo .. t - 1 when the k-th cell showed row n + k >= lo. */
  lemma KeptAbove(dom: seq<TableViewCell>, now: seq<TableViewCell>, rows: seq<int>, n: int, top: int, lo: int, t: int)
    requires NoDuplicates(dom) && Released(now, dom, rows, lo, t - 1)
    requires rows == Range(n, top) && lo <= n
    ensures forall k :: 0 <= k < |dom| ==> (dom[k] in now <==> t <= n + k)
    ensures forall c :: c in now ==> c in dom
  {
    KeepMembers(dom, rows, lo, t - 1);
  }

  /** Positions kept by a release of rows t + 1 .. m when the k-th cell showed row n + k <= m. */
  lemma KeptBelow(dom: seq<TableViewCell>, now: seq<TableViewCell>, rows: seq<int>, n: int, t: int, m: int)
    requires NoDuplicates(dom) && Released(now, dom, rows, t + 1, m)
    requires rows == Range(n, m)
    ensures forall k :: 0 <= k < |dom| ==> (dom[k] in now <==> n + k <= t)
    ensures forall c :: c in now ==> c in dom
  {
    KeepMembers(dom, rows, t + 1, m);
  }

  /**
    The window ending at lastMax can be moved to minR .. maxR by appending:
    the new window ends at or after the old one, or it is empty and begins
    after the old one's end.
  */
  ghost predicate AppendFits(lastMax: int, minR: int, maxR: int)
  {
    lastMax <= maxR || (lastMax < minR && maxR < minR)
  }

  /**
    The old cells dom0, showing rows b, b + 1, ... (each in the window
    minR .. maxR or below it), followed by `added`: position k stays exactly
    when minR <= b + k, so an old cell stays exactly when its row is in the
    window.
  */
  lemma StaysAfterAppending(dom0: seq<TableViewCell>, added: seq<TableViewCell>, now: seq<TableViewCell>,
                            rows: seq<int>, b: int, minR: int, maxR: int)
    requires |dom0| == |rows| && forall k :: 0 <= k < |rows| ==> rows[k] == b + k && (rows[k] <= maxR || rows[k] < minR)
    requires forall k :: 0 <= k < |dom0 + added| ==> ((dom0 + added)[k] in now <==> minR <= b + k)
    ensures forall k :: 0 <= k < |dom0| ==> (dom0[k] in now <==> minR <= rows[k] <= maxR)
  {
    forall k | 0 <= k < |dom0| ensures dom0[k] in now <==> minR <= rows[k] <= maxR {
      assert (dom0 + added)[k] == dom0[k];
    }
  }

  /**
    `added` followed by the old cells dom0, showing rows b, b + 1, ... (each
    at least minR), where the first of `added` shows minR: position k stays
    exactly when minR + k <= maxR, so an old cell stays exactly when its row
    is in the window.
  */
  lemma StaysAfterPrepending(dom0: seq<TableViewCell>, added: seq<TableViewCell>, now: seq<TableViewCell>,
                             rows: seq<int>, b: int, minR: int, maxR: int)
    requires |dom0| == |rows| && minR + |added| == b && forall k :: 0 <= k < |rows| ==> rows[k] == b + k
    requires forall k :: 0 <= k < |added + dom0| ==> ((added + dom0)[k] in now <==> minR + k <= maxR)
    ensures forall k :: 0 <= k < |dom0| ==> (dom0[k] in now <==> minR <= rows[k] <= maxR)
  {
    forall k | 0 <= k < |dom0| ensures dom0[k] in now <==> minR <= rows[k] <= maxR {
      assert (added + dom0)[|added| + k] == dom0[k];
    }
  }

  /** cur is what is left of the cells dom0, which showed rows, once the cells of rows lo .. hi are released. */
  ghost predicate Released(cur: seq<TableViewCell>, dom0: seq<TableViewCell>, rows: seq<int>, lo: int, hi: int)
  {
    |dom0| == |rows| && cur == Keep(dom0, rows, lo, hi)
  }

  /**
    The exit of the removal loop: j is hi, or hi < lo and j is lo - 1; either
    way, releasing rows lo .. j is releasing rows lo .. hi.
  */
  lemma ReleasedThrough(cur: seq<TableViewCell>, dom0: seq<TableViewCell>, rows: seq<int>, rows': seq<int>,
                         lo: int, j: int, hi: int)
    requires ShowsRows(cur, Outside(rows, lo, j)) && Released(cur, dom0, rows, lo, j)
    requires rows' == Outside(rows, lo, hi) && hi <= j && (j <= hi || j == lo - 1)
    ensures ShowsRows(cur, rows') && Released(cur, dom0, rows, lo, hi)
  {
    if j != hi {
      OutsideEmptyInterval(rows, lo, j);
      OutsideEmptyInterval(rows, lo, hi);
      KeepEmptyInterval(dom0, rows, lo, j);
      KeepEmptyInterval(dom0, rows, lo, hi);
    }
  }

  /** Taking out a cell whose row occurs once takes that row out of the shown rows. */
  lemma ShowsRowsRemoveFirst(cs: seq<TableViewCell>, rows: seq<int>, c: TableViewCell)
    requires ShowsRows(cs, rows) && NoDuplicates(rows) && c in cs
    ensures ShowsRows(RemoveFirst(cs, c), RemoveFirst(rows, c.index))
  {
    var k := FirstIndex(cs, c);
    var r := cs[..k] + cs[k + 1..];
    var t := rows[..k] + rows[k + 1..];
    assert RemoveFirst(cs, c) == r by {
      RemoveFirstAt(cs, c);
    }
    assert RemoveFirst(rows, c.index) == t by {
      assert rows[k] == c.index;
      assert c.index !in rows[..k] by {
        forall j | 0 <= j < k ensures rows[..k][j] != c.index {
          assert rows[..k][j] == rows[j];
        }
      }
      FirstIndexUnique(rows, c.index, k);
      RemoveFirstAt(rows, c.index);
    }
    ShowsRowsSplice(cs, rows, k);
  }

  /** Taking out the same position from the cells and the rows keeps them in step. */
  lemma ShowsRowsSplice(cs: seq<TableViewCell>, rows: seq<int>, k: nat)
    requires ShowsRows(cs, rows) && k < |cs|
    ensures ShowsRows(cs[..k] + cs[k + 1..], rows[..k] + rows[k + 1..])
  {
    var r := cs[..k] + cs[k + 1..];
    var t := rows[..k] + rows[k + 1..];
    forall j | 0 <= j < |r| ensures r[j].index == t[j] {
      if j < k { assert r[j] == cs[j] && t[j] == rows[j]; } else { assert r[j] == cs[j + 1] && t[j] == rows[j + 1]; }
    }
  }

  // ---------------------------------------------------------------------
  // The registry of reusable cell prototypes

  /** `Pushpop.TableView._reusableCellPrototypes`; `order` is the enumeration order of its keys. */
  class ReusableCellPrototypes {
    var prototypes: map<string, CellPrototype>
    var order: seq<string>

    /** Every prototype is registered under its own non-empty reuse identifier. */
    ghost predicate Valid()
      reads this
    {
      NoDuplicates(order) &&
      (forall id :: id in prototypes <==> id in order) &&
      (forall id :: id in prototypes ==> id != "" && prototypes[id].reuseIdentifier == id)
    }

    /** The registry once the module has registered the base cell prototype. */
    constructor()
      ensures Valid()
      ensures prototypes == map[DefaultReuseIdentifier := TableViewCellPrototype] && order == [DefaultReuseIdentifier]
    {
      prototypes := map[];
      order := [];
      new;
      Register(Some(TableViewCellPrototype));
    }

    /** registerReusableCellPrototype: a missing prototype or one without a reuse identifier is ignored; a later one replaces an earlier one. */
    method Register(p: Option<CellPrototype>)
      requires Valid()
      modifies this
      ensures Valid()
      ensures p.None? || p.value.reuseIdentifier == "" ==> prototypes == old(prototypes) && order == old(order)
      ensures p.Some? && p.value.reuseIdentifier != "" ==>
                prototypes == old(prototypes)[p.value.reuseIdentifier := p.value] &&
                order == (if p.value.reuseIdentifier in old(prototypes) then old(order) else old(order) + [p.value.reuseIdentifier])
    {
      if p.None? || p.value.reuseIdentifier == "" {
        return;
      }
      var id := p.value.reuseIdentifier;
      if id !in prototypes {
        order := order + [id];
      }
      prototypes := prototypes[id := p.value];
    }

    /** getReusableCellPrototypeWithIdentifier, with the base prototype standing in for a missing one as dequeuing does. */
    function PrototypeFor(reuseIdentifier: string): (p: CellPrototype)
      reads this
      ensures reuseIdentifier in prototypes ==> p == prototypes[reuseIdentifier]
      ensures reuseIdentifier !in prototypes ==> p == TableViewCellPrototype
    {
      if reuseIdentifier in prototypes then prototypes[reuseIdentifier] else TableViewCellPrototype
    }

    /**
      getReusableCellPrototypes: every registered prototype once, in registration
      order (the `for…in` order of the registry while no identifier is integer-like).
    */
    method GetReusableCellPrototypes() returns (r: seq<CellPrototype>)
      requires Valid()
      ensures |r| == |order| && forall i :: 0 <= i < |r| ==> r[i] == prototypes[order[i]]
      ensures forall p :: p in r <==> p in prototypes.Values
    {
      r := [];
      var i := 0;
      while i < |order|
        invariant 0 <= i <= |order|
        invariant |r| == i && forall k :: 0 <= k < i ==> r[k] == prototypes[order[k]]
      {
        r := r + [prototypes[order[i]]];
        i := i + 1;
      }
      forall p | p in prototypes.Values ensures p in r {
        var id :| id in prototypes && prototypes[id] == p;
        var k :| 0 <= k < |order| && order[k] == id;
        assert r[k] == p;
      }
    }
  }

  // ---------------------------------------------------------------------
  // Cells

  /** `Pushpop.TableViewCell`: a row's element, bound to a table view while it is live. */
  class TableViewCell {
    const kind: string
    const reuseIdentifier: string
    var tableView: TableView?
    var index: int
    var selected: bool
    var data: Option<Item>
    var value: Value
    var accessoryType: Option<string>
    var editingAccessoryType: Option<string>

    /** `new prototype.constructor(reuseIdentifier)`: an empty identifier falls back to the prototype's own. */
    constructor(prototype: CellPrototype, reuseIdentifier: string)
      ensures kind == prototype.kind
      ensures this.reuseIdentifier == OrDefault(reuseIdentifier, prototype.reuseIdentifier)
      ensures tableView == null && index == -1 && !selected && data.None? && value == Null
      ensures accessoryType.None? && editingAccessoryType.None?
    {
      kind := prototype.kind;
      this.reuseIdentifier := OrDefault(reuseIdentifier, prototype.reuseIdentifier);
      tableView := null;
      index := -1;
      selected := false;
      data := None;
      value := Null;
      accessoryType := None;
      editingAccessoryType := None;
    }

    /** The state of a cell waiting in the pool: no row, no selection, no data, no accessories. */
    ghost predicate Pooled()
      reads this
    {
      index == -1 && !selected && data.None? && accessoryType.None? && editingAccessoryType.None?
    }

    method SetIndex(i: int)
      modifies this`index
      ensures index == i
    {
      index := i;
    }

    /** setSelected; a rendered cell's selection is no concern of the pool, whose cells are all unselected. */
    method SetSelected(b: bool)
      modifies this`selected
      ensures selected == b
      ensures tableView != null && this in tableView.renderedCells.elements && old(tableView.PoolValid()) ==> tableView.PoolValid()
    {
      selected := b;
      if tableView != null && this in tableView.renderedCells.elements && old(tableView.PoolValid()) {
        var tv := tableView;
        assert tv.PoolValid() by {
          forall id, c | id in tv.reusableCells.buckets && c in tv.reusableCells.buckets[id] ensures c.Pooled() {
            assert old(c.Pooled()) && c != this;
          }
        }
      }
    }

    /** setAccessoryType: the "none" accessory type is stored as null. */
    method SetAccessoryType(t: Option<string>)
      modifies this`accessoryType
      ensures accessoryType.Some? <==> t.Some? && t.value != AccessoryTypeNone
      ensures accessoryType.Some? ==> accessoryType == t
    {
      accessoryType := if t == Some(AccessoryTypeNone) then None else t;
    }

    /** setEditingAccessoryType: the "none" editing accessory type is stored as null. */
    method SetEditingAccessoryType(t: Option<string>)
      modifies this`editingAccessoryType
      ensures editingAccessoryType.Some? <==> t.Some? && t.value != EditingAccessoryTypeNone
      ensures editingAccessoryType.Some? ==> editingAccessoryType == t
    {
      editingAccessoryType := if t == Some(EditingAccessoryTypeNone) then None else t;
    }

    /**
      setData: the cell takes the item's truthy `value` as its value.  The
      write-back through setValue finds that value already on the item and
      changes nothing, so it is not repeated here; it still needs the table
      view and its data source.  A falsy or missing `value` leaves the
      cell's previous value in place.
    */
    method SetData(d: Option<Item>)
      requires d.Some? && TruthyField(d.value.fields, "value") ==> tableView != null && tableView.dataSource != null
      modifies this`data, this`value
      ensures data == d
      ensures d.Some? && TruthyField(d.value.fields, "value") ==> value == d.value.fields["value"]
      ensures !(d.Some? && TruthyField(d.value.fields, "value")) ==> value == old(value)
    {
      data := d;
      if d.Some? && TruthyField(d.value.fields, "value") {
        value := d.value.fields["value"];
      }
    }

    /** The set holding the cell's item, if it has one. */
    function DataItems(): set<Item>
      reads this
    {
      if data.Some? then {data.value} else {}
    }

    /**
      setValue: the value is written through to the item's `value` property
      and kept on the cell.  A cell without a table view or data source
      throws before anything changes; an unbound data source throws after
      writing the item, and the cell keeps its old value (thrown).
    */
    method SetValue(v: Value) returns (thrown: bool)
      modifies this`value, DataItems()
      modifies if tableView != null && tableView.dataSource != null then {tableView.dataSource.tableView} else {}
      ensures data == old(data)
      ensures thrown <==>
                tableView == null || tableView.dataSource == null ||
                (data.Some? && !("value" in old(data.value.fields) && old(data.value.fields["value"]) == v) &&
                 tableView.dataSource.tableView == null)
      ensures !thrown ==> value == v
      ensures thrown ==> value == old(value)
      ensures data.Some? && tableView != null && tableView.dataSource != null ==>
                data.value.fields == old(data.value.fields)["value" := v]
      ensures data.Some? && (tableView == null || tableView.dataSource == null) ==> data.value.fields == old(data.value.fields)
      ensures tableView != null && old(tableView.dataSource) != null && old(tableView.dataSource.tableView) != null ==>
                var tv := old(tableView.dataSource.tableView);
                tv.OnlyEventsChanged() &&
                tv.events == old(tv.events) +
                  if data.Some? && !("value" in old(data.value.fields) && old(data.value.fields["value"]) == v)
                  then [DidChangeValueForItemInDataSource(data.value, "value", v,
                          if "value" in old(data.value.fields) then Some(old(data.value.fields["value"])) else None)]
                  else []
    {
      if tableView == null || tableView.dataSource == null {
        return true;
      }
      var item: Item? := if data.Some? then data.value else null;
      thrown := tableView.dataSource.SetValueForKeyOnItem(item, "value", v);
      if !thrown {
        value := v;
      }
    }

    /**
      The setters getCellForRowAtIndex applies to a freshly dequeued cell, in
      its order: setIndex, setAccessoryType, setEditingAccessoryType, setData.
    */
    method Fill(i: int, accessory: string, editingAccessory: string, item: Item)
      requires tableView != null && tableView.dataSource != null
      requires this in tableView.renderedCells.elements && tableView.PoolValid()
      modifies this`index, this`accessoryType, this`editingAccessoryType, this`data, this`value
      ensures tableView.PoolValid()
      ensures index == i && data == Some(item)
      ensures accessoryType == StoredAccessoryType(accessory, AccessoryTypeNone)
      ensures editingAccessoryType == StoredAccessoryType(editingAccessory, EditingAccessoryTypeNone)
      ensures value == ValueAfterSetData(item.fields, old(value))
      ensures tableView.reusableCells.buckets == old(tableView.reusableCells.buckets)
      ensures tableView.renderedCells.elements == old(tableView.renderedCells.elements) && tableView.cells == old(tableView.cells)
    {
      SetIndex(i);
      SetAccessoryType(Some(accessory));
      SetEditingAccessoryType(Some(editingAccessory));
      SetData(Some(item));
      assert tableView.PoolValid() by {
        forall id, c | id in tableView.reusableCells.buckets && c in tableView.reusableCells.buckets[id] ensures c.Pooled() {
          assert c != this;
        }
      }
    }

    /**
      prepareForReuse: the cell leaves the DOM and the rendered cells, joins
      the pool under its reuse identifier and forgets its row; its value is
      kept.
    */
    method PrepareForReuse()
      requires tableView != null && this in tableView.renderedCells.elements
      requires tableView.PoolValid() && tableView.DomValid()
      modifies this, tableView.renderedCells, tableView.reusableCells, tableView.element
      ensures tableView == old(tableView) && value == old(value) && Pooled()
      ensures tableView.renderedCells.elements == RemoveFirst(old(tableView.renderedCells.elements), this)
      ensures tableView.element.children == RemoveFirst(old(tableView.element.children), this)
      ensures tableView.reusableCells.buckets ==
                old(tableView.reusableCells.buckets)[reuseIdentifier := old(tableView.Bucket(reuseIdentifier)) + [this]]
      ensures tableView.PoolValid() && tableView.DomValid()
    {
      var tv := tableView;
      // setSelected(false), setIndex(-1), setAccessoryType(null),
      // setEditingAccessoryType(null), setData(null); none of the list
      // updates below reads these fields, so they come first here.
      selected, index, accessoryType, editingAccessoryType, data := false, -1, None, None, None;
      assert tv.PoolValid() by {
        forall id, c | id in tv.reusableCells.buckets && c in tv.reusableCells.buckets[id] ensures c.Pooled() {
          assert c != this;
        }
      }
      tv.MoveToPool(this);
    }
  }

  // ---------------------------------------------------------------------
  // The table view

  /** A JavaScript array of cells, changed in place by `push` and `splice`. */
  class CellArray {
    var elements: seq<TableViewCell>

    constructor()
      ensures elements == []
    {
      elements := [];
    }
  }

  /** The table view's dictionary of reusable cells: an array of waiting cells per reuse identifier. */
  class CellPool {
    var buckets: map<string, seq<TableViewCell>>

    constructor()
      ensures buckets == map[]
    {
      buckets := map[];
    }
  }

  /** A JavaScript array of row indexes. */
  class IndexArray {
    var elements: seq<int>

    constructor()
      ensures elements == []
    {
      elements := [];
    }
  }

  /** The table view's `<ul>`: its child cells in document order. */
  class ListElement {
    var children: seq<TableViewCell>

    constructor()
      ensures children == []
    {
      children := [];
    }
  }

  /** `Pushpop.TableView` without its DOM element and gestures; the scroll view is reduced to its position, viewport height and margins. */
  class TableView {
    const registry: ReusableCellPrototypes
    var dataSource: TableViewDataSource?
    var scrollX: int
    var scrollY: int
    var visibleHeight: int
    var rowHeight: int
    var marginTop: int
    var marginBottom: int
    var minimumRenderedRowIndex: int
    var maximumRenderedRowIndex: int
    var minimumScrollPositionThreshold: int
    var maximumScrollPositionThreshold: int
    var drawing: bool
    /** `_renderedCells`: the live cells, in the order they were dequeued. */
    const renderedCells: CellArray
    /** `_reusableCells`: the pools of waiting cells, by reuse identifier. */
    const reusableCells: CellPool
    /** The list element the rendered cells are attached to. */
    const element: ListElement
    /** `_selectedRowIndexes` */
    const selectedRowIndexes: IndexArray
    var events: seq<Event>
    /** Every cell this table view has dequeued. */
    ghost var cells: set<TableViewCell>
    /** The geometry of the last draw since the window was last reset. */
    ghost var lastDraw: Option<DrawGeometry>

    /** The pool of a reuse identifier, empty when there is none yet. */
    function Bucket(reuseIdentifier: string): seq<TableViewCell>
      reads reusableCells
    {
      BucketOf(reusableCells.buckets, reuseIdentifier)
    }

    /** The recycling invariant of this table view's own lists. */
    ghost predicate PoolValid()
      reads this`cells, renderedCells, reusableCells, cells
    {
      OwnedBy(this, cells) && PoolInvariant(cells, renderedCells.elements, reusableCells.buckets)
    }

    /** The list element holds exactly the rendered cells, each once. */
    ghost predicate DomValid()
      reads renderedCells, element
    {
      NoDuplicates(element.children) && (forall c :: c in element.children ==> c in renderedCells.elements) && (forall c :: c in renderedCells.elements ==> c in element.children)
    }

    /**
      The list half of prepareForReuse: a reset rendered cell is detached
      from the list element, pushed onto the pool of its reuse identifier
      and spliced out of the rendered cells.
    */
    method MoveToPool(cell: TableViewCell)
      requires cell in renderedCells.elements && cell.Pooled() && PoolValid() && DomValid()
      modifies renderedCells, reusableCells, element
      ensures renderedCells.elements == RemoveFirst(old(renderedCells.elements), cell)
      ensures element.children == RemoveFirst(old(element.children), cell)
      ensures reusableCells.buckets == old(reusableCells.buckets)[cell.reuseIdentifier := old(Bucket(cell.reuseIdentifier)) + [cell]]
      ensures PoolValid() && DomValid()
    {
      var rendered := renderedCells.elements;
      var i := 0;
      while i < |rendered| && rendered[i] != cell
        invariant 0 <= i <= |rendered|
        invariant cell !in rendered[..i]
      {
        assert rendered[..i + 1] == rendered[..i] + [rendered[i]];
        i := i + 1;
      }
      var rest := rendered[..i] + rendered[i + 1..];
      assert rest == RemoveFirst(rendered, cell) && NoDuplicates(rest) &&
             (forall y :: y in rest <==> y in rendered && y != cell) by {
        FirstIndexUnique(rendered, cell, i);
        RemoveFirstAt(rendered, cell);
        RemoveFirstNoDuplicates(rendered, cell);
      }
      assert NoDuplicates(RemoveFirst(element.children, cell)) &&
             (forall y :: y in RemoveFirst(element.children, cell) <==> y in element.children && y != cell) by {
        RemoveFirstNoDuplicates(element.children, cell);
      }
      var id := cell.reuseIdentifier;
      var bucket := Bucket(id);
      PoolMoveToBucket(cells, rendered, reusableCells.buckets, cell);
      ghost var dom0 := element.children;

      element.children := RemoveFirst(element.children, cell);
      reusableCells.buckets := reusableCells.buckets[id := bucket + [cell]];
      renderedCells.elements := rest;

      assert DomValid() by {
        forall c | c in element.children ensures c in renderedCells.elements {
          assert c in dom0 && c != cell;
        }
        forall c | c in renderedCells.elements ensures c in element.children {
          assert c in rendered && c != cell;
        }
      }
    }

    /** The DOM shows exactly the rendered window of the last draw, in row order, or nothing after a reset. */
    ghost predicate WindowShown()
      reads this`lastDraw, this`minimumRenderedRowIndex, this`maximumRenderedRowIndex, element, set c | c in element.children
    {
      (lastDraw.None? && minimumRenderedRowIndex == -1 && maximumRenderedRowIndex == -1 && element.children == []) ||
      (lastDraw.Some? && Geometry(lastDraw.value.scroll, lastDraw.value.height, lastDraw.value.rowHeight) &&
       var w := ComputeLayout(lastDraw.value.scroll, lastDraw.value.height, lastDraw.value.rowHeight, lastDraw.value.rows);
       minimumRenderedRowIndex == w.minRendered && maximumRenderedRowIndex == w.maxRendered &&
       ShowsRows(element.children, Range(w.minRendered, w.maxRendered)))
    }

    /** At most one row is selected, and a shown cell is selected exactly when its row is. */
    ghost predicate SelectionShown()
      reads selectedRowIndexes, element, set c | c in element.children
    {
      |selectedRowIndexes.elements| <= 1 &&
      forall c :: c in element.children ==> (c.selected <==> c.index in selectedRowIndexes.elements)
    }

    ghost predicate Valid()
      reads this`cells, this`lastDraw, this`minimumRenderedRowIndex, this`maximumRenderedRowIndex, renderedCells, reusableCells, cells, selectedRowIndexes, element, set c | c in element.children
    {
      PoolValid() && DomValid() && WindowShown() && SelectionShown()
    }

    /** A draw at scroll position y computes a window from the same geometry as the last draw (or starts afresh). */
    ghost predicate DrawAdmissibleAt(y: int)
      reads this, dataSource
    {
      dataSource != null && Geometry(y, visibleHeight, rowHeight) &&
      (lastDraw.Some? ==>
         lastDraw.value.height == visibleHeight && lastDraw.value.rowHeight == rowHeight &&
         lastDraw.value.rows == |dataSource.filteredDataSet|)
    }

    /** The window fields and the DOM agree with the layout w. */
    ghost predicate Shows(w: Layout)
      reads this`minimumRenderedRowIndex, this`maximumRenderedRowIndex, this`marginTop, this`marginBottom, element, set c | c in element.children
    {
      minimumRenderedRowIndex == w.minRendered && maximumRenderedRowIndex == w.maxRendered &&
      marginTop == w.marginTop && marginBottom == w.marginBottom &&
      ShowsRows(element.children, Range(w.minRendered, w.maxRendered))
    }

    /** A pool and a list in order that show the window of the recorded geometry make the table valid. */
    lemma ValidWhenShown(w: Layout)
      requires PoolValid() && DomValid() && SelectionShown() && Shows(w)
      requires lastDraw.Some? && Geometry(lastDraw.value.scroll, lastDraw.value.height, lastDraw.value.rowHeight)
      requires w == ComputeLayout(lastDraw.value.scroll, lastDraw.value.height, lastDraw.value.rowHeight, lastDraw.value.rows)
      ensures Valid()
    {
    }

    /** Every shown cell holds the item of its row. */
    ghost predicate CellsShowRows(items: seq<Item>)
      reads element, set c | c in element.children
    {
      forall c :: c in element.children ==> 0 <= c.index < |items| && c.data == Some(items[c.index])
    }

    /** Nothing of the table view but its event log differs from the previous state. */
    twostate predicate OnlyEventsChanged()
      reads this, renderedCells, reusableCells, selectedRowIndexes, element
    {
      old(dataSource) == dataSource && old(scrollX) == scrollX && old(scrollY) == scrollY &&
      old(visibleHeight) == visibleHeight && old(rowHeight) == rowHeight &&
      old(marginTop) == marginTop && old(marginBottom) == marginBottom &&
      old(minimumRenderedRowIndex) == minimumRenderedRowIndex && old(maximumRenderedRowIndex) == maximumRenderedRowIndex &&
      old(minimumScrollPositionThreshold) == minimumScrollPositionThreshold &&
      old(maximumScrollPositionThreshold) == maximumScrollPositionThreshold &&
      old(renderedCells.elements) == renderedCells.elements && old(reusableCells.buckets) == reusableCells.buckets &&
      old(element.children) == element.children && old(selectedRowIndexes.elements) == selectedRowIndexes.elements &&
      old(cells) == cells && old(lastDraw) == lastDraw
    }

    /** A table view in a scroll view of the given viewport height, with nothing drawn yet. */
    constructor(registry: ReusableCellPrototypes, visibleHeight: int)
      ensures Valid()
      ensures fresh(renderedCells) && fresh(reusableCells) && fresh(element) && fresh(selectedRowIndexes)
      ensures this.registry == registry && this.visibleHeight == visibleHeight && rowHeight == DefaultRowHeight
      ensures dataSource == null && scrollX == 0 && scrollY == 0 && !drawing
      ensures renderedCells.elements == [] && reusableCells.buckets == map[] && element.children == [] && selectedRowIndexes.elements == [] && events == []
      ensures minimumRenderedRowIndex == -1 && maximumRenderedRowIndex == -1
      ensures minimumScrollPositionThreshold == -1 && maximumScrollPositionThreshold == -1
    {
      this.registry := registry;
      dataSource := null;
      scrollX, scrollY := 0, 0;
      this.visibleHeight := visibleHeight;
      rowHeight := DefaultRowHeight;
      marginTop, marginBottom := 0, 0;
      minimumRenderedRowIndex, maximumRenderedRowIndex := -1, -1;
      minimumScrollPositionThreshold, maximumScrollPositionThreshold := -1, -1;
      drawing := false;
      renderedCells := new CellArray();
      reusableCells := new CellPool();
      element := new ListElement();
      selectedRowIndexes := new IndexArray();
      events := [];
      cells := {};
      lastDraw := None;
    }

    /** getReusableCellsWithIdentifier: the pool of the identifier, created empty when missing. */
    method GetReusableCellsWithIdentifier(reuseIdentifier: string) returns (bucket: seq<TableViewCell>)
      requires PoolValid()
      modifies reusableCells
      ensures bucket == old(Bucket(reuseIdentifier)) && Bucket(reuseIdentifier) == bucket
      ensures reusableCells.buckets == old(reusableCells.buckets)[reuseIdentifier := bucket]
      ensures PoolValid()
    {
      PoolEnsureBucket(cells, renderedCells.elements, reusableCells.buckets, reuseIdentifier);
      if reuseIdentifier !in reusableCells.buckets {
        reusableCells.buckets := reusableCells.buckets[reuseIdentifier := []];
      }
      bucket := reusableCells.buckets[reuseIdentifier];
    }

    /**
      dequeueReusableCellWithIdentifier: the most recently pooled cell of the
      identifier, or a new cell of the registered prototype (the base cell
      when none is registered); either way it joins the rendered cells.
    */
    method DequeueReusableCellWithIdentifier(reuseIdentifier: string) returns (cell: TableViewCell)
      requires PoolValid()
      modifies renderedCells, reusableCells, this`cells, cells`tableView
      ensures PoolValid()
      ensures renderedCells.elements == old(renderedCells.elements) + [cell] && cell !in old(renderedCells.elements)
      ensures cell.tableView == this && cell.Pooled() && cells == old(cells) + {cell}
      ensures cell in old(cells) || fresh(cell)
      ensures forall c :: c in old(cells) && c != cell ==> c.tableView == old(c.tableView)
      ensures |old(Bucket(reuseIdentifier))| > 0 ==>
                var n := |old(Bucket(reuseIdentifier))|;
                cell == old(Bucket(reuseIdentifier))[n - 1] && cell.reuseIdentifier == reuseIdentifier &&
                reusableCells.buckets == old(reusableCells.buckets)[reuseIdentifier := old(Bucket(reuseIdentifier))[..n - 1]] &&
                cell.value == old(Bucket(reuseIdentifier)[n - 1].value)
      ensures |old(Bucket(reuseIdentifier))| == 0 ==>
                fresh(cell) && cell.kind == registry.PrototypeFor(reuseIdentifier).kind &&
                cell.reuseIdentifier == OrDefault(reuseIdentifier, registry.PrototypeFor(reuseIdentifier).reuseIdentifier) &&
                cell.value == Null && reusableCells.buckets == old(reusableCells.buckets)[reuseIdentifier := []]
    {
      var bucket := GetReusableCellsWithIdentifier(reuseIdentifier);
      if |bucket| > 0 {
        cell := TakeReusableCell(reuseIdentifier);
      } else {
        cell := AddNewCell(reuseIdentifier);
      }
    }

    /** The pop branch of dequeuing: the last pooled cell of the identifier becomes rendered. */
    method TakeReusableCell(reuseIdentifier: string) returns (cell: TableViewCell)
      requires PoolValid() && |Bucket(reuseIdentifier)| > 0
      modifies renderedCells, reusableCells, cells`tableView
      ensures PoolValid() && cells == old(cells)
      ensures renderedCells.elements == old(renderedCells.elements) + [cell] && cell !in old(renderedCells.elements)
      ensures cell.tableView == this && cell.Pooled() && cell in cells
      ensures forall c :: c in cells && c != cell ==> c.tableView == old(c.tableView)
      ensures var n := |old(Bucket(reuseIdentifier))|;
              cell == old(Bucket(reuseIdentifier))[n - 1] && cell.reuseIdentifier == reuseIdentifier &&
              reusableCells.buckets == old(reusableCells.buckets)[reuseIdentifier := old(Bucket(reuseIdentifier))[..n - 1]]
    {
      var bucket := Bucket(reuseIdentifier);
      cell := bucket[|bucket| - 1];
      // The pooled cell already belongs to this table view, so this write keeps the invariant.
      cell.tableView := this;
      PoolTakeLast(cells, renderedCells.elements, reusableCells.buckets, reuseIdentifier);
      reusableCells.buckets := reusableCells.buckets[reuseIdentifier := bucket[..|bucket| - 1]];
      renderedCells.elements := renderedCells.elements + [cell];
    }

    /** The construction branch of dequeuing: a new cell of the registered prototype becomes rendered. */
    method AddNewCell(reuseIdentifier: string) returns (cell: TableViewCell)
      requires PoolValid()
      modifies renderedCells, this`cells
      ensures PoolValid() && reusableCells.buckets == old(reusableCells.buckets)
      ensures renderedCells.elements == old(renderedCells.elements) + [cell] && cells == old(cells) + {cell}
      ensures fresh(cell) && cell.tableView == this && cell.Pooled()
      ensures cell.kind == registry.PrototypeFor(reuseIdentifier).kind
      ensures cell.reuseIdentifier == OrDefault(reuseIdentifier, registry.PrototypeFor(reuseIdentifier).reuseIdentifier)
      ensures cell.value == Null
    {
      var prototype := registry.PrototypeFor(reuseIdentifier);
      cell := new TableViewCell(prototype, reuseIdentifier);
      cell.tableView := this;
      PoolAddFresh(cells, renderedCells.elements, reusableCells.buckets, cell);
      renderedCells.elements := renderedCells.elements + [cell];
      cells := cells + {cell};
    }

    /** isRowSelectedAtIndex: a linear search of the selected row indexes. */
    method IsRowSelectedAtIndex(index: int) returns (r: bool)
      ensures r <==> index in selectedRowIndexes.elements
    {
      var i := 0;
      while i < |selectedRowIndexes.elements|
        invariant 0 <= i <= |selectedRowIndexes.elements|
        invariant index !in selectedRowIndexes.elements[..i]
      {
        if selectedRowIndexes.elements[i] == index {
          return true;
        }
        assert selectedRowIndexes.elements[..i + 1] == selectedRowIndexes.elements[..i] + [selectedRowIndexes.elements[i]];
        i := i + 1;
      }
      assert selectedRowIndexes.elements[..i] == selectedRowIndexes.elements;
      return false;
    }

    /** getIndexForSelectedRow: the first selected row, or -1 when no row is selected. */
    function IndexForSelectedRow(): (r: int)
      reads selectedRowIndexes
      ensures selectedRowIndexes.elements != [] ==> r == selectedRowIndexes.elements[0] && r in selectedRowIndexes.elements
      ensures selectedRowIndexes.elements == [] ==> r == -1
      ensures |selectedRowIndexes.elements| == 1 ==> forall i :: i in selectedRowIndexes.elements <==> i == r
    {
      if |selectedRowIndexes.elements| > 0 then selectedRowIndexes.elements[0] else -1
    }

    /**
      One row entering the window, as both render loops of draw do it: the
      data source's cell for the row, selected exactly when the row is.
    */
    method RenderRow(i: int) returns (cell: TableViewCell)
      requires dataSource != null && 0 <= i < |dataSource.filteredDataSet|
      requires PoolValid()
      modifies renderedCells, reusableCells, this`cells, cells
      ensures PoolValid() && cells == old(cells) + {cell}
      ensures renderedCells.elements == old(renderedCells.elements) + [cell] && cell !in old(renderedCells.elements)
      ensures cell.index == i && cell.data == Some(dataSource.filteredDataSet[i])
      ensures cell.selected <==> i in selectedRowIndexes.elements
      ensures cell in old(cells) || fresh(cell)
      ensures forall c :: c in old(cells) && c != cell ==> unchanged(c)
    {
      cell := dataSource.GetCellForRowAtIndex(this, i);
      var selected := IsRowSelectedAtIndex(i);
      cell.SetSelected(selected);
    }

    /**
      `$element.append` / `$element.prepend` of a cell that has just joined
      the rendered cells: the list element again holds exactly the rendered
      cells, and the new cell's row joins the shown rows at that end.
    */
    method Attach(cell: TableViewCell, atEnd: bool, ghost rows: seq<int>, ghost items: seq<Item>, ghost dataOk: bool)
      requires cell !in element.children && NoDuplicates(element.children)
      requires forall c :: c in element.children ==> c in renderedCells.elements
      requires forall c :: c in renderedCells.elements ==> c in element.children || c == cell
      requires cell in renderedCells.elements
      requires |selectedRowIndexes.elements| <= 1 && (cell.selected <==> cell.index in selectedRowIndexes.elements)
      requires forall c :: c in element.children ==> (c.selected <==> c.index in selectedRowIndexes.elements)
      requires ShowsRows(element.children, rows)
      requires dataOk ==> CellsShowRows(items) && 0 <= cell.index < |items| && cell.data == Some(items[cell.index])
      modifies element
      ensures element.children == if atEnd then old(element.children) + [cell] else [cell] + old(element.children)
      ensures ShowsRows(element.children, if atEnd then rows + [cell.index] else [cell.index] + rows)
      ensures DomValid() && SelectionShown()
      ensures old(PoolValid()) ==> PoolValid()
      ensures dataOk ==> CellsShowRows(items)
    {
      var d := element.children;
      var r := if atEnd then d + [cell] else [cell] + d;
      assert NoDuplicates(r) by {
        forall a, b | 0 <= a < b < |r| ensures r[a] != r[b] {
          if atEnd {
            assert r[a] == d[a];
          } else {
            assert r[b] == d[b - 1];
            if a > 0 { assert r[a] == d[a - 1]; }
          }
        }
      }
      element.children := r;
      assert ShowsRows(r, if atEnd then rows + [cell.index] else [cell.index] + rows) by {
        forall k | 0 <= k < |r| ensures r[k].index == (if atEnd then rows + [cell.index] else [cell.index] + rows)[k] {
          if atEnd {
            if k < |d| { assert r[k] == d[k]; }
          } else {
            if k > 0 { assert r[k] == d[k - 1]; }
          }
        }
      }
    }

    /**
      One step of draw's rendering loops: row i is rendered and attached at
      the end of the list element (atEnd) or at its front.  `rows` are the
      rows the list element showed before and `rows'` those it shows after;
      `dataOk` records whether every attached cell already showed its item
      of `items`.
    */
    method ShowRow(i: int, atEnd: bool, ghost rows: seq<int>, ghost rows': seq<int>, ghost items: seq<Item>, ghost dataOk: bool)
      returns (cell: TableViewCell)
      requires dataSource != null && items == dataSource.filteredDataSet && 0 <= i < |items|
      requires PoolValid() && DomValid() && SelectionShown() && ShowsRows(element.children, rows)
      requires rows' == if atEnd then rows + [i] else [i] + rows
      requires dataOk ==> CellsShowRows(items)
      modifies renderedCells, reusableCells, this`cells, element, cells
      ensures PoolValid() && DomValid() && SelectionShown()
      ensures ShowsRows(element.children, rows')
      ensures element.children == if atEnd then old(element.children) + [cell] else [cell] + old(element.children)
      ensures cell !in old(element.children)
      ensures fresh(cells - old(cells))
      ensures dataOk ==> CellsShowRows(items)
    {
      ghost var dom0 := element.children;
      cell := RenderRow(i);
      assert forall c :: c in dom0 ==> c != cell && unchanged(c);
      Attach(cell, atEnd, rows, items, dataOk);
    }

    /** A rendered cell leaves the window: it is prepared for reuse and so detached from the list element. */
    method Release(c: TableViewCell, ghost rows: seq<int>, ghost items: seq<Item>, ghost dataOk: bool)
      requires PoolValid() && DomValid() && SelectionShown() && ShowsRows(element.children, rows) && NoDuplicates(rows)
      requires dataOk ==> CellsShowRows(items)
      requires c in renderedCells.elements
      modifies renderedCells, reusableCells, element, cells
      ensures PoolValid() && DomValid() && SelectionShown()
      ensures ShowsRows(element.children, RemoveFirst(rows, old(c.index)))
      ensures element.children == RemoveFirst(old(element.children), c)
      ensures dataOk ==> CellsShowRows(items)
    {
      ghost var dom0 := element.children;
      assert c in dom0;
      ghost var rest := RemoveFirst(dom0, c);
      assert ShowsRows(rest, RemoveFirst(rows, c.index)) by {
        ShowsRowsRemoveFirst(dom0, rows, c);
      }
      assert forall d :: d in rest ==> d in dom0 && d != c by {
        RemoveFirstNoDuplicates(dom0, c);
      }
      c.PrepareForReuse();
      assert forall d :: d in element.children ==> d in dom0 && d != c;
    }

    /** One step of draw's removal loop: the rendered cell of row i, if there is one, is prepared for reuse. */
    method ReleaseRow(i: int, ghost rows: seq<int>, ghost items: seq<Item>, ghost dataOk: bool)
      requires PoolValid() && DomValid() && SelectionShown() && ShowsRows(element.children, rows) && NoDuplicates(rows)
      requires dataOk ==> CellsShowRows(items)
      modifies renderedCells, reusableCells, element, cells
      ensures PoolValid() && DomValid() && SelectionShown()
      ensures ShowsRows(element.children, RemoveFirst(rows, i))
      ensures element.children == Keep(old(element.children), rows, i, i)
      ensures dataOk ==> CellsShowRows(items)
    {
      var cell := RenderedCellAtIndex(i);
      if cell != null {
        KeepReleased(element.children, rows, cell);
        Release(cell, rows, items, dataOk);
      } else {
        assert i !in rows by {
          forall k | 0 <= k < |rows| ensures rows[k] != i {
            assert element.children[k] in renderedCells.elements;
          }
        }
        RemoveFirstAt(rows, i);
        KeepAbsent(element.children, rows, i);
      }
    }

    /** One step of draw's loop over higher-indexed rows: row last + 1 is appended after rows from .. last. */
    method AppendRow(from: int, last: int, ghost rows: seq<int>, ghost items: seq<Item>, ghost dataOk: bool)
      returns (cell: TableViewCell, last': int)
      requires dataSource != null && items == dataSource.filteredDataSet && 0 <= from <= last + 1 < |items|
      requires PoolValid() && DomValid() && SelectionShown() && ShowsRows(element.children, rows + Range(from, last))
      requires dataOk ==> CellsShowRows(items)
      modifies renderedCells, reusableCells, this`cells, element, cells
      ensures PoolValid() && DomValid() && SelectionShown()
      ensures last' == last + 1 && ShowsRows(element.children, rows + Range(from, last'))
      ensures element.children == old(element.children) + [cell]
      ensures cell !in old(element.children)
      ensures fresh(cells - old(cells))
      ensures dataOk ==> CellsShowRows(items)
    {
      last' := last + 1;
      ghost var shown := rows + Range(from, last);
      assert shown + [last'] == rows + Range(from, last') by {
        AppendStep(shown, rows, from, last');
      }
      cell := ShowRow(last', true, shown, rows + Range(from, last'), items, dataOk);
    }

    /**
      draw's loop over higher-indexed rows: rows from .. to, in increasing
      order, each appended to the list element; `last` is the row appended
      last.
    */
    method AppendRows(from: int, to: int, ghost rows: seq<int>, ghost items: seq<Item>, ghost dataOk: bool)
      returns (ghost added: seq<TableViewCell>)
      requires dataSource != null && items == dataSource.filteredDataSet
      requires from <= to ==> 0 <= from && to < |items|
      requires PoolValid() && DomValid() && SelectionShown() && ShowsRows(element.children, rows)
      requires dataOk ==> CellsShowRows(items)
      modifies renderedCells, reusableCells, this`cells, element, cells
      ensures PoolValid() && DomValid() && SelectionShown()
      ensures ShowsRows(element.children, rows + Range(from, to))
      ensures element.children == old(element.children) + added
      ensures ShowsRows(added, Range(from, to)) && forall c :: c in added ==> c !in old(element.children)
      ensures fresh(cells - old(cells))
      ensures dataOk ==> CellsShowRows(items)
    {
      var last := from - 1;
      added := [];
      assert rows + Range(from, last) == rows by {
        EmptyRange(from, last);
      }
      while last < to
        invariant from - 1 <= last && (last <= to || last == from - 1)
        invariant PoolValid() && DomValid() && SelectionShown()
        invariant ShowsRows(element.children, rows + Range(from, last))
        invariant element.children == old(element.children) + added
        invariant forall c :: c in added ==> c !in old(element.children)
        invariant fresh(cells - old(cells))
        invariant dataOk ==> CellsShowRows(items)
      {
        var cell;
        cell, last := AppendRow(from, last, rows, items, dataOk);
        added := added + [cell];
      }
      if from > to {
        assert rows + Range(from, to) == rows by {
          EmptyRange(from, to);
        }
      }
      ShowsRowsBack(old(element.children), added, rows, Range(from, to));
    }

    /** One step of draw's loop over lower-indexed rows: row next - 1 is prepended in front of rows next .. to. */
    method PrependRow(next: int, to: int, ghost rows: seq<int>, ghost items: seq<Item>, ghost dataOk: bool)
      returns (cell: TableViewCell, next': int)
      requires dataSource != null && items == dataSource.filteredDataSet && 1 <= next <= to + 1 <= |items|
      requires PoolValid() && DomValid() && SelectionShown() && ShowsRows(element.children, Range(next, to) + rows)
      requires dataOk ==> CellsShowRows(items)
      modifies renderedCells, reusableCells, this`cells, element, cells
      ensures PoolValid() && DomValid() && SelectionShown()
      ensures next' == next - 1 && ShowsRows(element.children, Range(next', to) + rows)
      ensures element.children == [cell] + old(element.children)
      ensures cell !in old(element.children)
      ensures fresh(cells - old(cells))
      ensures dataOk ==> CellsShowRows(items)
    {
      next' := next - 1;
      ghost var shown := Range(next, to) + rows;
      assert [next'] + shown == Range(next', to) + rows by {
        PrependStep(shown, rows, next', to);
      }
      cell := ShowRow(next', false, shown, Range(next', to) + rows, items, dataOk);
    }

    /**
      draw's loop over lower-indexed rows: rows to down to from, each
      prepended to the list element; `next` is the row prepended last.
      `added` are the new cells in list order.
    */
    method PrependRows(from: int, to: int, ghost rows: seq<int>, ghost items: seq<Item>, ghost dataOk: bool)
      returns (ghost added: seq<TableViewCell>)
      requires dataSource != null && items == dataSource.filteredDataSet
      requires from <= to ==> 0 <= from && to < |items|
      requires PoolValid() && DomValid() && SelectionShown() && ShowsRows(element.children, rows)
      requires dataOk ==> CellsShowRows(items)
      modifies renderedCells, reusableCells, this`cells, element, cells
      ensures PoolValid() && DomValid() && SelectionShown()
      ensures ShowsRows(element.children, Range(from, to) + rows)
      ensures element.children == added + old(element.children)
      ensures ShowsRows(added, Range(from, to)) && forall c :: c in added ==> c !in old(element.children)
      ensures fresh(cells - old(cells))
      ensures dataOk ==> CellsShowRows(items)
    {
      var next := to + 1;
      added := [];
      assert Range(next, to) + rows == rows by {
        EmptyRange(next, to);
      }
      while next > from
        invariant next <= to + 1 && (from <= next || next == to + 1)
        invariant PoolValid() && DomValid() && SelectionShown()
        invariant ShowsRows(element.children, Range(next, to) + rows)
        invariant element.children == added + old(element.children)
        invariant forall c :: c in added ==> c !in old(element.children)
        invariant fresh(cells - old(cells))
        invariant dataOk ==> CellsShowRows(items)
      {
        var cell;
        cell, next := PrependRow(next, to, rows, items, dataOk);
        added := [cell] + added;
      }
      if from > to {
        assert Range(from, to) + rows == rows by {
          EmptyRange(from, to);
        }
      } else {
        assert next == from;
      }
      ShowsRowsFront(added, old(element.children), Range(from, to), rows);
    }

    /** One step of draw's removal loop: rows lo .. j are already released from dom0, and row j + 1 is released too. */
    method ReleaseNextRow(lo: int, j: int, ghost dom0: seq<TableViewCell>, ghost rows: seq<int>,
                          ghost items: seq<Item>, ghost dataOk: bool)
      requires PoolValid() && DomValid() && SelectionShown() && NoDuplicates(rows) && |dom0| == |rows| && lo <= j + 1
      requires ShowsRows(element.children, Outside(rows, lo, j))
      requires Released(element.children, dom0, rows, lo, j)
      requires dataOk ==> CellsShowRows(items)
      modifies renderedCells, reusableCells, element, cells
      ensures PoolValid() && DomValid() && SelectionShown()
      ensures ShowsRows(element.children, Outside(rows, lo, j + 1))
      ensures Released(element.children, dom0, rows, lo, j + 1)
      ensures dataOk ==> CellsShowRows(items)
    {
      OutsideSubset(rows, lo, j);
      OutsideStep(rows, lo, j + 1);
      KeepStep(dom0, rows, lo, j + 1);
      ReleaseRow(j + 1, Outside(rows, lo, j), items, dataOk);
    }

    /**
      draw's removal loop: the rendered cell of each row lo .. hi, if any,
      is prepared for reuse.  The cell at position k of the list element,
      which showed row rows[k], stays exactly when that row is outside
      lo .. hi, and no other cell joins; the rest show rows'.
    */
    method ReleaseRows(lo: int, hi: int, ghost rows: seq<int>, ghost rows': seq<int>, ghost items: seq<Item>, ghost dataOk: bool)
      requires PoolValid() && DomValid() && SelectionShown()
      requires ShowsRows(element.children, rows) && NoDuplicates(rows) && rows' == Outside(rows, lo, hi)
      requires dataOk ==> CellsShowRows(items)
      modifies renderedCells, reusableCells, element, cells
      ensures PoolValid() && DomValid() && SelectionShown()
      ensures ShowsRows(element.children, rows')
      ensures Released(element.children, old(element.children), rows, lo, hi)
      ensures dataOk ==> CellsShowRows(items)
    {
      ghost var dom0 := element.children;
      OutsideEmptyInterval(rows, lo, lo - 1);
      KeepEmptyInterval(dom0, rows, lo, lo - 1);
      var j := lo - 1;
      while j < hi
        invariant lo - 1 <= j && (j <= hi || j == lo - 1)
        invariant PoolValid() && DomValid() && SelectionShown()
        invariant ShowsRows(element.children, Outside(rows, lo, j))
        invariant Released(element.children, dom0, rows, lo, j)
        invariant dataOk ==> CellsShowRows(items)
      {
        ReleaseNextRow(lo, j, dom0, rows, items, dataOk);
        j := j + 1;
      }
      ReleasedThrough(element.children, dom0, rows, rows', lo, j, hi);
    }

    /**
      draw's removal loop after rows were appended: the list element shows
      rows n .. top, and rows lo .. t - 1 (lo at most n) are released.  The
      cell at position k stays exactly when its row n + k is at least t.
    */
    method ReleaseLeadingRows(lo: int, t: int, ghost rows: seq<int>, ghost rows': seq<int>, ghost n: int, ghost top: int,
                              ghost items: seq<Item>, ghost dataOk: bool)
      requires PoolValid() && DomValid() && SelectionShown()
      requires ShowsRows(element.children, rows) && NoDuplicates(rows) && rows == Range(n, top) && lo <= n
      requires rows' == Outside(rows, lo, t - 1)
      requires dataOk ==> CellsShowRows(items)
      modifies renderedCells, reusableCells, element, cells
      ensures PoolValid() && DomValid() && SelectionShown() && ShowsRows(element.children, rows')
      ensures forall k :: 0 <= k < |old(element.children)| ==> (old(element.children)[k] in element.children <==> t <= n + k)
      ensures forall c :: c in element.children ==> c in old(element.children)
      ensures dataOk ==> CellsShowRows(items)
    {
      ghost var dom := element.children;
      assert NoDuplicates(dom);
      ReleaseRows(lo, t - 1, rows, rows', items, dataOk);
      KeptAbove(dom, element.children, rows, n, top, lo, t);
    }

    /**
      draw's removal loop after rows were prepended: the list element shows
      rows n .. m, and rows t + 1 .. m are released.  The cell at position k
      stays exactly when its row n + k is at most t.
    */
    method ReleaseTrailingRows(t: int, m: int, ghost rows: seq<int>, ghost rows': seq<int>, ghost n: int,
                               ghost items: seq<Item>, ghost dataOk: bool)
      requires PoolValid() && DomValid() && SelectionShown()
      requires ShowsRows(element.children, rows) && NoDuplicates(rows) && rows == Range(n, m)
      requires rows' == Outside(rows, t + 1, m)
      requires dataOk ==> CellsShowRows(items)
      modifies renderedCells, reusableCells, element, cells
      ensures PoolValid() && DomValid() && SelectionShown() && ShowsRows(element.children, rows')
      ensures forall k :: 0 <= k < |old(element.children)| ==> (old(element.children)[k] in element.children <==> n + k <= t)
      ensures forall c :: c in element.children ==> c in old(element.children)
      ensures dataOk ==> CellsShowRows(items)
    {
      ghost var dom := element.children;
      assert NoDuplicates(dom);
      ReleaseRows(t + 1, m, rows, rows', items, dataOk);
      KeptBelow(dom, element.children, rows, n, t, m);
    }

    /**
      draw's first branch with its removal loop: rows lastMax + 1 .. maxR are
      appended, then the rendered cells of rows lastMin .. minR - 1 released.
      The old cells followed by the `added` ones showed rows b, b + 1, ...;
      the cell of row r stays exactly when r is at least minR.
    */
    method RenderHigherRows(lastMin: int, lastMax: int, minR: int, maxR: int,
                            ghost b: int, ghost items: seq<Item>, ghost dataOk: bool)
      returns (ghost added: seq<TableViewCell>)
      requires dataSource != null && items == dataSource.filteredDataSet
      requires PoolValid() && DomValid() && SelectionShown() && ShowsRows(element.children, Range(b, lastMax))
      requires dataOk ==> CellsShowRows(items)
      requires lastMin <= b <= lastMax + 1 && b <= minR && -1 <= lastMax && maxR < |items|
      requires AppendFits(lastMax, minR, maxR)
      modifies renderedCells, reusableCells, this`cells, element, cells
      ensures PoolValid() && DomValid() && SelectionShown()
      ensures ShowsRows(element.children, Range(minR, maxR))
      ensures |added| == |Range(lastMax + 1, maxR)| && forall c :: c in added ==> c !in old(element.children)
      ensures forall k :: 0 <= k < |old(element.children) + added| ==>
                ((old(element.children) + added)[k] in element.children <==> minR <= b + k)
      ensures forall c :: c in element.children ==> c in old(element.children) + added
      ensures fresh(cells - old(cells))
      ensures dataOk ==> CellsShowRows(items)
    {
      ghost var rows := Range(b, lastMax) + Range(lastMax + 1, maxR);
      ghost var top := if lastMax <= maxR then maxR else lastMax;
      ExtendThenTrimFront(b, lastMax, maxR, lastMin, minR);
      added := AppendRows(lastMax + 1, maxR, Range(b, lastMax), items, dataOk);
      ReleaseLeadingRows(lastMin, minR, rows, Range(minR, maxR), b, top, items, dataOk);
    }

    /**
      draw's second branch with its removal loop: rows lastMin - 1 down to
      minR are prepended, then the rendered cells of rows maxR + 1 .. lastMax
      released.  The `added` cells followed by the old ones showed rows
      minR, minR + 1, ...; the cell of row r stays exactly when r is at most
      maxR.
    */
    method RenderLowerRows(lastMin: int, lastMax: int, minR: int, maxR: int,
                           ghost items: seq<Item>, ghost dataOk: bool)
      returns (ghost added: seq<TableViewCell>)
      requires dataSource != null && items == dataSource.filteredDataSet
      requires PoolValid() && DomValid() && SelectionShown() && ShowsRows(element.children, Range(lastMin, lastMax))
      requires dataOk ==> CellsShowRows(items)
      requires 0 <= minR <= lastMin <= lastMax + 1 && minR <= maxR + 1 && maxR <= lastMax < |items|
      modifies renderedCells, reusableCells, this`cells, element, cells
      ensures PoolValid() && DomValid() && SelectionShown()
      ensures ShowsRows(element.children, Range(minR, maxR))
      ensures |added| == |Range(minR, lastMin - 1)| && forall c :: c in added ==> c !in old(element.children)
      ensures forall k :: 0 <= k < |added + old(element.children)| ==>
                ((added + old(element.children))[k] in element.children <==> minR + k <= maxR)
      ensures forall c :: c in element.children ==> c in added + old(element.children)
      ensures fresh(cells - old(cells))
      ensures dataOk ==> CellsShowRows(items)
    {
      ghost var rows := Range(minR, lastMin - 1) + Range(lastMin, lastMax);
      ExtendThenTrimBack(minR, lastMin, lastMax, maxR);
      added := PrependRows(minR, lastMin - 1, Range(lastMin, lastMax), items, dataOk);
      ReleaseTrailingRows(maxR, lastMax, rows, Range(minR, maxR), minR, items, dataOk);
    }

    /**
      The list half of draw: the window moves from lastMin .. lastMax, of
      which the list element shows rows b .. lastMax (b is lastMin, or 0 when
      nothing was drawn), to minR .. maxR.  When neither bound moves nothing
      is rendered and nothing removed (the code's removal bounds stay
      undefined, so its removal loop does not run).
    */
    method UpdateRows(lastMin: int, lastMax: int, minR: int, maxR: int,
                      ghost b: int, ghost items: seq<Item>, ghost dataOk: bool)
      returns (ghost added: seq<TableViewCell>)
      requires dataSource != null && items == dataSource.filteredDataSet
      requires PoolValid() && DomValid() && SelectionShown() && ShowsRows(element.children, Range(b, lastMax))
      requires dataOk ==> CellsShowRows(items)
      requires WindowStep(lastMin, lastMax, b, minR, maxR, |items|)
      modifies renderedCells, reusableCells, this`cells, element, cells
      ensures PoolValid() && DomValid() && SelectionShown()
      ensures ShowsRows(element.children, Range(minR, maxR))
      ensures |added| == |RowsRenderedAsWritten(lastMin, lastMax, minR, maxR)| && forall c :: c in added ==> c !in old(element.children)
      ensures minR > lastMin || maxR > lastMax ==>
                forall k :: 0 <= k < |old(element.children) + added| ==>
                  ((old(element.children) + added)[k] in element.children <==> minR <= b + k)
      ensures minR <= lastMin && maxR <= lastMax && (minR < lastMin || maxR < lastMax) ==>
                forall k :: 0 <= k < |added + old(element.children)| ==>
                  ((added + old(element.children))[k] in element.children <==> minR + k <= maxR)
      ensures minR == lastMin && maxR == lastMax ==>
                unchanged(renderedCells, reusableCells, element) && cells == old(cells) && unchanged(cells)
      ensures forall c :: c in old(element.children) ==> (c in element.children <==> minR <= old(c.index) <= maxR)
      ensures forall c :: c in element.children ==> c in old(element.children) || c in added
      ensures fresh(cells - old(cells))
      ensures dataOk ==> CellsShowRows(items)
    {
      ghost var dom0 := element.children;
      added := [];
      if minR > lastMin || maxR > lastMax {
        added := RenderHigherRows(lastMin, lastMax, minR, maxR, b, items, dataOk);
        StaysAfterAppending(dom0, added, element.children, Range(b, lastMax), b, minR, maxR);
      } else if minR < lastMin || maxR < lastMax {
        added := RenderLowerRows(lastMin, lastMax, minR, maxR, items, dataOk);
        StaysAfterPrepending(dom0, added, element.children, Range(b, lastMax), b, minR, maxR);
      } else {
        assert forall k :: 0 <= k < |dom0| ==> (dom0[k] in element.children <==> minR <= Range(b, lastMax)[k] <= maxR);
      }
      forall c | c in dom0 ensures c in element.children <==> minR <= old(c.index) <= maxR {
        var k :| 0 <= k < |dom0| && dom0[k] == c;
        assert old(dom0[k].index) == Range(b, lastMax)[k];
      }
    }

    /** The window fields draw sets for the window w over `rows` rows, and its announcement of the drawn rows. */
    method RecordWindow(w: Layout, rows: nat)
      modifies this`minimumRenderedRowIndex, this`maximumRenderedRowIndex, this`marginTop, this`marginBottom
      modifies this`minimumScrollPositionThreshold, this`maximumScrollPositionThreshold, this`lastDraw, this`events
      ensures minimumRenderedRowIndex == w.minRendered && maximumRenderedRowIndex == w.maxRendered
      ensures marginTop == w.marginTop && marginBottom == w.marginBottom
      ensures minimumScrollPositionThreshold == MinimumThreshold(w.minRendered, scrollY, visibleHeight)
      ensures maximumScrollPositionThreshold == MaximumThreshold(w.maxRendered, rows, scrollY, visibleHeight)
      ensures lastDraw == Some(DrawGeometry(scrollY, visibleHeight, rowHeight, rows))
      ensures events == old(events) + [DidDrawRowsWithIndexes(w.minRendered, w.maxRendered)]
    {
      minimumRenderedRowIndex, maximumRenderedRowIndex := w.minRendered, w.maxRendered;
      marginTop, marginBottom := w.marginTop, w.marginBottom;
      minimumScrollPositionThreshold := MinimumThreshold(w.minRendered, scrollY, visibleHeight);
      maximumScrollPositionThreshold := MaximumThreshold(w.maxRendered, rows, scrollY, visibleHeight);
      lastDraw := Some(DrawGeometry(scrollY, visibleHeight, rowHeight, rows));
      events := events + [DidDrawRowsWithIndexes(w.minRendered, w.maxRendered)];
    }

    /**
      The body of draw for the window w of the current scroll position: the
      window fields are recorded (see RecordWindow) and the list element is
      brought from the last window, of which it shows rows b .. the last
      maximum, to w (see UpdateRows).
    */
    method DrawWindow(w: Layout, ghost b: int, ghost items: seq<Item>, ghost dataOk: bool)
      returns (ghost added: seq<TableViewCell>)
      requires dataSource != null && items == dataSource.filteredDataSet
      requires Geometry(scrollY, visibleHeight, rowHeight) && w == ComputeLayout(scrollY, visibleHeight, rowHeight, |items|)
      requires PoolValid() && DomValid() && SelectionShown() && ShowsRows(element.children, Range(b, maximumRenderedRowIndex))
      requires dataOk ==> CellsShowRows(items)
      requires WindowStep(minimumRenderedRowIndex, maximumRenderedRowIndex, b, w.minRendered, w.maxRendered, |items|)
      modifies this`minimumRenderedRowIndex, this`maximumRenderedRowIndex, this`marginTop, this`marginBottom
      modifies this`minimumScrollPositionThreshold, this`maximumScrollPositionThreshold, this`lastDraw, this`events
      modifies renderedCells, reusableCells, this`cells, element, cells
      ensures PoolValid() && DomValid() && SelectionShown() && Shows(w)
      ensures lastDraw == Some(DrawGeometry(scrollY, visibleHeight, rowHeight, |items|))
      ensures minimumScrollPositionThreshold == MinimumThreshold(w.minRendered, scrollY, visibleHeight)
      ensures maximumScrollPositionThreshold == MaximumThreshold(w.maxRendered, |items|, scrollY, visibleHeight)
      ensures events == old(events) + [DidDrawRowsWithIndexes(w.minRendered, w.maxRendered)]
      ensures |added| == |RowsRenderedAsWritten(old(minimumRenderedRowIndex), old(maximumRenderedRowIndex), w.minRendered, w.maxRendered)|
      ensures forall c :: c in added ==> c !in old(element.children)
      ensures w.minRendered == old(minimumRenderedRowIndex) && w.maxRendered == old(maximumRenderedRowIndex) ==>
                unchanged(renderedCells, reusableCells, element) && cells == old(cells) && unchanged(cells)
      ensures forall c :: c in old(element.children) ==> (c in element.children <==> w.minRendered <= old(c.index) <= w.maxRendered)
      ensures forall c :: c in element.children ==> c in old(element.children) || c in added
      ensures dataOk ==> CellsShowRows(items)
    {
      var lastMin, lastMax := minimumRenderedRowIndex, maximumRenderedRowIndex;
      RecordWindow(w, |dataSource.filteredDataSet|);
      added := UpdateRows(lastMin, lastMax, w.minRendered, w.maxRendered, b, items, dataOk);
    }

    /**
      The part of draw between setting and clearing its drawing flag: the
      window of the current scroll position is drawn (see DrawWindow).  A
      cell that showed its item keeps showing it, and every newly rendered
      cell shows its item.
    */
    method DrawRows() returns (ghost added: seq<TableViewCell>)
      requires Valid() && DrawAdmissibleAt(scrollY)
      modifies this`minimumRenderedRowIndex, this`maximumRenderedRowIndex, this`marginTop, this`marginBottom
      modifies this`minimumScrollPositionThreshold, this`maximumScrollPositionThreshold, this`lastDraw, this`events
      modifies renderedCells, reusableCells, this`cells, element, cells
      ensures Valid()
      ensures lastDraw == Some(DrawGeometry(scrollY, visibleHeight, rowHeight, |dataSource.filteredDataSet|))
      ensures Shows(ComputeLayout(scrollY, visibleHeight, rowHeight, |dataSource.filteredDataSet|))
      ensures minimumScrollPositionThreshold == MinimumThreshold(minimumRenderedRowIndex, scrollY, visibleHeight)
      ensures maximumScrollPositionThreshold ==
                MaximumThreshold(maximumRenderedRowIndex, |dataSource.filteredDataSet|, scrollY, visibleHeight)
      ensures events == old(events) + [DidDrawRowsWithIndexes(minimumRenderedRowIndex, maximumRenderedRowIndex)]
      ensures old(lastDraw.None? || CellsShowRows(dataSource.filteredDataSet)) ==> CellsShowRows(dataSource.filteredDataSet)
      ensures minimumRenderedRowIndex == old(minimumRenderedRowIndex) && maximumRenderedRowIndex == old(maximumRenderedRowIndex) ==>
                unchanged(renderedCells, reusableCells, element) && cells == old(cells) && unchanged(cells)
      ensures |added| == |RowsRenderedAsWritten(old(minimumRenderedRowIndex), old(maximumRenderedRowIndex),
                                                minimumRenderedRowIndex, maximumRenderedRowIndex)|
      ensures forall c :: c in added ==> c !in old(element.children)
      ensures forall c :: c in old(element.children) ==>
                (c in element.children <==> minimumRenderedRowIndex <= old(c.index) <= maximumRenderedRowIndex)
      ensures forall c :: c in element.children ==> c in old(element.children) || c in added
    {
      ghost var items := dataSource.filteredDataSet;
      var rows := |dataSource.filteredDataSet|;
      var w := ComputeLayout(scrollY, visibleHeight, rowHeight, rows);
      ghost var b := if lastDraw.None? then 0 else minimumRenderedRowIndex;
      ghost var dataOk := lastDraw.None? || CellsShowRows(items);
      if lastDraw.Some? {
        NextDrawIsWindowStep(lastDraw.value.scroll, scrollY, visibleHeight, rowHeight, rows);
      } else {
        FirstDrawIsWindowStep(scrollY, visibleHeight, rowHeight, rows);
        EmptyRange(0, -1);
      }
      added := DrawWindow(w, b, items, dataOk);
      ValidWhenShown(w);
    }

    /** draw: does nothing while a draw is in progress; otherwise draws the rows with its drawing flag set (see DrawFlagged). */
    method Draw() returns (ghost added: seq<TableViewCell>)
      requires Valid() && DrawAdmissibleAt(scrollY)
      modifies this`drawing, this`minimumRenderedRowIndex, this`maximumRenderedRowIndex, this`marginTop, this`marginBottom
      modifies this`minimumScrollPositionThreshold, this`maximumScrollPositionThreshold, this`lastDraw, this`events
      modifies renderedCells, reusableCells, this`cells, element, cells
      ensures Valid() && drawing == old(drawing)
      ensures old(drawing) ==> unchanged(this, renderedCells, reusableCells, element)
      ensures !old(drawing) ==>
                lastDraw == Some(DrawGeometry(scrollY, visibleHeight, rowHeight, |dataSource.filteredDataSet|)) &&
                Shows(ComputeLayout(scrollY, visibleHeight, rowHeight, |dataSource.filteredDataSet|)) &&
                minimumScrollPositionThreshold == MinimumThreshold(minimumRenderedRowIndex, scrollY, visibleHeight) &&
                maximumScrollPositionThreshold ==
                  MaximumThreshold(maximumRenderedRowIndex, |dataSource.filteredDataSet|, scrollY, visibleHeight) &&
                events == old(events) + [DidDrawRowsWithIndexes(minimumRenderedRowIndex, maximumRenderedRowIndex)]
      ensures !old(drawing) && old(lastDraw.None? || CellsShowRows(dataSource.filteredDataSet)) ==>
                CellsShowRows(dataSource.filteredDataSet)
      ensures !old(drawing) && minimumRenderedRowIndex == old(minimumRenderedRowIndex) &&
              maximumRenderedRowIndex == old(maximumRenderedRowIndex) ==>
                unchanged(renderedCells, reusableCells, element) && cells == old(cells) && unchanged(cells)
      ensures old(drawing) ==> added == []
      ensures !old(drawing) ==>
                |added| == |RowsRenderedAsWritten(old(minimumRenderedRowIndex), old(maximumRenderedRowIndex),
                                                  minimumRenderedRowIndex, maximumRenderedRowIndex)|
      ensures forall c :: c in added ==> c !in old(element.children)
      ensures !old(drawing) ==>
                forall c :: c in old(element.children) ==>
                  (c in element.children <==> minimumRenderedRowIndex <= old(c.index) <= maximumRenderedRowIndex)
      ensures forall c :: c in element.children ==> c in old(element.children) || c in added
    {
      if drawing {
        added := [];
      } else {
        added := DrawFlagged();
      }
    }

    /** draw past its guard: the drawing flag is set, the rows are drawn (see DrawRows) and the flag is cleared. */
    method DrawFlagged() returns (ghost added: seq<TableViewCell>)
      requires Valid() && DrawAdmissibleAt(scrollY) && !drawing
      modifies this`drawing, this`minimumRenderedRowIndex, this`maximumRenderedRowIndex, this`marginTop, this`marginBottom
      modifies this`minimumScrollPositionThreshold, this`maximumScrollPositionThreshold, this`lastDraw, this`events
      modifies renderedCells, reusableCells, this`cells, element, cells
      ensures Valid() && !drawing
      ensures lastDraw == Some(DrawGeometry(scrollY, visibleHeight, rowHeight, |dataSource.filteredDataSet|))
      ensures Shows(ComputeLayout(scrollY, visibleHeight, rowHeight, |dataSource.filteredDataSet|))
      ensures minimumScrollPositionThreshold == MinimumThreshold(minimumRenderedRowIndex, scrollY, visibleHeight)
      ensures maximumScrollPositionThreshold ==
                MaximumThreshold(maximumRenderedRowIndex, |dataSource.filteredDataSet|, scrollY, visibleHeight)
      ensures events == old(events) + [DidDrawRowsWithIndexes(minimumRenderedRowIndex, maximumRenderedRowIndex)]
      ensures old(lastDraw.None? || CellsShowRows(dataSource.filteredDataSet)) ==> CellsShowRows(dataSource.filteredDataSet)
      ensures minimumRenderedRowIndex == old(minimumRenderedRowIndex) && maximumRenderedRowIndex == old(maximumRenderedRowIndex) ==>
                unchanged(renderedCells, reusableCells, element) && cells == old(cells) && unchanged(cells)
      ensures |added| == |RowsRenderedAsWritten(old(minimumRenderedRowIndex), old(maximumRenderedRowIndex),
                                                minimumRenderedRowIndex, maximumRenderedRowIndex)|
      ensures forall c :: c in added ==> c !in old(element.children)
      ensures forall c :: c in old(element.children) ==>
                (c in element.children <==> minimumRenderedRowIndex <= old(c.index) <= maximumRenderedRowIndex)
      ensures forall c :: c in element.children ==> c in old(element.children) || c in added
    {
      SetDrawing(true);
      added := DrawRows();
      SetDrawing(false);
    }

    /** Sets or clears the flag that a draw is in progress. */
    method SetDrawing(b: bool)
      modifies this`drawing
      ensures drawing == b
      ensures Valid() == old(Valid())
      ensures forall w :: Shows(w) == old(Shows(w))
      ensures dataSource != null ==> CellsShowRows(dataSource.filteredDataSet) == old(CellsShowRows(dataSource.filteredDataSet))
    {
      drawing := b;
    }

    /** The release loop of reloadData: each cell of a snapshot of the rendered cells is prepared for reuse. */
    method ReleaseRenderedCells()
      requires PoolValid() && DomValid()
      modifies renderedCells, reusableCells, element, cells
      ensures PoolValid() && DomValid()
      ensures renderedCells.elements == [] && element.children == []
      ensures forall c :: c in old(renderedCells.elements) ==> c.Pooled() && c in Bucket(c.reuseIdentifier)
    {
      var toReuse := renderedCells.elements;
      var i := 0;
      while i < |toReuse|
        invariant 0 <= i <= |toReuse|
        invariant PoolValid() && DomValid()
        invariant renderedCells.elements == toReuse[i..]
      {
        var cell := toReuse[i];
        assert cell in cells && cell == renderedCells.elements[0];
        assert RemoveFirst(toReuse[i..], cell) == toReuse[i + 1..] by {
          assert toReuse[i..][1..] == toReuse[i + 1..];
        }
        cell.PrepareForReuse();
        i := i + 1;
      }
      CoveredBy(element.children, renderedCells.elements);
      forall c | c in toReuse ensures c.Pooled() && c in Bucket(c.reuseIdentifier) {
        assert c in cells;
        assert c in BucketOf(reusableCells.buckets, c.reuseIdentifier);
      }
    }

    /** The window fields reloadData resets: no rendered rows and no thresholds, as before a first draw. */
    method ResetWindow()
      modifies this`minimumScrollPositionThreshold, this`maximumScrollPositionThreshold
      modifies this`minimumRenderedRowIndex, this`maximumRenderedRowIndex, this`lastDraw
      ensures minimumScrollPositionThreshold == -1 && maximumScrollPositionThreshold == -1
      ensures minimumRenderedRowIndex == -1 && maximumRenderedRowIndex == -1 && lastDraw.None?
    {
      minimumScrollPositionThreshold, maximumScrollPositionThreshold := -1, -1;
      minimumRenderedRowIndex, maximumRenderedRowIndex := -1, -1;
      lastDraw := None;
    }

    /**
      reloadData: every rendered cell goes back to the pool, the window is
      reset and the table is drawn afresh, so that every shown cell shows its
      row of the current filtered data set.  The scroll position it captures
      and restores is not changed by the model's draw.
    */
    method ReloadData()
      requires Valid() && dataSource != null && Geometry(scrollY, visibleHeight, rowHeight)
      modifies this`drawing, this`minimumRenderedRowIndex, this`maximumRenderedRowIndex, this`marginTop, this`marginBottom
      modifies this`minimumScrollPositionThreshold, this`maximumScrollPositionThreshold, this`lastDraw, this`events
      modifies renderedCells, reusableCells, this`cells, element, cells
      ensures Valid() && drawing == old(drawing)
      ensures old(drawing) ==>
                renderedCells.elements == [] && element.children == [] && lastDraw.None? &&
                minimumRenderedRowIndex == -1 && maximumRenderedRowIndex == -1 &&
                minimumScrollPositionThreshold == -1 && maximumScrollPositionThreshold == -1 && events == old(events)
      ensures !old(drawing) ==>
                lastDraw == Some(DrawGeometry(scrollY, visibleHeight, rowHeight, |dataSource.filteredDataSet|)) &&
                Shows(ComputeLayout(scrollY, visibleHeight, rowHeight, |dataSource.filteredDataSet|)) &&
                CellsShowRows(dataSource.filteredDataSet) &&
                minimumScrollPositionThreshold == MinimumThreshold(minimumRenderedRowIndex, scrollY, visibleHeight) &&
                maximumScrollPositionThreshold ==
                  MaximumThreshold(maximumRenderedRowIndex, |dataSource.filteredDataSet|, scrollY, visibleHeight) &&
                events == old(events) + [DidDrawRowsWithIndexes(minimumRenderedRowIndex, maximumRenderedRowIndex)]
    {
      ReleaseRenderedCells();
      ResetWindow();
      ghost var added := Draw();
    }

    /**
      The scroll handler, for a scroll to position y: unless a draw is in
      progress, the table is drawn when y lies below an enabled minimum
      threshold or at or above an enabled maximum threshold, and nothing
      else happens otherwise.
    */
    method Scroll(y: int)
      requires Valid() && DrawAdmissibleAt(y)
      modifies this`scrollY, this`drawing, this`minimumRenderedRowIndex, this`maximumRenderedRowIndex, this`marginTop, this`marginBottom
      modifies this`minimumScrollPositionThreshold, this`maximumScrollPositionThreshold, this`lastDraw, this`events
      modifies renderedCells, reusableCells, this`cells, element, cells
      ensures Valid() && scrollY == y && drawing == old(drawing)
      ensures !ShouldRedraw(drawing, old(minimumScrollPositionThreshold), old(maximumScrollPositionThreshold), y) ==>
                unchanged(this`minimumRenderedRowIndex, this`maximumRenderedRowIndex, this`lastDraw, this`events) &&
                unchanged(renderedCells, reusableCells, element)
      ensures ShouldRedraw(drawing, old(minimumScrollPositionThreshold), old(maximumScrollPositionThreshold), y) ==>
                lastDraw == Some(DrawGeometry(y, visibleHeight, rowHeight, |dataSource.filteredDataSet|)) &&
                Shows(ComputeLayout(y, visibleHeight, rowHeight, |dataSource.filteredDataSet|)) &&
                events == old(events) + [DidDrawRowsWithIndexes(minimumRenderedRowIndex, maximumRenderedRowIndex)]
    {
      scrollY := y;
      if ShouldRedraw(drawing, minimumScrollPositionThreshold, maximumScrollPositionThreshold, scrollY) {
        ghost var added := Draw();
      }
    }

    /** The bookkeeping half of setDataSource: the new data source, bound back to this table view, and the change event. */
    method BindDataSource(ds: TableViewDataSource)
      modifies this`dataSource, this`events, ds`tableView
      ensures dataSource == ds && ds.tableView == this
      ensures events == old(events) + [DidChangeDataSource(ds, old(dataSource))]
    {
      var previous := dataSource;
      dataSource := ds;
      ds.tableView := this;
      events := events + [DidChangeDataSource(ds, previous)];
    }

    /** setDataSource: the table view takes the data source, reports the change and reloads the rows from it. */
    method SetDataSource(ds: TableViewDataSource)
      requires Valid() && Geometry(scrollY, visibleHeight, rowHeight)
      modifies this`dataSource, ds`tableView
      modifies this`drawing, this`minimumRenderedRowIndex, this`maximumRenderedRowIndex, this`marginTop, this`marginBottom
      modifies this`minimumScrollPositionThreshold, this`maximumScrollPositionThreshold, this`lastDraw, this`events
      modifies renderedCells, reusableCells, this`cells, element, cells
      ensures Valid() && dataSource == ds && ds.tableView == this && drawing == old(drawing)
      ensures !old(drawing) ==>
                Shows(ComputeLayout(scrollY, visibleHeight, rowHeight, |ds.filteredDataSet|)) &&
                CellsShowRows(ds.filteredDataSet) &&
                events == old(events) + [DidChangeDataSource(ds, old(dataSource)),
                                         DidDrawRowsWithIndexes(minimumRenderedRowIndex, maximumRenderedRowIndex)]
      ensures old(drawing) ==>
                element.children == [] && lastDraw.None? && events == old(events) + [DidChangeDataSource(ds, old(dataSource))]
    {
      BindDataSource(ds);
      ReloadData();
    }

    /** The shown cells show pairwise distinct rows. */
    lemma ShownRowsDistinct()
      requires WindowShown()
      ensures forall j, k :: 0 <= j < k < |element.children| ==> element.children[j].index != element.children[k].index
    {
      if lastDraw.Some? {
        var w := ComputeLayout(lastDraw.value.scroll, lastDraw.value.height, lastDraw.value.rowHeight, lastDraw.value.rows);
        forall j, k | 0 <= j < k < |element.children| ensures element.children[j].index != element.children[k].index {
          assert element.children[j].index == Range(w.minRendered, w.maxRendered)[j];
          assert element.children[k].index == Range(w.minRendered, w.maxRendered)[k];
        }
      }
    }

    /**
      The cell loops of selectRowAtIndex (b true) and deselectRowAtIndex (b
      false): the first shown cell of the row (for deselection, the first
      one in the selected state) gets the selected flag b.  Shown rows being
      distinct, the row's cell is then in state b and every other cell keeps
      its state.
    */
    method SetShownRowSelected(index: int, b: bool)
      requires PoolValid() && DomValid()
      requires forall j, k :: 0 <= j < k < |element.children| ==> element.children[j].index != element.children[k].index
      modifies set c | c in element.children
      ensures PoolValid() && DomValid()
      ensures forall c :: c in element.children ==>
                c.index == old(c.index) && c.selected == (if c.index == index then b else old(c.selected))
    {
      var shown := element.children;
      var i := 0;
      while i < |shown| && !(shown[i].index == index && (b || shown[i].selected))
        invariant 0 <= i <= |shown|
        invariant forall j :: 0 <= j < i ==> !(shown[j].index == index && (b || shown[j].selected))
      {
        i := i + 1;
      }
      if i < |shown| {
        var cell := shown[i];
        assert cell in renderedCells.elements && cell in cells;
        cell.SetSelected(b);
        forall c | c in shown && c != cell ensures c.index != index || old(c.selected) == b {
          var j :| 0 <= j < |shown| && shown[j] == c;
          assert shown[i].index != shown[j].index;
        }
      }
    }

    /**
      deselectAllRows: one DidDeselectRowAtIndex per selected row, in
      order; then no row is selected and no shown cell is in the selected
      state.
    */
    method DeselectAllRows()
      requires Valid()
      modifies this`events, selectedRowIndexes, set c | c in element.children
      ensures Valid()
      ensures events == old(events) + DeselectEvents(old(selectedRowIndexes.elements))
      ensures selectedRowIndexes.elements == []
      ensures forall c :: c in element.children ==> !c.selected && c.index == old(c.index)
    {
      var selected := selectedRowIndexes.elements;
      var i := 0;
      while i < |selected|
        modifies this`events
        invariant 0 <= i <= |selected|
        invariant events == old(events) + DeselectEvents(selected[..i])
      {
        assert selected[..i + 1][..i] == selected[..i];
        events := events + [DidDeselectRowAtIndex(selected[i])];
        i := i + 1;
      }
      assert selected[..i] == selected;
      selectedRowIndexes.elements := [];
      UnselectShownCells();
      assert WindowShown();
    }

    /** The cell loop of deselectAllRows: every shown cell in the selected state is set unselected. */
    method UnselectShownCells()
      requires PoolValid() && DomValid()
      modifies set c | c in element.children
      ensures PoolValid() && DomValid()
      ensures forall c :: c in element.children ==> !c.selected && c.index == old(c.index)
    {
      var shown := element.children;
      var i := 0;
      while i < |shown|
        invariant 0 <= i <= |shown|
        invariant PoolValid() && DomValid()
        invariant forall j :: 0 <= j < i ==> !shown[j].selected
        invariant forall c :: c in shown ==> c.index == old(c.index)
      {
        var cell := shown[i];
        if cell.selected {
          assert cell in renderedCells.elements && cell in cells;
          cell.SetSelected(false);
        }
        i := i + 1;
      }
    }

    /**
      deselectRowAtIndex: the first occurrence of the row leaves the
      selection, its shown cell is unselected, and a DidDeselectRowAtIndex
      is triggered whether or not the row was selected.
    */
    method DeselectRowAtIndex(index: int)
      requires Valid()
      modifies this`events, selectedRowIndexes, set c | c in element.children
      ensures Valid()
      ensures selectedRowIndexes.elements == RemoveFirst(old(selectedRowIndexes.elements), index)
      ensures events == old(events) + [DidDeselectRowAtIndex(index)]
      ensures forall c :: c in element.children ==>
                c.index == old(c.index) && c.selected == (old(c.selected) && c.index != index)
    {
      ghost var selected := selectedRowIndexes.elements;
      RemoveSelectedRowIndex(index);
      ShownRowsDistinct();
      SetShownRowSelected(index, false);
      assert WindowShown();
      RemoveFirstOfAtMostOne(selected, index);
      events := events + [DidDeselectRowAtIndex(index)];
    }

    /** The list half of deselectRowAtIndex: the first occurrence of the row is spliced out of the selected rows. */
    method RemoveSelectedRowIndex(index: int)
      modifies selectedRowIndexes
      ensures selectedRowIndexes.elements == RemoveFirst(old(selectedRowIndexes.elements), index)
    {
      var selected := selectedRowIndexes.elements;
      var i := 0;
      while i < |selected| && selected[i] != index
        invariant 0 <= i <= |selected|
        invariant index !in selected[..i]
      {
        assert selected[..i + 1] == selected[..i] + [selected[i]];
        i := i + 1;
      }
      if i < |selected| {
        FirstIndexUnique(selected, index, i);
        RemoveFirstAt(selected, index);
        selectedRowIndexes.elements := selected[..i] + selected[i + 1..];
      } else {
        assert selected[..i] == selected;
        RemoveFirstAt(selected, index);
      }
    }

    /**
      selectRowAtIndex, up to the events it defers and the child table view
      it may push: when the data source allows it, every row is deselected
      and the row becomes the only selected one, shown selected; otherwise
      nothing changes.
    */
    method SelectRowAtIndex(index: int)
      requires Valid() && dataSource != null
      modifies this`events, selectedRowIndexes, set c | c in element.children
      ensures Valid()
      ensures !dataSource.shouldSelectRowAtIndex(index) ==>
                events == old(events) && selectedRowIndexes.elements == old(selectedRowIndexes.elements) &&
                forall c :: c in element.children ==> c.selected == old(c.selected)
      ensures dataSource.shouldSelectRowAtIndex(index) ==>
                selectedRowIndexes.elements == [index] &&
                events == old(events) + DeselectEvents(old(selectedRowIndexes.elements)) &&
                forall c :: c in element.children ==> (c.selected <==> c.index == index)
    {
      if !dataSource.shouldSelectRowAtIndex(index) {
        return;
      }
      DeselectAllRows();
      selectedRowIndexes.elements := selectedRowIndexes.elements + [index];
      ShownRowsDistinct();
      SetShownRowSelected(index, true);
      assert WindowShown();
    }

    /** What reloadData needs: a consistent table view with a data source and a scroll view geometry. */
    ghost predicate ReadyToReload()
      reads this, renderedCells, reusableCells, cells, selectedRowIndexes, element, set c | c in element.children
    {
      Valid() && dataSource != null && Geometry(scrollY, visibleHeight, rowHeight)
    }

    /** Everything reloadData may change. */
    ghost function ReloadFootprint(): set<object>
      reads this`cells
    {
      {this, renderedCells, reusableCells, element} + cells
    }

    /** getRenderedCellAtIndex: the first rendered cell showing the row, or null. */
    method RenderedCellAtIndex(index: int) returns (cell: TableViewCell?)
      ensures cell != null ==> exists k :: 0 <= k < |renderedCells.elements| && renderedCells.elements[k] == cell && cell.index == index &&
                                  forall j :: 0 <= j < k ==> renderedCells.elements[j].index != index
      ensures cell == null ==> forall k :: 0 <= k < |renderedCells.elements| ==> renderedCells.elements[k].index != index
    {
      var i := 0;
      while i < |renderedCells.elements|
        invariant 0 <= i <= |renderedCells.elements|
        invariant forall j :: 0 <= j < i ==> renderedCells.elements[j].index != index
      {
        if renderedCells.elements[i].index == index {
          return renderedCells.elements[i];
        }
        i := i + 1;
      }
      return null;
    }
  }

  // ---------------------------------------------------------------------
  // The data source

  /** `Pushpop.TableViewDataSource` over an in-memory data set. */
  class TableViewDataSource {
    var dataSet: Option<seq<Item>>
    var filteredDataSet: seq<Item>
    /** `_filteredDataSet === _dataSet`: the filtered set is the data set array itself. */
    var filteredIsDataSet: bool
    var lastSearchString: Option<string>
    var filterFunction: Option<FilterFunction>
    var childDataSourceKey: string
    var defaultReuseIdentifier: string
    var defaultAccessoryType: string
    var defaultEditingAccessoryType: string
    var shouldSelectRowAtIndex: int -> bool
    var tableView: TableView?

    /**
      `new TableViewDataSource(dataSet, defaultReuseIdentifier)`: the data
      set (an empty one when none is given) with no search in force, the
      default title filter, and every row selectable.
    */
    constructor(dataSet: Option<seq<Item>>, defaultReuseIdentifier: string)
      ensures Valid() && this.dataSet == Some(if dataSet.Some? then dataSet.value else [])
      ensures filteredDataSet == this.dataSet.value && filteredIsDataSet && lastSearchString.None?
      ensures filterFunction == Some(DefaultFilterFunction) && childDataSourceKey == ""
      ensures this.defaultReuseIdentifier == OrDefault(defaultReuseIdentifier, DefaultReuseIdentifier)
      ensures defaultAccessoryType == AccessoryTypeNone && defaultEditingAccessoryType == EditingAccessoryTypeNone
      ensures forall i :: shouldSelectRowAtIndex(i)
      ensures tableView == null
    {
      var items := if dataSet.Some? then dataSet.value else [];
      this.dataSet := Some(items);
      filteredDataSet := items;
      filteredIsDataSet := true;
      lastSearchString := None;
      filterFunction := Some(DefaultFilterFunction);
      childDataSourceKey := "";
      this.defaultReuseIdentifier := OrDefault(defaultReuseIdentifier, DefaultReuseIdentifier);
      defaultAccessoryType := AccessoryTypeNone;
      defaultEditingAccessoryType := EditingAccessoryTypeNone;
      shouldSelectRowAtIndex := _ => true;
      tableView := null;
    }

    /**
      With no search in force the filtered data set is the data set array
      itself, so the string "null" that a missing last search string turns
      into is never used to pick a previous result.
    */
    predicate Valid()
      reads this
    {
      (filteredIsDataSet ==> dataSet == Some(filteredDataSet)) &&
      (lastSearchString.None? && dataSet.Some? ==> filteredIsDataSet)
    }

    /**
      shouldReloadTableForSearchString.  Without a data set: false, and
      nothing changes.  Without a filter function or for the empty string:
      no search is in force, the filtered set is the data set, and the
      answer is whether it was a different array before.  Otherwise: true,
      the search is recorded, and the filtered set holds the accepted items
      of the previous filtered set when the search string extends the last
      one, of the whole data set when not.  The case flag of the last search
      is not kept, so a case-insensitive search that extends a
      case-sensitive one filters a set that may already lack matches (see
      AsWrittenFilterExactly and AsWrittenContinuationLosesMatches).
    */
    method ShouldReloadTableForSearchString(searchString: string, isCaseSensitive: bool) returns (r: bool)
      requires filteredIsDataSet ==> dataSet == Some(filteredDataSet)
      modifies this`filteredDataSet, this`filteredIsDataSet, this`lastSearchString
      ensures Valid()
      ensures dataSet.None? ==>
                !r && filteredDataSet == old(filteredDataSet) && filteredIsDataSet == old(filteredIsDataSet) &&
                lastSearchString == old(lastSearchString)
      ensures dataSet.Some? && (filterFunction.None? || searchString == "") ==>
                lastSearchString.None? && filteredDataSet == dataSet.value && filteredIsDataSet && r == !old(filteredIsDataSet)
      ensures dataSet.Some? && filterFunction.Some? && searchString != "" ==>
                r && lastSearchString == Some(searchString) && !filteredIsDataSet &&
                filteredDataSet ==
                  Accepted(SearchedItemsAsWritten(searchString, old(lastSearchString), old(filteredDataSet), dataSet.value),
                           filterFunction.value, PatternFor(searchString, isCaseSensitive))
    {
      if dataSet.None? {
        return false;
      }
      var items := dataSet.value;
      if filterFunction.None? || searchString == "" {
        lastSearchString := None;
        if !filteredIsDataSet {
          filteredDataSet, filteredIsDataSet := items, true;
          return true;
        }
        return false;
      }
      var f := filterFunction.value;
      var p := PatternFor(searchString, isCaseSensitive);
      var source := SearchedItemsAsWritten(searchString, lastSearchString, filteredDataSet, items);
      var filtered := Filter(source, f, p);
      RecordSearch(filtered, searchString);
      r := true;
    }

    /** The search fields once a search has filtered the data set. */
    method RecordSearch(filtered: seq<Item>, searchString: string)
      modifies this`filteredDataSet, this`filteredIsDataSet, this`lastSearchString
      ensures filteredDataSet == filtered && !filteredIsDataSet
      ensures lastSearchString == Some(searchString)
    {
      filteredDataSet, filteredIsDataSet := filtered, false;
      lastSearchString := Some(searchString);
    }

    /**
      setDataSet: the new data set, searched with the empty string, so that
      no search is in force and the filtered set is the data set itself; a
      table view bound to this data source is then reloaded.
    */
    method SetDataSet(ds: Option<seq<Item>>)
      requires Valid() && (tableView != null ==> tableView.ReadyToReload())
      modifies this`dataSet, this`filteredDataSet, this`filteredIsDataSet, this`lastSearchString
      modifies if tableView != null then tableView.ReloadFootprint() else {}
      ensures Valid() && dataSet == ds
      ensures ds.Some? ==> filteredDataSet == ds.value && filteredIsDataSet && lastSearchString.None?
      ensures ds.None? ==>
                !filteredIsDataSet && filteredDataSet == old(filteredDataSet) && lastSearchString == old(lastSearchString)
      ensures tableView != null ==> tableView.ReadyToReload()
      ensures tableView != null && tableView.dataSource == this && !tableView.drawing ==>
                tableView.CellsShowRows(filteredDataSet)
    {
      dataSet, filteredIsDataSet := ds, false;
      var reload := ShouldReloadTableForSearchString("", false);
      ReloadTableView();
    }

    /**
      `if (tableView) tableView.reloadData()`: a bound table view redraws,
      showing the filtered set when it is bound to this data source.
    */
    method ReloadTableView()
      requires tableView != null ==> tableView.ReadyToReload()
      modifies if tableView != null then tableView.ReloadFootprint() else {}
      ensures tableView != null ==> tableView.ReadyToReload()
      ensures tableView != null && tableView.dataSource == this && !tableView.drawing ==>
                tableView.CellsShowRows(filteredDataSet)
      ensures dataSet.Some? ==> forall it :: it in dataSet.value ==> it.fields == old(it.fields)
    {
      if tableView != null {
        tableView.ReloadData();
      }
    }

    /**
      getValuesArray: one name/value entry per item of the data set whose
      value field is defined, in data-set order (see ValuesArray).  Without a
      data set, getNumberOfItems reads `length` of null and throws (None).
    */
    method GetValuesArray(keyFieldName: string, valueFieldName: string) returns (r: Option<seq<NameValue>>)
      ensures r.None? <==> dataSet.None?
      ensures dataSet.Some? ==>
                r == Some(ValuesArray(FieldsOf(dataSet.value), OrDefault(keyFieldName, "name"), OrDefault(valueFieldName, "value")))
    {
      if dataSet.None? {
        r := None;
      } else {
        var keyField, valueField := OrDefault(keyFieldName, "name"), OrDefault(valueFieldName, "value");
        var items := dataSet.value;
        var valuesArray := [];
        var i := 0;
        while i < |items|
          invariant 0 <= i <= |items|
          invariant valuesArray == ValuesArray(FieldsOf(items[..i]), keyField, valueField)
        {
          var f := items[i].fields;
          assert items[..i + 1][..i] == items[..i];
          assert FieldsOf(items[..i + 1])[..i] == FieldsOf(items[..i]);
          if valueField in f {
            valuesArray := valuesArray + [NameValue(if TruthyField(f, keyField) then f[keyField] else Str(keyField), f[valueField])];
          }
          i := i + 1;
        }
        assert items[..i] == items;
        r := Some(valuesArray);
      }
    }

    /**
      getValuesObject: the values array grouped by name, or None when the
      code throws: without a data set (see GetValuesArray), or because a
      repeated name's first value is null (see ValuesObjectAsWritten and
      ValuesObjectAsWrittenThrowsOnNull).
    */
    method GetValuesObject(keyFieldName: string, valueFieldName: string) returns (o: Option<map<string, Value>>)
      ensures dataSet.None? ==> o.None?
      ensures dataSet.Some? ==>
                o == ValuesObjectAsWritten(ValuesArray(FieldsOf(dataSet.value), OrDefault(keyFieldName, "name"), OrDefault(valueFieldName, "value")))
    {
      var valuesArray := GetValuesArray(keyFieldName, valueFieldName);
      if valuesArray.None? {
        o := None;
      } else {
        o := GroupValues(valuesArray.value);
      }
    }

    /** The loop of getValuesObject over a values array. */
    method GroupValues(arr: seq<NameValue>) returns (o: Option<map<string, Value>>)
      ensures o == ValuesObjectAsWritten(arr)
    {
      var valuesObject: map<string, Value> := map[];
      var i := 0;
      while i < |arr|
        invariant 0 <= i <= |arr|
        invariant ValuesObjectAsWritten(arr[..i]) == Some(valuesObject)
      {
        ValuesObjectAsWrittenExtend(arr, i, valuesObject);
        var name := KeyOf(arr[i].name);
        if name in valuesObject {
          if valuesObject[name].Null? {
            ValuesObjectAsWrittenThrowPersists(arr, i + 1);
            return None;
          }
          valuesObject := valuesObject[name := Combine(valuesObject[name], arr[i].value)];
        } else {
          valuesObject := valuesObject[name := arr[i].value];
        }
        i := i + 1;
      }
      assert arr[..i] == arr;
      o := Some(valuesObject);
    }

    /**
      setValuesFromObject: each key of the object, in enumeration order, is
      written to the value field of the first item named by it (see
      WriteAll); a bound table view is then reloaded.  No object changes
      nothing; an object without a data set throws in getNumberOfItems
      before any write (thrown).
    */
    method SetValuesFromObject(values: Option<seq<(string, Value)>>, keyFieldName: string, valueFieldName: string)
      returns (thrown: bool)
      requires values.Some? ==> DistinctKeys(values.value)
      requires values.Some? && tableView != null ==> tableView.ReadyToReload()
      modifies if dataSet.Some? then set it | it in dataSet.value else {}
      modifies if tableView != null then tableView.ReloadFootprint() else {}
      ensures thrown <==> values.Some? && dataSet.None?
      ensures values.None? && dataSet.Some? ==> forall it :: it in dataSet.value ==> it.fields == old(it.fields)
      ensures values.Some? && dataSet.Some? ==>
                forall it :: it in dataSet.value ==>
                  it.fields == WriteAll(dataSet.value, old(Snapshot(dataSet.value)), OrDefault(keyFieldName, "name"),
                                        OrDefault(valueFieldName, "value"), values.value)[it]
      ensures values.Some? && tableView != null ==> tableView.ReadyToReload()
      ensures values.Some? && dataSet.Some? && tableView != null && tableView.dataSource == this && !tableView.drawing ==>
                tableView.CellsShowRows(filteredDataSet)
    {
      if values.None? {
        thrown := false;
      } else if dataSet.None? {
        thrown := true;
      } else {
        thrown := false;
        WriteValues(values.value, OrDefault(keyFieldName, "name"), OrDefault(valueFieldName, "value"));
        ReloadTableView();
      }
    }

    /** The writes of setValuesFromObject, key by key. */
    method WriteValues(pairs: seq<(string, Value)>, keyField: string, valueField: string)
      requires dataSet.Some? && DistinctKeys(pairs)
      modifies set it | it in dataSet.value
      ensures forall it :: it in dataSet.value ==>
                it.fields == WriteAll(dataSet.value, old(Snapshot(dataSet.value)), keyField, valueField, pairs)[it]
    {
      var items := dataSet.value;
      ghost var st := Snapshot(items);
      var j := 0;
      while j < |pairs|
        invariant 0 <= j <= |pairs|
        invariant forall it :: it in items ==> it.fields == WriteAll(items, st, keyField, valueField, pairs[..j])[it]
      {
        ghost var mid := WriteAll(items, st, keyField, valueField, pairs[..j]);
        var key := pairs[j].0;
        var i := IndexOfNamed(items, mid, keyField, key);
        ghost var next := WriteAll(items, st, keyField, valueField, pairs[..j + 1]);
        if i < |items| {
          var target := items[i];
          assert next == mid[target := mid[target][valueField := pairs[j].1]] by {
            WriteAllExtend(items, st, keyField, valueField, pairs, j);
          }
          target.fields := target.fields[valueField := pairs[j].1];
        } else {
          assert next == mid by {
            WriteAllExtend(items, st, keyField, valueField, pairs, j);
          }
        }
        j := j + 1;
      }
      assert pairs[..j] == pairs;
    }

    /** The search of setValuesFromObject: the position of the first item named key, or |items| when none is. */
    method IndexOfNamed(items: seq<Item>, ghost st: map<Item, Fields>, keyField: string, key: string) returns (i: nat)
      requires forall it :: it in items ==> it in st && it.fields == st[it]
      ensures FirstNamed(items, st, keyField, key) == if i < |items| then Some(i) else None
    {
      i := 0;
      while i < |items| && !Named(items[i].fields, keyField, key)
        invariant i <= |items|
        invariant forall k :: 0 <= k < i ==> !Named(st[items[k]], keyField, key)
      {
        i := i + 1;
      }
    }

    /**
      clearValues: every item's value field is reset to its default (see
      ClearFields), once per item even when the item occurs twice; a bound
      table view is then reloaded.  Without a data set getNumberOfItems
      throws before any reset (thrown).
    */
    method ClearValues(valueFieldName: string, defaultValueFieldName: string) returns (thrown: bool)
      requires tableView != null ==> tableView.ReadyToReload()
      modifies if dataSet.Some? then set it | it in dataSet.value else {}
      modifies if tableView != null then tableView.ReloadFootprint() else {}
      ensures thrown <==> dataSet.None?
      ensures dataSet.Some? ==>
                forall it :: it in dataSet.value ==>
                  it.fields == ClearFields(old(it.fields), OrDefault(valueFieldName, "value"), OrDefault(defaultValueFieldName, "defaultValue"))
      ensures tableView != null ==> tableView.ReadyToReload()
      ensures dataSet.Some? && tableView != null && tableView.dataSource == this && !tableView.drawing ==>
                tableView.CellsShowRows(filteredDataSet)
    {
      thrown := dataSet.None?;
      if !thrown {
        ClearItemValues(OrDefault(valueFieldName, "value"), OrDefault(defaultValueFieldName, "defaultValue"));
        ReloadTableView();
      }
    }

    /** The resets of clearValues, item by item. */
    method ClearItemValues(valueField: string, defaultField: string)
      requires dataSet.Some?
      modifies set it | it in dataSet.value
      ensures forall it :: it in dataSet.value ==> it.fields == ClearFields(old(it.fields), valueField, defaultField)
    {
      var items := dataSet.value;
      var i := 0;
      while i < |items|
        invariant 0 <= i <= |items|
        invariant forall it :: it in items ==>
                    it.fields == if it in items[..i] then ClearFields(old(it.fields), valueField, defaultField) else old(it.fields)
      {
        var item := items[i];
        if item in items[..i] {
          ClearFieldsIdempotent(old(item.fields), valueField, defaultField);
        }
        var defaultValue := if TruthyField(item.fields, defaultField) then item.fields[defaultField] else Null;
        if valueField in item.fields || Truthy(defaultValue) {
          item.fields := item.fields[valueField := defaultValue];
        }
        assert items[..i + 1] == items[..i] + [item];
        i := i + 1;
      }
      assert items[..i] == items;
    }

    /** rowHasChildDataSourceAtIndex: the row's item holds an array under the child data source key. */
    function RowHasChildDataSourceAtIndex(index: int): bool
      reads this, if 0 <= index < |filteredDataSet| then {filteredDataSet[index]} else {}
    {
      childDataSourceKey != "" && 0 <= index < |filteredDataSet| &&
      childDataSourceKey in filteredDataSet[index].fields && filteredDataSet[index].fields[childDataSourceKey].Arr?
    }

    /**
      getChildDataSourceForRowAtIndex: for a row whose item holds an array
      of objects under the child data source key, a new data source over
      those objects that inherits the key, the filter function, the
      selection rule and the default reuse identifier; null otherwise, so
      that exactly the rows rowHasChildDataSourceAtIndex reports get one.
    */
    method GetChildDataSourceForRowAtIndex(index: int) returns (child: TableViewDataSource?)
      requires childDataSourceKey != "" ==> 0 <= index < |filteredDataSet|
      requires childDataSourceKey != "" && TruthyField(filteredDataSet[index].fields, childDataSourceKey) ==>
                 filteredDataSet[index].fields[childDataSourceKey].Arr? &&
                 ObjectItems(filteredDataSet[index].fields[childDataSourceKey].elems).Some?
      ensures child != null <==> RowHasChildDataSourceAtIndex(index)
      ensures child != null ==>
                fresh(child) && child.Valid() && child.tableView == null &&
                child.dataSet == ObjectItems(filteredDataSet[index].fields[childDataSourceKey].elems) &&
                child.filteredDataSet == child.dataSet.value && child.lastSearchString.None? &&
                child.childDataSourceKey == childDataSourceKey && child.filterFunction == filterFunction &&
                child.shouldSelectRowAtIndex == shouldSelectRowAtIndex &&
                child.defaultReuseIdentifier == OrDefault(defaultReuseIdentifier, DefaultReuseIdentifier)
    {
      if childDataSourceKey == "" {
        return null;
      }
      var item := filteredDataSet[index];
      if !TruthyField(item.fields, childDataSourceKey) {
        return null;
      }
      var items := ObjectItems(item.fields[childDataSourceKey].elems).value;
      child := new TableViewDataSource(Some(items), defaultReuseIdentifier);
      child.childDataSourceKey := childDataSourceKey;
      child.shouldSelectRowAtIndex := shouldSelectRowAtIndex;
      child.filterFunction := filterFunction;
    }

    /** `item.reuseIdentifier || this.getDefaultReuseIdentifier()` */
    function ReuseIdentifierOf(f: Fields): string
      reads this
    {
      ItemString(f, "reuseIdentifier", defaultReuseIdentifier)
    }

    /** `item.accessoryType || this.getDefaultAccessoryType()` */
    function AccessoryTypeOf(f: Fields): string
      reads this
    {
      ItemString(f, "accessoryType", defaultAccessoryType)
    }

    /** `item.editingAccessoryType || this.getDefaultEditingAccessoryType()` */
    function EditingAccessoryTypeOf(f: Fields): string
      reads this
    {
      ItemString(f, "editingAccessoryType", defaultEditingAccessoryType)
    }

    /**
      getCellForRowAtIndex: a cell dequeued under the item's reuse identifier
      (or the default one), given the row index, the item's accessory types
      (or the defaults) and the item itself.  The cell is the last one pooled
      under that identifier, or a new one when the pool has none; an item
      without a truthy value leaves the cell's value as it was (prepareForReuse
      does not reset it), so a reused cell shows the value of its previous row.
    */
    method GetCellForRowAtIndex(tableView: TableView, index: int) returns (cell: TableViewCell)
      requires 0 <= index < |filteredDataSet|
      requires tableView.PoolValid() && tableView.dataSource != null
      modifies tableView.renderedCells, tableView.reusableCells, tableView`cells, tableView.cells
      ensures tableView.PoolValid() && tableView.cells == old(tableView.cells) + {cell}
      ensures tableView.renderedCells.elements == old(tableView.renderedCells.elements) + [cell] && cell !in old(tableView.renderedCells.elements)
      ensures cell in old(tableView.cells) || fresh(cell)
      ensures forall c :: c in old(tableView.cells) && c != cell ==> unchanged(c)
      ensures var item := old(filteredDataSet[index]);
              var f := old(item.fields);
              cell.tableView == tableView && cell.index == index && cell.data == Some(item) && !cell.selected &&
              (old(ReuseIdentifierOf(f)) != "" ==> cell.reuseIdentifier == old(ReuseIdentifierOf(f))) &&
              cell.accessoryType == StoredAccessoryType(old(AccessoryTypeOf(f)), AccessoryTypeNone) &&
              cell.editingAccessoryType == StoredAccessoryType(old(EditingAccessoryTypeOf(f)), EditingAccessoryTypeNone)
      ensures var id := old(ReuseIdentifierOf(filteredDataSet[index].fields));
              var bucket := old(tableView.Bucket(id));
              |bucket| > 0 ==>
                cell == bucket[|bucket| - 1] && cell.reuseIdentifier == id &&
                tableView.reusableCells.buckets == old(tableView.reusableCells.buckets)[id := bucket[..|bucket| - 1]]
      ensures var id := old(ReuseIdentifierOf(filteredDataSet[index].fields));
              |old(tableView.Bucket(id))| == 0 ==>
                fresh(cell) && cell.kind == tableView.registry.PrototypeFor(id).kind &&
                cell.reuseIdentifier == OrDefault(id, tableView.registry.PrototypeFor(id).reuseIdentifier) &&
                tableView.reusableCells.buckets == old(tableView.reusableCells.buckets)[id := []]
      ensures var f := old(filteredDataSet[index].fields);
              var bucket := old(tableView.Bucket(ReuseIdentifierOf(f)));
              cell.value == ValueAfterSetData(f, if |bucket| > 0 then old(bucket[|bucket| - 1].value) else Null)
    {
      var item := filteredDataSet[index];
      cell := DequeueCellForItem(tableView, item);
      cell.Fill(index, AccessoryTypeOf(item.fields), EditingAccessoryTypeOf(item.fields), item);
    }

    /** The dequeuing half of getCellForRowAtIndex, under the item's reuse identifier or the default one. */
    method DequeueCellForItem(tableView: TableView, item: Item) returns (cell: TableViewCell)
      requires tableView.PoolValid() && tableView.dataSource != null
      modifies tableView.renderedCells, tableView.reusableCells, tableView`cells, tableView.cells
      ensures tableView.PoolValid() && tableView.cells == old(tableView.cells) + {cell}
      ensures tableView.renderedCells.elements == old(tableView.renderedCells.elements) + [cell] && cell !in old(tableView.renderedCells.elements)
      ensures cell in old(tableView.cells) || fresh(cell)
      ensures forall c :: c in old(tableView.cells) && c != cell ==> unchanged(c)
      ensures cell.tableView == tableView && cell.Pooled()
      ensures ReuseIdentifierOf(item.fields) != "" ==> cell.reuseIdentifier == ReuseIdentifierOf(item.fields)
      ensures var id := ReuseIdentifierOf(item.fields);
              var bucket := old(tableView.Bucket(id));
              |bucket| > 0 ==>
                cell == bucket[|bucket| - 1] && cell.reuseIdentifier == id &&
                tableView.reusableCells.buckets == old(tableView.reusableCells.buckets)[id := bucket[..|bucket| - 1]]
      ensures var id := ReuseIdentifierOf(item.fields);
              |old(tableView.Bucket(id))| == 0 ==>
                fresh(cell) && cell.kind == tableView.registry.PrototypeFor(id).kind &&
                cell.reuseIdentifier == OrDefault(id, tableView.registry.PrototypeFor(id).reuseIdentifier) &&
                tableView.reusableCells.buckets == old(tableView.reusableCells.buckets)[id := []]
      ensures var bucket := old(tableView.Bucket(ReuseIdentifierOf(item.fields)));
              cell.value == if |bucket| > 0 then old(bucket[|bucket| - 1].value) else Null
    {
      cell := tableView.DequeueReusableCellWithIdentifier(ReuseIdentifierOf(item.fields));
    }

    /**
      setValueForKeyOnItem: a change of a property is written and reported;
      no item, no key or the same value changes nothing.  Without a table
      view the property is still written, and reading `$trigger` of null
      then throws (thrown).
    */
    method SetValueForKeyOnItem(item: Item?, key: string, value: Value) returns (thrown: bool)
      modifies item, tableView
      ensures thrown <==> item != null && key != "" && !(key in old(item.fields) && old(item.fields[key]) == value) && tableView == null
      ensures item == null || key == "" || (key in old(item.fields) && old(item.fields[key]) == value) ==>
                (item != null ==> item.fields == old(item.fields)) &&
                (tableView != null ==> tableView.events == old(tableView.events))
      ensures item != null && key != "" ==> item.fields == old(item.fields)[key := value]
      ensures item != null && key != "" && !(key in old(item.fields) && old(item.fields[key]) == value) && tableView != null ==>
                tableView.events == old(tableView.events) +
                  [DidChangeValueForItemInDataSource(item, key, value, if key in old(item.fields) then Some(old(item.fields[key])) else None)]
      ensures tableView != null ==> tableView.OnlyEventsChanged()
    {
      thrown := false;
      if item == null || key == "" {
        return;
      }
      var previous := if key in item.fields then Some(item.fields[key]) else None;
      if previous == Some(value) {
        assert item.fields[key := value] == item.fields;
        return;
      }
      item.fields := item.fields[key := value];
      if tableView == null {
        return true;
      }
      tableView.events := tableView.events + [DidChangeValueForItemInDataSource(item, key, value, previous)];
    }
  }
}
