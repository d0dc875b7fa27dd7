/**
  Window arithmetic of the virtualised table view.

  Row i of the filtered data set occupies the vertical band
  [i * rowHeight, (i + 1) * rowHeight) of the scroll view's content. From the
  scroll position, the viewport height, the row height and the number of rows
  these functions decide which rows are visible, which rows must exist as live
  cells (the visible rows plus one viewport of buffer on each side), how much
  blank margin stands in for the rows that are not rendered, and at which
  scroll positions the next redraw has to happen.

  Positions and heights are integers; `/` on non-negative operands is the
  floor of JavaScript's `Math.floor(a / b)`, and `Math.ceil(a / b)` is
  written out as `CeilDiv`.
*/
module Window {
  import opened Seqs

  function Min(a: int, b: int): int { if a <= b then a else b }

  function Max(a: int, b: int): int { if a >= b then a else b }

  /** The geometry every window computation assumes. */
  predicate Geometry(scroll: int, height: int, rowHeight: int)
  {
    scroll >= 0 && height > 0 && rowHeight > 0
  }

  /** `Math.ceil(a / b)` for a non-negative numerator and a positive denominator. */
  function CeilDiv(a: int, b: int): int
    requires a >= 0 && b > 0
  {
    (a + b - 1) / b
  }

  /** CeilDiv is the least multiple count that covers the numerator. */
  lemma CeilDivBounds(a: int, b: int)
    requires a >= 0 && b > 0
    ensures (CeilDiv(a, b) - 1) * b < a <= CeilDiv(a, b) * b
  {
    var q := (a + b - 1) / b;
    assert q * b <= a + b - 1 < q * b + b;
  }

  /** Cancelling a positive factor from a strict inequality. */
  lemma MulLess(x: int, y: int, d: int)
    requires d > 0 && x * d < y * d
    ensures x < y
  {
    assert (y - x) * d > 0;
  }

  /** getMinimumVisibleRowIndex: the row under the top edge, clamped only from above. */
  function MinimumVisibleRowIndex(scroll: int, rowHeight: int, rows: nat): int
    requires scroll >= 0 && rowHeight > 0
  {
    Min(scroll / rowHeight, rows - 1)
  }

  /** getNumberOfVisibleRows: how many rows one viewport can show, at most all of them. */
  function NumberOfVisibleRows(height: int, rowHeight: int, rows: nat): int
    requires height > 0 && rowHeight > 0
  {
    Min(CeilDiv(height, rowHeight), rows)
  }

  /** getMaximumVisibleRowIndex. */
  function MaximumVisibleRowIndex(scroll: int, height: int, rowHeight: int, rows: nat): int
    requires Geometry(scroll, height, rowHeight)
  {
    Min(MinimumVisibleRowIndex(scroll, rowHeight, rows) + NumberOfVisibleRows(height, rowHeight, rows), rows) - 1
  }

  /** Everything the first half of `draw` computes before it touches any cell. */
  datatype Layout = Layout(
    minVisible: int,
    maxVisible: int,
    visibleRows: int,
    leadingRows: int,
    trailingRows: int,
    minRendered: int,
    maxRendered: int,
    marginTop: int,
    marginBottom: int)

  /**
    The rendered window for one scroll position. With at least one row the
    rendered range brackets the visible range inside [0, rows - 1]; with no
    rows the code yields the degenerate window 0 .. -2 and a one-row bottom
    margin, which is what it computes and what is modelled here.
  */
  function ComputeLayout(scroll: int, height: int, rowHeight: int, rows: nat): (w: Layout)
    requires Geometry(scroll, height, rowHeight)
    ensures rows >= 1 ==>
      0 <= w.minRendered <= w.minVisible <= w.maxVisible <= w.maxRendered <= rows - 1
    ensures rows >= 1 ==> 1 <= w.visibleRows <= rows
    ensures rows == 0 ==> w.minRendered == 0 && w.maxRendered == -2 && w.marginTop == 0 && w.marginBottom == rowHeight
    ensures w.marginTop == w.minRendered * rowHeight
    ensures w.marginBottom == (rows - w.maxRendered - 1) * rowHeight
  {
    var minVisible := MinimumVisibleRowIndex(scroll, rowHeight, rows);
    var maxVisible := MaximumVisibleRowIndex(scroll, height, rowHeight, rows);
    var visibleRows := NumberOfVisibleRows(height, rowHeight, rows);
    var leadingRows := Min(visibleRows, minVisible);
    var trailingRows := Min(visibleRows, rows - maxVisible - 1);
    var minRendered := minVisible - leadingRows;
    var maxRendered := maxVisible + trailingRows;
    Layout(minVisible, maxVisible, visibleRows, leadingRows, trailingRows,
           minRendered, maxRendered,
           minRendered * rowHeight, (rows - maxRendered - 1) * rowHeight)
  }

  /** The minimum scroll threshold set at the end of `draw`; -1 disables it. */
  function MinimumThreshold(minRendered: int, scroll: int, height: int): int
  {
    if minRendered > 0 then scroll - height else -1
  }

  /** The maximum scroll threshold set at the end of `draw`; -1 disables it. */
  function MaximumThreshold(maxRendered: int, rows: int, scroll: int, height: int): int
  {
    if maxRendered < rows - 1 then scroll + height else -1
  }

  /** The scroll handler's test: redraw only when not drawing and past an enabled threshold. */
  predicate ShouldRedraw(drawing: bool, minThreshold: int, maxThreshold: int, scroll: int)
  {
    !drawing &&
    ((minThreshold != -1 && scroll < minThreshold) || (maxThreshold != -1 && scroll >= maxThreshold))
  }

  /** Multiplying by a positive factor is monotone. */
  lemma MulMonotone(x: int, y: int, d: int)
    requires d > 0 && x <= y
    ensures x * d <= y * d
  {
    assert (y - x) * d >= 0;
  }

  /** Integer division by a positive divisor is monotone. */
  lemma DivMonotone(a: int, b: int, d: int)
    requires a <= b && d > 0
    ensures a / d <= b / d
  {
    assert (a / d) * d <= a;
    assert b < (b / d + 1) * d;
    MulLess(a / d, b / d + 1, d);
  }

  /** Splitting a numerator: floor((a + c) / d) is at most floor(a / d) + ceil(c / d). */
  lemma DivAddUpper(a: int, c: int, d: int)
    requires a >= 0 && c >= 0 && d > 0
    ensures (a + c) / d <= a / d + CeilDiv(c, d)
  {
    var q, k := a / d, CeilDiv(c, d);
    CeilDivBounds(c, d);
    assert a < (q + 1) * d;
    assert c <= k * d;
    assert ((a + c) / d) * d <= a + c;
    assert a + c < (q + k + 1) * d;
    MulLess((a + c) / d, q + k + 1, d);
  }

  /** Subtracting from a numerator: floor((a - c) / d) is at least floor(a / d) - ceil(c / d). */
  lemma DivSubLower(a: int, c: int, d: int)
    requires a >= 0 && c >= 0 && a - c >= 0 && d > 0
    ensures (a - c) / d >= a / d - CeilDiv(c, d)
  {
    var q, k := a / d, CeilDiv(c, d);
    CeilDivBounds(c, d);
    assert q * d <= a;
    assert c <= k * d;
    assert (q - k) * d <= a - c;
    assert a - c < ((a - c) / d + 1) * d;
    MulLess(q - k, (a - c) / d + 1, d);
  }

  /** The blank margins and the rendered rows together are exactly as tall as all rows (getTotalHeight). */
  lemma MarginsCoverTotalHeight(scroll: int, height: int, rowHeight: int, rows: nat)
    requires Geometry(scroll, height, rowHeight)
    ensures var w := ComputeLayout(scroll, height, rowHeight, rows);
      w.marginTop + (w.maxRendered - w.minRendered + 1) * rowHeight + w.marginBottom == rows * rowHeight
  {
    var w := ComputeLayout(scroll, height, rowHeight, rows);
    calc {
      w.marginTop + (w.maxRendered - w.minRendered + 1) * rowHeight + w.marginBottom;
      w.minRendered * rowHeight + (w.maxRendered - w.minRendered + 1) * rowHeight + (rows - w.maxRendered - 1) * rowHeight;
      { assert w.minRendered + (w.maxRendered - w.minRendered + 1) + (rows - w.maxRendered - 1) == rows; }
      rows * rowHeight;
    }
  }

  /** The rendered range holds at most three viewports of rows: leading buffer, visible rows, trailing buffer. */
  lemma RenderedRangeAtMostThreeViewports(scroll: int, height: int, rowHeight: int, rows: nat)
    requires Geometry(scroll, height, rowHeight)
    ensures var w := ComputeLayout(scroll, height, rowHeight, rows);
      w.maxRendered - w.minRendered + 1 <= 3 * w.visibleRows
  {
  }

  /**
    In closed form the rendered bounds are max(0, minVisible - visibleRows) and
    min(maxVisible + visibleRows, rows - 1).
  */
  lemma RenderedBoundsClosedForm(scroll: int, height: int, rowHeight: int, rows: nat)
    requires Geometry(scroll, height, rowHeight) && rows >= 1
    ensures var w := ComputeLayout(scroll, height, rowHeight, rows);
      w.minRendered == Max(0, w.minVisible - w.visibleRows) &&
      w.maxRendered == Min(w.minVisible + 2 * w.visibleRows - 1, rows - 1)
  {
  }

  /**
    Both rendered bounds are monotone in the scroll position when the number of
    rows, the row height and the viewport height stay the same, so two
    consecutive windows always move the same way.
  */
  lemma RenderedBoundsMonotoneInScroll(s1: int, s2: int, height: int, rowHeight: int, rows: nat)
    requires Geometry(s1, height, rowHeight) && Geometry(s2, height, rowHeight) && s1 <= s2
    ensures var w1, w2 := ComputeLayout(s1, height, rowHeight, rows), ComputeLayout(s2, height, rowHeight, rows);
      w1.minRendered <= w2.minRendered && w1.maxRendered <= w2.maxRendered
  {
    DivMonotone(s1, s2, rowHeight);
  }

  /**
    Two windows of the same geometry are ordered the same way in both bounds:
    a draw never moves one rendered bound up and the other down.
  */
  lemma WindowsMoveTogether(s1: int, s2: int, height: int, rowHeight: int, rows: nat)
    requires Geometry(s1, height, rowHeight) && Geometry(s2, height, rowHeight)
    ensures var w1, w2 := ComputeLayout(s1, height, rowHeight, rows), ComputeLayout(s2, height, rowHeight, rows);
      (w1.minRendered <= w2.minRendered && w1.maxRendered <= w2.maxRendered) ||
      (w2.minRendered <= w1.minRendered && w2.maxRendered <= w1.maxRendered)
  {
    if s1 <= s2 {
      RenderedBoundsMonotoneInScroll(s1, s2, height, rowHeight, rows);
    } else {
      RenderedBoundsMonotoneInScroll(s2, s1, height, rowHeight, rows);
    }
  }

  /**
    What draw's list update needs of a move of the rendered window from
    lastMin .. lastMax, of which rows shown .. lastMax are on screen, to
    minR .. maxR, for a data set of the given number of rows: when the code
    appends higher-indexed rows, the old window starts no later and ends no
    later than the new one (or the new window is empty and lies past the
    old one); when it prepends lower-indexed rows, the old window is shown
    whole and starts and ends no earlier; when neither bound moves, the
    shown rows are the new window.
  */
  predicate WindowStep(lastMin: int, lastMax: int, shown: int, minR: int, maxR: int, rows: int)
  {
    (minR > lastMin || maxR > lastMax ==>
       lastMin <= shown <= lastMax + 1 && shown <= minR && -1 <= lastMax && maxR < rows &&
       (lastMax <= maxR || (lastMax < minR && maxR < minR))) &&
    (minR <= lastMin && maxR <= lastMax && (minR < lastMin || maxR < lastMax) ==>
       shown == lastMin && 0 <= minR && lastMin <= lastMax + 1 && minR <= maxR + 1 && lastMax < rows) &&
    (minR == lastMin && maxR == lastMax ==> shown == minR)
  }

  /** The first draw after a reset moves from the empty window -1 .. -1, of which nothing (rows 0 .. -1) is shown. */
  lemma FirstDrawIsWindowStep(scroll: int, height: int, rowHeight: int, rows: nat)
    requires Geometry(scroll, height, rowHeight)
    ensures var w := ComputeLayout(scroll, height, rowHeight, rows);
      WindowStep(-1, -1, 0, w.minRendered, w.maxRendered, rows)
  {
  }

  /** Two consecutive draws of the same geometry, at any two scroll positions, make a window step. */
  lemma NextDrawIsWindowStep(s1: int, s2: int, height: int, rowHeight: int, rows: nat)
    requires Geometry(s1, height, rowHeight) && Geometry(s2, height, rowHeight)
    ensures var w1, w2 := ComputeLayout(s1, height, rowHeight, rows), ComputeLayout(s2, height, rowHeight, rows);
      WindowStep(w1.minRendered, w1.maxRendered, w1.minRendered, w2.minRendered, w2.maxRendered, rows)
  {
    WindowsMoveTogether(s1, s2, height, rowHeight, rows);
  }

  /** An enabled threshold is never the value -1 that stands for "disabled". */
  lemma EnabledThresholdsAreNotSentinel(scroll: int, height: int, rowHeight: int, rows: nat)
    requires Geometry(scroll, height, rowHeight)
    ensures var w := ComputeLayout(scroll, height, rowHeight, rows);
      (w.minRendered > 0 ==> MinimumThreshold(w.minRendered, scroll, height) > 0) &&
      (w.maxRendered < rows - 1 ==> MaximumThreshold(w.maxRendered, rows, scroll, height) > 0)
  {
    var w := ComputeLayout(scroll, height, rowHeight, rows);
    if w.minRendered > 0 {
      // minRendered > 0 means the top row lies more than one viewport below row 0.
      var k, q := CeilDiv(height, rowHeight), scroll / rowHeight;
      assert q >= k + 1;
      assert scroll > height by {
        assert height <= k * rowHeight by {
          CeilDivBounds(height, rowHeight);
        }
        assert (k + 1) * rowHeight <= scroll by {
          assert q * rowHeight <= scroll;
          MulMonotone(k + 1, q, rowHeight);
        }
        assert (k + 1) * rowHeight == k * rowHeight + rowHeight;
      }
    }
  }

  /** Right after a draw at scroll position s, the scroll handler does not ask for another draw at s. */
  lemma DrawSettlesAtItsScrollPosition(scroll: int, height: int, rowHeight: int, rows: nat)
    requires Geometry(scroll, height, rowHeight)
    ensures var w := ComputeLayout(scroll, height, rowHeight, rows);
      !ShouldRedraw(false, MinimumThreshold(w.minRendered, scroll, height),
                    MaximumThreshold(w.maxRendered, rows, scroll, height), scroll)
  {
  }

  /**
    The buffers suffice: as long as the scroll handler does not trigger a
    redraw, every row visible at the new scroll position t is among the rows
    rendered by the last draw at position s.
  */
  lemma {:induction false} BuffersCoverVisibleRowsUntilRedraw(s: int, t: int, height: int, rowHeight: int, rows: nat)
    requires Geometry(s, height, rowHeight) && Geometry(t, height, rowHeight) && rows >= 1
    requires var w := ComputeLayout(s, height, rowHeight, rows);
      !ShouldRedraw(false, MinimumThreshold(w.minRendered, s, height),
                    MaximumThreshold(w.maxRendered, rows, s, height), t)
    ensures var w, v := ComputeLayout(s, height, rowHeight, rows), ComputeLayout(t, height, rowHeight, rows);
      w.minRendered <= v.minVisible && v.maxVisible <= w.maxRendered
  {
    var w, v := ComputeLayout(s, height, rowHeight, rows), ComputeLayout(t, height, rowHeight, rows);
    var k := CeilDiv(height, rowHeight);
    EnabledThresholdsAreNotSentinel(s, height, rowHeight, rows);
    if w.minRendered > 0 {
      // Not below the minimum threshold: t >= s - height.
      assert t >= s - height;
      assert w.visibleRows == k;
      DivMonotone(s - height, t, rowHeight);
      DivSubLower(s, height, rowHeight);
    }
    if w.maxRendered < rows - 1 {
      // Not at or above the maximum threshold: t < s + height.
      assert t < s + height;
      assert w.visibleRows == k;
      DivMonotone(t, s + height, rowHeight);
      DivAddUpper(s, height, rowHeight);
    }
  }

  /** The worked example, at the top: 1000 rows of 44 pixels in a 440-pixel viewport render rows 0 .. 19. */
  lemma ExampleThousandRowsAtTop()
    ensures var w := ComputeLayout(0, 440, 44, 1000);
      w.visibleRows == 10 && w.minRendered == 0 && w.maxRendered == 19
  {
    assert NumberOfVisibleRows(440, 44, 1000) == 10;
    assert MinimumVisibleRowIndex(0, 44, 1000) == 0;
    assert MaximumVisibleRowIndex(0, 440, 44, 1000) == 9;
  }

  /** The worked example, scrolled to row 100 (position 4400): rows 90 .. 119 are rendered. */
  lemma ExampleThousandRowsAtRowHundred()
    ensures var w := ComputeLayout(4400, 440, 44, 1000);
      w.visibleRows == 10 && w.minRendered == 90 && w.maxRendered == 119
  {
    assert NumberOfVisibleRows(440, 44, 1000) == 10;
    assert MinimumVisibleRowIndex(4400, 44, 1000) == 100;
    assert MaximumVisibleRowIndex(4400, 440, 44, 1000) == 109;
  }

  /** The worked example, scrolled to row 500 (position 22000): rows 490 .. 519 are rendered. */
  lemma ExampleThousandRowsAtRowFiveHundred()
    ensures var w := ComputeLayout(22000, 440, 44, 1000);
      w.visibleRows == 10 && w.minRendered == 490 && w.maxRendered == 519
  {
    assert NumberOfVisibleRows(440, 44, 1000) == 10;
    assert MinimumVisibleRowIndex(22000, 44, 1000) == 500;
    assert MaximumVisibleRowIndex(22000, 440, 44, 1000) == 509;
  }

  // ---------------------------------------------------------------------
  // The rows on screen after draw's list update

  /**
    The rows the list element shows after draw's list update as written,
    when it showed rows shown .. lastMax of the window lastMin .. lastMax
    and the new window is minR .. maxR: either higher-indexed rows are
    appended from lastMax + 1 and rows lastMin .. minR - 1 removed, or
    lower-indexed rows are prepended down from lastMin - 1 and rows
    maxR + 1 .. lastMax removed.  Only one side is ever rendered.
  */
  function ShownAfterUpdateAsWritten(lastMin: int, lastMax: int, shown: int, minR: int, maxR: int): seq<int>
  {
    if minR > lastMin || maxR > lastMax then
      Outside(Range(shown, lastMax) + Range(lastMax + 1, maxR), lastMin, minR - 1)
    else if minR < lastMin || maxR < lastMax then
      Outside(Range(minR, lastMin - 1) + Range(shown, lastMax), maxR + 1, lastMax)
    else
      Range(shown, lastMax)
  }

  /** For a window step, which any two draws of one geometry make, the list update as written shows exactly the new window. */
  lemma WindowStepShowsNewWindow(lastMin: int, lastMax: int, shown: int, minR: int, maxR: int, rows: int)
    requires WindowStep(lastMin, lastMax, shown, minR, maxR, rows)
    ensures ShownAfterUpdateAsWritten(lastMin, lastMax, shown, minR, maxR) == Range(minR, maxR)
  {
    if minR > lastMin || maxR > lastMax {
      ExtendThenTrimFront(shown, lastMax, maxR, lastMin, minR);
    } else if minR < lastMin || maxR < lastMax {
      ExtendThenTrimBack(minR, lastMin, lastMax, maxR);
    }
  }

  /**
    A viewport that grows from 440 to 880 pixels at scroll position 4400
    over 1000 rows of 44 pixels moves the window from 90 .. 119 to
    80 .. 139, both bounds outward; the update as written appends rows
    120 .. 139 and never renders rows 80 .. 89.
  */
  lemma GrowingViewportLeavesRowsUnrendered()
    ensures var w1, w2 := ComputeLayout(4400, 440, 44, 1000), ComputeLayout(4400, 880, 44, 1000);
      w1.minRendered == 90 && w1.maxRendered == 119 && w2.minRendered == 80 && w2.maxRendered == 139
    ensures ShownAfterUpdateAsWritten(90, 119, 90, 80, 139) == Range(90, 139)
    ensures Range(90, 139) != Range(80, 139)
  {
    assert NumberOfVisibleRows(440, 44, 1000) == 10 && NumberOfVisibleRows(880, 44, 1000) == 20;
    assert MinimumVisibleRowIndex(4400, 44, 1000) == 100;
    RangeConcat(90, 119, 139);
    OutsideEmptyInterval(Range(90, 139), 90, 79);
  }

  /** Three ranges that together cover [minR, maxR] around a shown range [shown, lastMax] concatenate to it. */
  lemma {:induction false} AroundShownRange(lastMax: int, shown: int, minR: int, maxR: int)
    requires shown <= lastMax + 1
    ensures Range(minR, Min(shown - 1, maxR)) + Range(Max(shown, minR), Min(lastMax, maxR)) + Range(Max(lastMax + 1, minR), maxR)
         == Range(minR, maxR)
  {
    var lower, middle, higher := Range(minR, Min(shown - 1, maxR)), Range(Max(shown, minR), Min(lastMax, maxR)),
                                 Range(Max(lastMax + 1, minR), maxR);
    if maxR < minR {
      assert lower == [] && middle == [] && higher == [];
    } else if maxR < shown {
      assert middle == [] && higher == [];
    } else if lastMax < minR {
      assert lower == [] && middle == [];
    } else {
      var m := Min(lastMax, maxR);
      if minR < shown {
        RangeConcat(minR, shown - 1, m);
      } else {
        assert lower == [];
      }
      if m < maxR {
        RangeConcat(minR, m, maxR);
      } else {
        assert higher == [];
      }
    }
  }

  /**
    The corrected update: rows below the shown range are prepended down to
    minR and rows above it appended up to maxR, both when the window grows
    on both sides, and every shown row outside the new window is removed.
  */
  function ShownAfterUpdate(lastMax: int, shown: int, minR: int, maxR: int): seq<int>
  {
    var lower := RowsToRenderBelow(shown, minR, maxR);
    var higher := RowsToRenderAbove(lastMax, minR, maxR);
    Outside(Outside(lower + Range(shown, lastMax) + higher, shown, minR - 1), maxR + 1, lastMax)
  }

  /** The corrected update's rows below the shown range [shown, ..]: those of the new window minR .. maxR. */
  function RowsToRenderBelow(shown: int, minR: int, maxR: int): seq<int>
  {
    Range(minR, Min(shown - 1, maxR))
  }

  /** The corrected update's rows above the shown range [.., lastMax]: those of the new window minR .. maxR. */
  function RowsToRenderAbove(lastMax: int, minR: int, maxR: int): seq<int>
  {
    Range(Max(lastMax + 1, minR), maxR)
  }

  /** The rows the corrected update renders, in row order. */
  function RowsToRender(lastMax: int, shown: int, minR: int, maxR: int): seq<int>
  {
    RowsToRenderBelow(shown, minR, maxR) + RowsToRenderAbove(lastMax, minR, maxR)
  }

  /**
    The corrected update renders exactly the rows of the new window that
    were not shown, each once: no row is rendered only to be removed again.
  */
  lemma RowsToRenderAreMissingRows(lastMax: int, shown: int, minR: int, maxR: int)
    requires shown <= lastMax + 1
    ensures forall x :: x in RowsToRender(lastMax, shown, minR, maxR) <==> minR <= x <= maxR && !(shown <= x <= lastMax)
    ensures NoDuplicates(RowsToRender(lastMax, shown, minR, maxR))
  {
    var lower, higher := RowsToRenderBelow(shown, minR, maxR), RowsToRenderAbove(lastMax, minR, maxR);
    forall x ensures x in lower + higher <==> minR <= x <= maxR && !(shown <= x <= lastMax) {
      if minR <= x <= maxR && !(shown <= x <= lastMax) {
        if x < shown {
          assert lower[x - minR] == x;
        } else {
          assert higher[x - Max(lastMax + 1, minR)] == x;
        }
      }
    }
    var r := lower + higher;
    forall i, j | 0 <= i < j < |r| ensures r[i] != r[j] {
      if j >= |lower| && i < |lower| {
        assert r[i] == lower[i] && r[j] == higher[j - |lower|];
      }
    }
  }

  /**
    The rows draw's list update as written renders, in row order, when the
    window moves from lastMin .. lastMax to minR .. maxR: lastMax + 1 ..
    maxR when either bound grows, else minR .. lastMin - 1 when either
    shrinks, else none.
  */
  function RowsRenderedAsWritten(lastMin: int, lastMax: int, minR: int, maxR: int): seq<int>
  {
    if minR > lastMin || maxR > lastMax then Range(lastMax + 1, maxR)
    else if minR < lastMin || maxR < lastMax then Range(minR, lastMin - 1)
    else []
  }

  /** The rows whose rendered cells draw's removal loop as written releases, where there is one. */
  function RowsRemovedAsWritten(lastMin: int, lastMax: int, minR: int, maxR: int): seq<int>
  {
    if minR > lastMin || maxR > lastMax then Range(lastMin, minR - 1)
    else if minR < lastMin || maxR < lastMax then Range(maxR + 1, lastMax)
    else []
  }

  /**
    When the window jumps past its old maximum (lastMax + 1 < minR), the
    update as written renders every row lastMax + 1 .. minR - 1 and then
    releases it again, while the corrected update renders none of them.
  */
  lemma {:induction false} JumpRendersRowsItReleasesAsWritten(lastMin: int, lastMax: int, minR: int, maxR: int)
    requires lastMin <= lastMax + 1 < minR <= maxR + 1
    ensures RowsRenderedAsWritten(lastMin, lastMax, minR, maxR) == Range(lastMax + 1, maxR)
    ensures RowsRemovedAsWritten(lastMin, lastMax, minR, maxR) == Range(lastMin, minR - 1)
    ensures forall x :: lastMax + 1 <= x < minR ==>
              x in RowsRenderedAsWritten(lastMin, lastMax, minR, maxR) && x in RowsRemovedAsWritten(lastMin, lastMax, minR, maxR)
    ensures RowsToRender(lastMax, lastMin, minR, maxR) == Range(minR, maxR)
  {
    forall x | lastMax + 1 <= x < minR
      ensures x in RowsRenderedAsWritten(lastMin, lastMax, minR, maxR) && x in RowsRemovedAsWritten(lastMin, lastMax, minR, maxR)
    {
      assert Range(lastMax + 1, maxR)[x - lastMax - 1] == x && Range(lastMin, minR - 1)[x - lastMin] == x;
    }
    assert RowsToRenderBelow(lastMin, minR, maxR) == [];
  }

  /**
    A jump from scroll position 0 to 22000 over 1000 rows of 44 pixels in a
    440-pixel viewport moves the window from 0 .. 19 to 490 .. 519 (see
    ExampleThousandRowsAtTop and ExampleThousandRowsAtRowFiveHundred).  The
    update as written renders rows 20 .. 519 and then removes rows 0 .. 489,
    so rows 20 .. 489 are rendered only to be released; the corrected update
    renders rows 490 .. 519 only.
  */
  lemma JumpRendersRowsItReleases()
    ensures |RowsRenderedAsWritten(0, 19, 490, 519)| == 500 && |RowsRemovedAsWritten(0, 19, 490, 519)| == 490
    ensures RowsRenderedAsWritten(0, 19, 490, 519)[0] == 20 && RowsRemovedAsWritten(0, 19, 490, 519)[489] == 489
    ensures RowsToRender(19, 0, 490, 519) == Range(490, 519)
  {
    JumpRendersRowsItReleasesAsWritten(0, 19, 490, 519);
  }

  /**
    The first draw after a reset (window -1 .. -1) at scroll position 4400
    over 1000 rows of 44 pixels in a 440-pixel viewport draws the window
    90 .. 119 (see ExampleThousandRowsAtRowHundred): the update as written renders rows 0 .. 119 and then removes
    rows -1 .. 89, so rows 0 .. 89 are rendered only to be released; the
    corrected update renders rows 90 .. 119 only.
  */
  lemma FirstDrawAfterResetRendersRowsItReleases()
    ensures |RowsRenderedAsWritten(-1, -1, 90, 119)| == 120 && |RowsRemovedAsWritten(-1, -1, 90, 119)| == 91
    ensures RowsRenderedAsWritten(-1, -1, 90, 119)[0] == 0 && RowsRemovedAsWritten(-1, -1, 90, 119)[90] == 89
    ensures RowsToRender(-1, -1, 90, 119) == Range(90, 119)
  {
    JumpRendersRowsItReleasesAsWritten(-1, -1, 90, 119);
  }

  /** The corrected update shows exactly the new window, for every move of the window. */
  lemma ShownAfterUpdateIsNewWindow(lastMax: int, shown: int, minR: int, maxR: int)
    requires shown <= lastMax + 1
    ensures ShownAfterUpdate(lastMax, shown, minR, maxR) == Range(minR, maxR)
  {
    var lower, mid, higher := Range(minR, Min(shown - 1, maxR)), Range(shown, lastMax), Range(Max(lastMax + 1, minR), maxR);
    var kept := Range(Max(shown, minR), lastMax);
    assert Outside(lower + mid + higher, shown, minR - 1) == lower + kept + higher by {
      OutsideConcat(lower + mid, higher, shown, minR - 1);
      OutsideConcat(lower, mid, shown, minR - 1);
      OutsideRange(minR, Min(shown - 1, maxR), shown, minR - 1);
      OutsideRange(Max(lastMax + 1, minR), maxR, shown, minR - 1);
      OutsideRangePrefix(shown, lastMax, shown, minR - 1);
    }
    assert Outside(lower + kept + higher, maxR + 1, lastMax) == lower + Range(Max(shown, minR), Min(lastMax, maxR)) + higher by {
      OutsideConcat(lower + kept, higher, maxR + 1, lastMax);
      OutsideConcat(lower, kept, maxR + 1, lastMax);
      OutsideRange(minR, Min(shown - 1, maxR), maxR + 1, lastMax);
      OutsideRange(Max(lastMax + 1, minR), maxR, maxR + 1, lastMax);
      KeptInsideWindow(lastMax, Max(shown, minR), maxR);
    }
    AroundShownRange(lastMax, shown, minR, maxR);
  }

  /** The kept part [lo, lastMax] of the shown range without the rows above maxR. */
  lemma KeptInsideWindow(lastMax: int, lo: int, maxR: int)
    ensures Outside(Range(lo, lastMax), maxR + 1, lastMax) == Range(lo, Min(lastMax, maxR))
  {
    if lo <= maxR + 1 {
      OutsideRangeSuffix(lo, lastMax, maxR + 1, lastMax);
    } else {
      OutsideRange(lo, lastMax, maxR + 1, lastMax);
    }
  }
}
