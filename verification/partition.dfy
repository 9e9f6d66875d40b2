/** The range partitioner of splitPDF: the loop that walks the pages
    1..totalPages in steps of pagesPerSplit, and the facts that make its
    windows an exact partition of the document. */
module Partition {

  /** One output part: the inclusive page window [first, last] and the
      1-based part number the loop gives it. */
  datatype Window = Window(first: nat, last: nat, part: nat)

  function Min(a: int, b: int): int {
    if a <= b then a else b
  }

  predicate Contains(w: Window, page: int) {
    w.first <= page <= w.last
  }

  /** The windows the loop emits once `startPage` has reached `start` and
      `partNumber` has reached `part`: one window per iteration, clipped at
      `total`, until the start passes `total`. */
  function WindowsFrom(start: nat, part: nat, total: int, size: nat): seq<Window>
    requires size >= 1
    decreases total - start
  {
    if start > total then []
    else [Window(start, Min(start + size - 1, total), part)] + WindowsFrom(start + size, part + 1, total, size)
  }

  /** All windows of a document of `total` pages split every `size` pages. */
  function Windows(total: int, size: nat): seq<Window>
    requires size >= 1
  {
    WindowsFrom(1, 1, total, size)
  }

  /** The number of windows: total / size rounded up, and none for an empty
      document. The ensures pin it down as the ceiling. */
  function WindowCount(total: int, size: nat): (n: nat)
    requires size >= 1
    ensures total <= 0 ==> n == 0
    ensures n * size >= total
    ensures total > 0 ==> (n - 1) * size < total
  {
    if total <= 0 then 0
    else
      var q := (total + size - 1) / size;
      var r := (total + size - 1) % size;
      assert total + size - 1 == q * size + r;
      assert (q - 1) * size == q * size - size;
      q
  }

  lemma MulMonotone(a: nat, b: nat, size: nat)
    requires a <= b
    ensures a * size <= b * size
  {
    assert b * size == a * size + (b - a) * size;
  }

  /** The i-th window written without the loop: pages i*size+1 up to
      (i+1)*size, the last one clipped at `total`. */
  function WindowAt(i: nat, total: int, size: nat): (w: Window)
    requires size >= 1 && i < WindowCount(total, size)
  {
    MulMonotone(i, WindowCount(total, size) - 1, size);
    Window(i * size + 1, Min(i * size + size, total), i + 1)
  }

  lemma {:induction false} WindowsFromClosedForm(j: nat, total: int, size: nat)
    requires size >= 1 && j <= WindowCount(total, size)
    ensures var ws := WindowsFrom(j * size + 1, j + 1, total, size);
      && |ws| == WindowCount(total, size) - j
      && forall i :: 0 <= i < |ws| ==> ws[i] == WindowAt(j + i, total, size)
    decreases WindowCount(total, size) - j
  {
    var n := WindowCount(total, size);
    var ws := WindowsFrom(j * size + 1, j + 1, total, size);
    if j == n {
      MulMonotone(n, j, size);
      assert ws == [];
    } else {
      MulMonotone(j, n - 1, size);
      assert (j + 1) * size + 1 == j * size + 1 + size;
      WindowsFromClosedForm(j + 1, total, size);
      var rest := WindowsFrom((j + 1) * size + 1, j + 2, total, size);
      assert ws == [Window(j * size + 1, Min(j * size + size, total), j + 1)] + rest;
      forall i | 0 <= i < |ws|
        ensures ws[i] == WindowAt(j + i, total, size)
      {
        if i > 0 {
          assert ws[i] == rest[i - 1];
        }
      }
    }
  }

  /** The loop and the closed form agree: there are WindowCount windows and
      window i is WindowAt(i). */
  lemma {:induction false} WindowsClosedForm(total: int, size: nat)
    requires size >= 1
    ensures |Windows(total, size)| == WindowCount(total, size)
    ensures forall i :: 0 <= i < |Windows(total, size)| ==> Windows(total, size)[i] == WindowAt(i, total, size)
  {
    assert 0 * size + 1 == 1;
    WindowsFromClosedForm(0, total, size);
  }

  /** The windows tile [1, total]: the first starts at page 1, each next one
      starts right after the previous one ends, and the last ends at `total`. */
  lemma {:induction false} WindowsContiguous(total: int, size: nat)
    requires size >= 1
    ensures var ws := Windows(total, size);
      && (|ws| > 0 ==> ws[0].first == 1 && ws[|ws| - 1].last == total)
      && forall i :: 0 <= i < |ws| - 1 ==> ws[i + 1].first == ws[i].last + 1
  {
    var ws := Windows(total, size);
    var n := WindowCount(total, size);
    WindowsClosedForm(total, size);
    if n > 0 {
      assert ws[0] == WindowAt(0, total, size);
      assert ws[n - 1] == WindowAt(n - 1, total, size);
      assert (n - 1) * size + size == n * size;
    }
    forall i | 0 <= i < |ws| - 1
      ensures ws[i + 1].first == ws[i].last + 1
    {
      assert ws[i] == WindowAt(i, total, size);
      assert ws[i + 1] == WindowAt(i + 1, total, size);
      MulMonotone(i + 1, n - 1, size);
      assert (i + 1) * size == i * size + size;
    }
  }

  /** Every window lies inside [1, total], is non-empty, holds at most `size`
      pages, holds exactly `size` pages unless it is the last one, and carries
      part number i + 1. */
  lemma {:induction false} WindowsBounded(total: int, size: nat)
    requires size >= 1
    ensures var ws := Windows(total, size);
      forall i :: 0 <= i < |ws| ==>
        && 1 <= ws[i].first <= ws[i].last <= total
        && ws[i].last - ws[i].first + 1 <= size
        && (i < |ws| - 1 ==> ws[i].last - ws[i].first + 1 == size)
        && ws[i].part == i + 1
  {
    var ws := Windows(total, size);
    var n := WindowCount(total, size);
    WindowsClosedForm(total, size);
    forall i | 0 <= i < |ws|
      ensures 1 <= ws[i].first <= ws[i].last <= total
      ensures ws[i].last - ws[i].first + 1 <= size
      ensures i < |ws| - 1 ==> ws[i].last - ws[i].first + 1 == size
      ensures ws[i].part == i + 1
    {
      assert ws[i] == WindowAt(i, total, size);
      MulMonotone(i, n - 1, size);
      if i < n - 1 {
        MulMonotone(i + 1, n - 1, size);
        assert (i + 1) * size == i * size + size;
      }
    }
  }

  /** There are exactly ceil(total / size) windows; in particular an empty
      document gives none, and a document that fits in one window gives one. */
  lemma {:induction false} WindowsCount(total: int, size: nat)
    requires size >= 1
    ensures |Windows(total, size)| == WindowCount(total, size)
    ensures total <= 0 ==> Windows(total, size) == []
    ensures 0 < total <= size ==> Windows(total, size) == [Window(1, total, 1)]
  {
    WindowsClosedForm(total, size);
    if 0 < total <= size {
      var n := WindowCount(total, size);
      if n >= 2 {
        MulMonotone(1, n - 1, size);
      }
      assert Windows(total, size)[0] == WindowAt(0, total, size);
    }
  }

  /** Each window is strictly after the previous ones: window i ends before
      window j starts whenever i < j. */
  lemma {:induction false} WindowsAscending(total: int, size: nat)
    requires size >= 1
    ensures var ws := Windows(total, size);
      forall i, j :: 0 <= i < j < |ws| ==> ws[i].last < ws[j].first
  {
    var ws := Windows(total, size);
    WindowsClosedForm(total, size);
    forall i, j | 0 <= i < j < |ws|
      ensures ws[i].last < ws[j].first
    {
      assert ws[i] == WindowAt(i, total, size);
      assert ws[j] == WindowAt(j, total, size);
      MulMonotone(i + 1, j, size);
      assert (i + 1) * size == i * size + size;
    }
  }

  /** Some window of `ws` holds `page`. */
  predicate Covered(ws: seq<Window>, page: int) {
    exists i :: 0 <= i < |ws| && Contains(ws[i], page)
  }

  lemma DivBounds(x: nat, size: nat)
    requires size >= 1
    ensures (x / size) * size <= x < (x / size) * size + size
  {
    assert x == (x / size) * size + x % size;
  }

  /** Page `page` lies in window number (page - 1) / size. */
  lemma {:induction false} PageWindow(total: int, size: nat, page: int)
    requires size >= 1 && 1 <= page <= total
    ensures var i := (page - 1) / size;
      i < |Windows(total, size)| && Contains(Windows(total, size)[i], page)
  {
    var n := WindowCount(total, size);
    var i := (page - 1) / size;
    DivBounds(page - 1, size);
    if i >= n {
      MulMonotone(n, i, size);
      assert false;
    }
    var w := WindowAt(i, total, size);
    assert w.first <= page <= w.last;
    WindowsClosedForm(total, size);
    assert Windows(total, size)[i] == w;
  }

  /** The windows cover [1, total] exactly: a page lies in some window iff
      it is a page of the document. */
  lemma {:induction false} WindowsCover(total: int, size: nat)
    requires size >= 1
    ensures forall page :: Covered(Windows(total, size), page) <==> 1 <= page <= total
  {
    WindowsBounded(total, size);
    forall page | 1 <= page <= total
      ensures Covered(Windows(total, size), page)
    {
      PageWindow(total, size, page);
    }
  }

  /** No page lies in two windows. */
  lemma {:induction false} WindowsDisjoint(total: int, size: nat)
    requires size >= 1
    ensures var ws := Windows(total, size);
      forall i, j, page :: 0 <= i < |ws| && 0 <= j < |ws| && Contains(ws[i], page) && Contains(ws[j], page) ==> i == j
  {
    WindowsAscending(total, size);
  }
}
