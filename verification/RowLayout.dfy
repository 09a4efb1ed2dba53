/** Wrapping a text into screen rows: what the rows of a text are, independently of how the
    editor computes them, and where a cursor position lies among them. */
module RowLayout {
  import opened Common

  /** A line ends at LF, and in Unix mode also at CR. */
  predicate EndsLine(text: seq<char>, unix: bool, k: nat) {
    k < |text| && ((unix && text[k] == CR) || text[k] == LF)
  }

  /** A row of k characters from start is complete: a line end, a full row, or the text's terminator. */
  predicate RowDone(text: seq<char>, unix: bool, width: nat, start: nat, k: nat) {
    k > 0 && (EndsLine(text, unix, start + k - 1) || k >= width || start + k - 1 >= |text|)
  }

  /** The length of the row at start, given that it has at least k characters. */
  function RowLength(text: seq<char>, unix: bool, width: nat, start: nat, k: nat): (n: nat)
    ensures k <= n && RowDone(text, unix, width, start, n)
    ensures forall m :: k <= m < n ==> !RowDone(text, unix, width, start, m)
    decreases if start + k <= |text| + 1 then |text| + 2 - (start + k) else if k == 0 then 1 else 0
  {
    if RowDone(text, unix, width, start, k) then k else RowLength(text, unix, width, start, k + 1)
  }

  /** The row lengths of a text with its terminator, from a position on. */
  function Wrap(text: seq<char>, unix: bool, width: nat, start: nat): (rows: seq<int>)
    requires width >= 1
    decreases |text| + 1 - start
  {
    var n := RowLength(text, unix, width, start, 1);
    if start + n > |text| then [n] else [n] + Wrap(text, unix, width, start + n)
  }

  function Sum(rows: seq<int>): int {
    if rows == [] then 0 else rows[0] + Sum(rows[1..])
  }

  lemma {:induction false} SumAppend(a: seq<int>, b: seq<int>)
    ensures Sum(a + b) == Sum(a) + Sum(b)
  {
    if a == [] {
      assert a + b == b;
    } else {
      assert (a + b)[1..] == a[1..] + b;
      SumAppend(a[1..], b);
    }
  }

  lemma SumNext(rows: seq<int>, r: nat)
    requires r < |rows|
    ensures Sum(rows[..r + 1]) == Sum(rows[..r]) + rows[r]
  {
    SumAppend(rows[..r], [rows[r]]);
    assert rows[..r + 1] == rows[..r] + [rows[r]];
  }

  lemma {:induction false} SumMonotone(rows: seq<int>, r: nat, q: nat)
    requires r <= q <= |rows| && forall i :: 0 <= i < |rows| ==> rows[i] >= 0
    ensures Sum(rows[..r]) <= Sum(rows[..q])
    decreases q
  {
    if r < q {
      SumNext(rows, q - 1);
      SumMonotone(rows, r, q - 1);
    }
  }

  lemma SumSnoc(rows: seq<int>, n: int)
    ensures Sum(rows + [n]) == Sum(rows) + n
  {
    SumAppend(rows, [n]);
    assert Sum([n]) == n + Sum([n][1..]) == n;
  }

  lemma SumCons(n: int, rest: seq<int>, r: nat)
    requires r <= |rest|
    ensures ([n] + rest)[..r + 1] == [n] + rest[..r]
    ensures Sum([n] + rest[..r]) == n + Sum(rest[..r])
  {
    assert ([n] + rest[..r])[1..] == rest[..r];
  }

  /** No line ends inside the row, and it stops at a line end, at full width, or at the terminator. */
  ghost predicate RowWellCut(text: seq<char>, unix: bool, width: nat, start: int, n: int) {
    && 0 <= start && 1 <= n <= width && start + n <= |text| + 1
    && (forall k: nat :: start <= k < start + n - 1 ==> !EndsLine(text, unix, k))
    && (EndsLine(text, unix, start + n - 1) || n == width || start + n - 1 == |text|)
  }

  /** Consecutive rows from a position on, each as long as it may be. */
  ghost predicate Cut(text: seq<char>, unix: bool, width: nat, start: int, rows: seq<int>)
    decreases |rows|
  {
    rows == [] || (RowWellCut(text, unix, width, start, rows[0]) && Cut(text, unix, width, start + rows[0], rows[1..]))
  }

  lemma RowLengthWellCut(text: seq<char>, unix: bool, width: nat, start: nat)
    requires width >= 1 && start <= |text|
    ensures RowWellCut(text, unix, width, start, RowLength(text, unix, width, start, 1))
  {
    var n := RowLength(text, unix, width, start, 1);
    if n > 1 {
      assert !RowDone(text, unix, width, start, n - 1);
    }
    forall k: nat | start <= k < start + n - 1 ensures !EndsLine(text, unix, k) {
      assert !RowDone(text, unix, width, start, k + 1 - start);
    }
  }

  lemma SameRow(text: seq<char>, unix: bool, width: nat, start: nat, n: int, m: int)
    requires RowWellCut(text, unix, width, start, n) && RowWellCut(text, unix, width, start, m)
    ensures n == m
  {
  }

  lemma {:induction false} CutSnoc(text: seq<char>, unix: bool, width: nat, start: int, rows: seq<int>, n: int)
    requires Cut(text, unix, width, start, rows) && RowWellCut(text, unix, width, start + Sum(rows), n)
    ensures Cut(text, unix, width, start, rows + [n])
    decreases |rows|
  {
    var more := rows + [n];
    if rows == [] {
      assert more == [n] && more[1..] == [];
    } else {
      CutSnoc(text, unix, width, start + rows[0], rows[1..], n);
      assert more[1..] == rows[1..] + [n];
    }
  }

  /** Every row of a cut is well cut at the place where the rows before it end. */
  lemma {:induction false} CutRow(text: seq<char>, unix: bool, width: nat, start: int, rows: seq<int>, r: nat)
    requires Cut(text, unix, width, start, rows) && r < |rows|
    ensures RowWellCut(text, unix, width, start + Sum(rows[..r]), rows[r])
    decreases |rows|
  {
    if r == 0 {
      assert rows[..0] == [];
    } else {
      CutRow(text, unix, width, start + rows[0], rows[1..], r - 1);
      assert rows[..r][1..] == rows[1..][..r - 1];
    }
  }

  lemma {:induction false} CutSum(text: seq<char>, unix: bool, width: nat, start: int, rows: seq<int>)
    requires Cut(text, unix, width, start, rows)
    ensures Sum(rows) >= |rows| && forall r :: 0 <= r < |rows| ==> 1 <= rows[r] <= width
    decreases |rows|
  {
    if rows != [] {
      CutSum(text, unix, width, start + rows[0], rows[1..]);
    }
  }

  lemma CutHead(text: seq<char>, unix: bool, width: nat, start: nat, rows: seq<int>)
    requires width >= 1 && start <= |text| && Cut(text, unix, width, start, rows) && rows != []
    ensures rows[0] == RowLength(text, unix, width, start, 1)
  {
    RowLengthWellCut(text, unix, width, start);
    SameRow(text, unix, width, start, rows[0], RowLength(text, unix, width, start, 1));
  }

  /** Wrapping cuts the rest of the text well, and covers it to the terminator. */
  lemma {:induction false} WrapIsCut(text: seq<char>, unix: bool, width: nat, start: nat)
    requires width >= 1 && start <= |text|
    ensures Cut(text, unix, width, start, Wrap(text, unix, width, start))
    ensures start + Sum(Wrap(text, unix, width, start)) == |text| + 1
    decreases |text| + 1 - start
  {
    var n := RowLength(text, unix, width, start, 1);
    RowLengthWellCut(text, unix, width, start);
    if start + n <= |text| {
      WrapIsCut(text, unix, width, start + n);
      var rest := Wrap(text, unix, width, start + n);
      assert ([n] + rest)[1..] == rest;
    } else {
      assert [n][1..] == [];
    }
  }

  /** Well-cut rows that stop short of the terminator are a proper beginning of the wrapping. */
  lemma {:induction false} CutIsPrefix(text: seq<char>, unix: bool, width: nat, start: nat, rows: seq<int>)
    requires width >= 1 && start <= |text| && Cut(text, unix, width, start, rows)
    requires start + Sum(rows) <= |text|
    ensures rows < Wrap(text, unix, width, start)
    decreases |rows|
  {
    if rows != [] {
      CutHead(text, unix, width, start, rows);
      CutSum(text, unix, width, start + rows[0], rows[1..]);
      CutIsPrefix(text, unix, width, start + rows[0], rows[1..]);
      PrefixCons(rows, rows[0], Wrap(text, unix, width, start + rows[0]));
    }
  }

  lemma PrefixCons(rows: seq<int>, n: int, rest: seq<int>)
    requires rows != [] && rows[0] == n && rows[1..] < rest
    ensures rows < [n] + rest
  {
    assert rows == [n] + rows[1..];
  }

  /** A text has one layout only: well-cut rows that reach the terminator are the wrapping. */
  lemma {:induction false} CutIsWrap(text: seq<char>, unix: bool, width: nat, start: nat, rows: seq<int>)
    requires width >= 1 && start <= |text| && Cut(text, unix, width, start, rows)
    requires start + Sum(rows) == |text| + 1
    ensures rows == Wrap(text, unix, width, start)
    decreases |rows|
  {
    CutHead(text, unix, width, start, rows);
    CutSum(text, unix, width, start + rows[0], rows[1..]);
    assert rows == [rows[0]] + rows[1..];
    if start + rows[0] <= |text| {
      CutIsWrap(text, unix, width, start + rows[0], rows[1..]);
    }
  }

  // ----- what a row is -----

  /** The characters from a up to b are a row: it is no wider than the window, no line ends inside it, and it stops
      at a line end, at full width, or behind the terminator. */
  ghost predicate IsRow(text: seq<char>, unix: bool, width: nat, a: int, b: int) {
    && 0 <= a < b <= |text| + 1 && b - a <= width
    && (forall k :: a <= k < b - 1 ==> text[k] != '\n' && !(unix && text[k] == '\r'))
    && (b - a == width || b == |text| + 1 || text[b - 1] == '\n' || (unix && text[b - 1] == '\r'))
  }

  ghost predicate AreRows(text: seq<char>, unix: bool, width: nat, rows: seq<int>) {
    forall r :: 0 <= r < |rows| ==> IsRow(text, unix, width, Sum(rows[..r]), Sum(rows[..r + 1]))
  }

  lemma WrapIsRows(text: seq<char>, unix: bool, width: nat)
    requires width >= 1
    ensures AreRows(text, unix, width, Wrap(text, unix, width, 0)) && Sum(Wrap(text, unix, width, 0)) == |text| + 1
  {
    var rows := Wrap(text, unix, width, 0);
    WrapIsCut(text, unix, width, 0);
    forall r | 0 <= r < |rows| ensures IsRow(text, unix, width, Sum(rows[..r]), Sum(rows[..r + 1])) {
      CutRow(text, unix, width, 0, rows, r);
      SumNext(rows, r);
      WellCutIsRow(text, unix, width, Sum(rows[..r]), rows[r]);
    }
  }

  lemma WellCutIsRow(text: seq<char>, unix: bool, width: nat, start: int, n: int)
    requires RowWellCut(text, unix, width, start, n)
    ensures IsRow(text, unix, width, start, start + n)
  {
    forall k | start <= k < start + n - 1 ensures text[k] != '\n' && !(unix && text[k] == '\r') {
      assert !EndsLine(text, unix, k);
    }
  }

  // ----- positions and rows -----

  /** Position c lies in row r. */
  ghost predicate InRow(rows: seq<int>, r: int, c: int) {
    0 <= r < |rows| && Sum(rows[..r]) <= c < Sum(rows[..r + 1])
  }

  lemma RowUnique(rows: seq<int>, r: int, q: int, c: int)
    requires forall i :: 0 <= i < |rows| ==> rows[i] >= 0
    requires InRow(rows, r, c) && InRow(rows, q, c)
    ensures r == q
  {
    if r < q { SumMonotone(rows, r + 1, q); }
    if q < r { SumMonotone(rows, q + 1, r); }
  }

  /** The row that holds position c. */
  ghost function RowOf(rows: seq<int>, c: int): (r: int)
    requires (forall i :: 0 <= i < |rows| ==> rows[i] >= 1) && 0 <= c < Sum(rows)
    ensures InRow(rows, r, c)
  {
    if c < rows[0] then
      SumNext(rows, 0);
      assert rows[..0] == [];
      0
    else
      var r := RowOf(rows[1..], c - rows[0]);
      RowOfStep(rows, r, c);
      r + 1
  }

  lemma RowOfStep(rows: seq<int>, r: int, c: int)
    requires rows != [] && InRow(rows[1..], r, c - rows[0])
    ensures InRow(rows, r + 1, c)
  {
    assert rows == [rows[0]] + rows[1..];
    SumCons(rows[0], rows[1..], r);
    SumCons(rows[0], rows[1..], r + 1);
  }
}
