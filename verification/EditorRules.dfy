/** The text editor's per-frame rules: wrapping the text, keeping the cursor's row in the window,
    and moving the cursor by rows. */
module EditorRules {
  import opened Common
  import opened RowLayout

  /** How a text marks its line ends: CR/LF, CR, or LF. */
  datatype TextMode = Other | Unix | Mac

  // ----- the wrapping loop -----

  /** The loop is at character i, the count-th of its row; the rows before it are final. */
  ghost predicate Wrapping(text: seq<char>, unix: bool, width: nat, rows: seq<int>, i: int, count: int) {
    var start := i + 1 - count;
    && 1 <= count <= width && 0 <= start && i <= |text|
    && Cut(text, unix, width, 0, rows) && Sum(rows) == start
    && (forall k: nat :: start <= k < i ==> !EndsLine(text, unix, k))
  }

  /** A row that ends at i is well cut, and the following one starts at i + 1. */
  lemma RowEnds(text: seq<char>, unix: bool, width: nat, rows: seq<int>, i: nat, count: nat)
    requires Wrapping(text, unix, width, rows, i, count)
    requires EndsLine(text, unix, i) || count >= width || i == |text|
    ensures |rows| < |Wrap(text, unix, width, 0)|
    ensures Sum(rows + [count]) == i + 1
    ensures i == |text| ==> rows + [count] == Wrap(text, unix, width, 0)
    ensures i < |text| ==> Wrapping(text, unix, width, rows + [count], i + 1, 1)
  {
    CutIsPrefix(text, unix, width, 0, rows);
    SumSnoc(rows, count);
    CutSnoc(text, unix, width, 0, rows, count);
    if i == |text| {
      CutIsWrap(text, unix, width, 0, rows + [count]);
    }
  }

  /** The window: before counts the finished rows that end before the cursor. */
  ghost predicate WindowState(rows: seq<int>, cur: int, height: int, before: int, topWidth: int, topHeight: int) {
    && (forall r :: 0 <= r < |rows| ==> rows[r] >= 1)
    && 0 <= before <= |rows|
    && Sum(rows[..before]) <= cur
    && (before < |rows| ==> cur < Sum(rows[..before + 1]))
    && topHeight == (if before + 1 > height then before + 1 - height else 0)
    && topHeight <= |rows|
    && topWidth == Sum(rows[..topHeight])
  }

  lemma WindowStarts(cur: int, height: int)
    requires cur >= 0 && height >= 2
    ensures WindowState([], cur, height, 0, 0, 0)
  {
  }

  lemma PrefixStays(rows: seq<int>, n: int, r: nat)
    requires r <= |rows|
    ensures (rows + [n])[..r] == rows[..r]
  {
  }

  lemma AllRowsBefore(rows: seq<int>, n: int, cur: int, height: int, before: int, topWidth: int, topHeight: int)
    requires WindowState(rows, cur, height, before, topWidth, topHeight)
    requires Sum(rows) + n <= cur && n >= 1
    ensures before == |rows| && (rows + [n])[..before + 1] == rows + [n] && Sum(rows + [n]) == Sum(rows) + n
  {
    assert rows[..|rows|] == rows;
    if before < |rows| {
      SumMonotone(rows, before + 1, |rows|);
    }
    SumSnoc(rows, n);
  }

  /** A row that ends before the cursor is counted; while the window is not full it stays at the top. */
  lemma RowPassed(rows: seq<int>, n: int, cur: int, height: int, before: int, topWidth: int, topHeight: int)
    requires WindowState(rows, cur, height, before, topWidth, topHeight)
    requires Sum(rows) + n <= cur && n >= 1 && before + 2 <= height
    ensures WindowState(rows + [n], cur, height, before + 1, topWidth, topHeight)
  {
    AllRowsBefore(rows, n, cur, height, before, topWidth, topHeight);
    PrefixStays(rows, n, topHeight);
  }

  /** Once the window is full, a row that ends before the cursor scrolls it by one row. */
  lemma RowScrolled(rows: seq<int>, n: int, cur: int, height: int, before: int, topWidth: int, topHeight: int)
    requires WindowState(rows, cur, height, before, topWidth, topHeight) && height >= 2
    requires Sum(rows) + n <= cur && n >= 1 && before + 2 > height
    ensures topHeight < |rows|
    ensures WindowState(rows + [n], cur, height, before + 1, topWidth + rows[topHeight], topHeight + 1)
  {
    AllRowsBefore(rows, n, cur, height, before, topWidth, topHeight);
    SumNext(rows, topHeight);
    PrefixStays(rows, n, topHeight + 1);
    assert topWidth + rows[topHeight] == Sum((rows + [n])[..topHeight + 1]);
  }

  /** A row that ends at or after the cursor leaves the window alone. */
  lemma RowNotPassed(rows: seq<int>, n: int, cur: int, height: int, before: int, topWidth: int, topHeight: int)
    requires WindowState(rows, cur, height, before, topWidth, topHeight) && n >= 1
    requires Sum(rows) + n > cur
    ensures WindowState(rows + [n], cur, height, before, topWidth, topHeight)
  {
    PrefixStays(rows, n, topHeight);
    PrefixStays(rows, n, before);
    if before < |rows| {
      PrefixStays(rows, n, before + 1);
    } else {
      assert rows[..|rows|] == rows;
      SumSnoc(rows, n);
      assert (rows + [n])[..before + 1] == rows + [n];
    }
  }

  // ----- where the cursor is sent -----

  ghost predicate Positive(rows: seq<int>) {
    forall r :: 0 <= r < |rows| ==> rows[r] >= 1
  }

  ghost function RowStart(rows: seq<int>, r: int): int
    requires 0 <= r <= |rows|
  {
    Sum(rows[..r])
  }

  ghost function Min(a: int, b: int): int { if a <= b then a else b }

  ghost predicate OnText(rows: seq<int>, c: int) {
    Positive(rows) && 0 <= c < Sum(rows)
  }

  ghost function HomeOf(rows: seq<int>, c: int): int
    requires OnText(rows, c)
  {
    RowStart(rows, RowOf(rows, c))
  }

  ghost function EndOf(rows: seq<int>, c: int): int
    requires OnText(rows, c)
  {
    RowStart(rows, RowOf(rows, c) + 1) - 1
  }

  /** The same column of row q, or its last character when the row is too short. */
  ghost function SameColumn(rows: seq<int>, c: int, q: int): int
    requires OnText(rows, c) && 0 <= q < |rows|
  {
    RowStart(rows, q) + Min(c - HomeOf(rows, c), rows[q] - 1)
  }

  /** One row down; from the last row to the end of the text. */
  ghost function DownOf(rows: seq<int>, c: int): int
    requires OnText(rows, c)
  {
    var r := RowOf(rows, c);
    if r + 1 < |rows| then SameColumn(rows, c, r + 1) else Sum(rows) - 1
  }

  /** One row up; from the first row to the start of the text. */
  ghost function UpOf(rows: seq<int>, c: int): int
    requires OnText(rows, c)
  {
    var r := RowOf(rows, c);
    if r > 0 then SameColumn(rows, c, r - 1) else 0
  }

  lemma RowBounds(rows: seq<int>, r: int)
    requires Positive(rows) && 0 <= r < |rows|
    ensures 0 <= RowStart(rows, r) < RowStart(rows, r + 1) <= Sum(rows)
    ensures RowStart(rows, r + 1) == RowStart(rows, r) + rows[r]
  {
    SumNext(rows, r);
    SumMonotone(rows, 0, r);
    SumMonotone(rows, r + 1, |rows|);
    assert rows[..0] == [] && rows[..|rows|] == rows;
  }

  /** Every place the cursor can be sent is a place in the text. */
  lemma MovesStayOnText(rows: seq<int>, c: int)
    requires OnText(rows, c)
    ensures OnText(rows, HomeOf(rows, c)) && OnText(rows, EndOf(rows, c))
    ensures OnText(rows, DownOf(rows, c)) && OnText(rows, UpOf(rows, c))
    ensures HomeOf(rows, c) <= c <= EndOf(rows, c)
  {
    var r := RowOf(rows, c);
    RowBounds(rows, r);
    if r + 1 < |rows| { RowBounds(rows, r + 1); }
    if r > 0 { RowBounds(rows, r - 1); }
  }

  /** c is in row r, and what is before it is not. */
  ghost predicate FirstOfRow(rows: seq<int>, r: int, c: int) {
    InRow(rows, r, c) && (c == 0 || InRow(rows, r - 1, c - 1))
  }

  /** c is in row r, and what is behind it is not, or is behind the terminator. */
  ghost predicate LastOfRow(rows: seq<int>, r: int, c: int) {
    InRow(rows, r, c) && (c + 1 == Sum(rows) || InRow(rows, r + 1, c + 1))
  }

  /** d is in row q as far along as c is in row r, or at the end of a row that is shorter than that. */
  ghost predicate SameColumnOrLast(rows: seq<int>, r: int, c: int, q: int, d: int)
    requires 0 <= r <= |rows| && 0 <= q <= |rows|
  {
    && InRow(rows, q, d)
    && var column, place := c - Sum(rows[..r]), d - Sum(rows[..q]);
      place == column || (place < column && LastOfRow(rows, q, d))
  }

  lemma EndIsLast(rows: seq<int>, r: int)
    requires Positive(rows) && 0 <= r < |rows|
    ensures LastOfRow(rows, r, RowStart(rows, r + 1) - 1)
  {
    RowBounds(rows, r);
    if r + 1 < |rows| {
      RowBounds(rows, r + 1);
    } else {
      assert rows[..r + 1] == rows;
    }
  }

  /** Home and End lead to the ends of the row the cursor is in. */
  lemma EdgesOfRow(rows: seq<int>, c: int)
    requires OnText(rows, c)
    ensures FirstOfRow(rows, RowOf(rows, c), HomeOf(rows, c)) && LastOfRow(rows, RowOf(rows, c), EndOf(rows, c))
  {
    var r := RowOf(rows, c);
    RowBounds(rows, r);
    EndIsLast(rows, r);
    if r > 0 {
      RowBounds(rows, r - 1);
    } else {
      assert rows[..0] == [];
    }
  }

  /** One row down or up keeps the column as far as the row allows; below the last row is the end of the text,
      above the first row its start. */
  lemma RowsKeepColumn(rows: seq<int>, c: int)
    requires OnText(rows, c)
    ensures var r := RowOf(rows, c);
      if r + 1 < |rows| then SameColumnOrLast(rows, r, c, r + 1, DownOf(rows, c)) else DownOf(rows, c) + 1 == Sum(rows)
    ensures var r := RowOf(rows, c);
      if r > 0 then SameColumnOrLast(rows, r, c, r - 1, UpOf(rows, c)) else UpOf(rows, c) == 0
  {
    var r := RowOf(rows, c);
    RowBounds(rows, r);
    if r + 1 < |rows| { ColumnKept(rows, c, r + 1); }
    if r > 0 { ColumnKept(rows, c, r - 1); }
  }

  lemma ColumnKept(rows: seq<int>, c: int, q: int)
    requires OnText(rows, c) && 0 <= q < |rows|
    ensures SameColumnOrLast(rows, RowOf(rows, c), c, q, SameColumn(rows, c, q))
  {
    RowBounds(rows, RowOf(rows, c));
    RowBounds(rows, q);
    EndIsLast(rows, q);
  }

  /** Down then up returns to the same place unless the row below was too short to keep the column. */
  lemma DownThenUp(rows: seq<int>, c: int)
    requires OnText(rows, c)
    requires RowOf(rows, c) + 1 < |rows|
    ensures OnText(rows, DownOf(rows, c)) && RowOf(rows, DownOf(rows, c)) == RowOf(rows, c) + 1
    ensures UpOf(rows, DownOf(rows, c)) == c <==> c - HomeOf(rows, c) < rows[RowOf(rows, c) + 1]
  {
    var r := RowOf(rows, c);
    MovesStayOnText(rows, c);
    RowBounds(rows, r);
    RowBounds(rows, r + 1);
    RowUnique(rows, RowOf(rows, DownOf(rows, c)), r + 1, DownOf(rows, c));
  }

  lemma CursorRow(rows: seq<int>, cur: int, height: int, before: int, topWidth: int, topHeight: int)
    requires WindowState(rows, cur, height, before, topWidth, topHeight) && height >= 2
    requires 0 <= cur < Sum(rows)
    ensures OnText(rows, cur) && topHeight <= RowOf(rows, cur) < topHeight + height
  {
    assert rows[..|rows|] == rows;
    RowUnique(rows, before, RowOf(rows, cur), cur);
  }

  lemma LaidOut(text: seq<char>, unix: bool, width: nat, rows: seq<int>, cur: int, height: int, before: int,
                topWidth: int, topHeight: int)
    requires width >= 1 && rows == Wrap(text, unix, width, 0) && 0 <= cur <= |text| && height >= 2
    requires WindowState(rows, cur, height, before, topWidth, topHeight)
    ensures Sum(rows) == |text| + 1 && OnText(rows, cur) && topHeight <= RowOf(rows, cur) < topHeight + height
  {
    WrapIsCut(text, unix, width, 0);
    CutSum(text, unix, width, 0, rows);
    CursorRow(rows, cur, height, before, topWidth, topHeight);
  }

  /** Where Home, and then End, send the cursor. */
  ghost function EdgeOf(rows: seq<int>, c: int, home: bool, end: bool): (r: int)
    requires OnText(rows, c)
    ensures OnText(rows, r)
  {
    MovesStayOnText(rows, c);
    var h := if home then HomeOf(rows, c) else c;
    MovesStayOnText(rows, h);
    if end then EndOf(rows, h) else h
  }

  lemma EndIsEdge(rows: seq<int>, c: int, home: bool)
    requires OnText(rows, c)
    ensures LastOfRow(rows, RowOf(rows, c), EdgeOf(rows, c, home, true))
    ensures FirstOfRow(rows, RowOf(rows, c), EdgeOf(rows, c, true, false))
  {
    EdgesOfRow(rows, c);
    MovesStayOnText(rows, c);
    var h := HomeOf(rows, c);
    RowUnique(rows, RowOf(rows, c), RowOf(rows, h), h);
    EdgesOfRow(rows, h);
  }

  /** One row down or up; below the last row only if there is a stored width to read. A move that has reached
      the end of the text, or its start, is over. */
  ghost predicate RowMoved(rows: seq<int>, c: int, push: int, after: int, left: int)
    requires OnText(rows, c)
  {
    && (push == 0 ==> after == c && left == 0)
    && (push > 0 ==> after == UpOf(rows, c) && left == if after == 0 then 0 else push - 1)
    && (push < 0 && Roomy(rows, c, -1) ==> after == DownOf(rows, c))
    && (push < 0 ==> left == push + 1 || (left == 0 && RowOf(rows, c) + 1 == |rows|))
  }

  /** A move by so many rows reads no width behind the table. */
  ghost predicate Roomy(rows: seq<int>, c: int, push: int)
    requires OnText(rows, c)
  {
    |rows| < MAX_ENTRY || RowOf(rows, c) - push < |rows|
  }

  /** Where the cursor ends up: Home, then End, then one row down or up, never off the text. */
  ghost predicate Moved(rows: seq<int>, c: int, home: bool, end: bool, push: int, after: int, left: int)
    requires OnText(rows, c)
  {
    0 <= after < Sum(rows) && RowMoved(rows, EdgeOf(rows, c, home, end), push, after, left)
  }

  /** Where a move by several rows leads: up for a positive number, down for a negative one. */
  ghost function Travel(rows: seq<int>, c: int, push: int): (r: int)
    requires OnText(rows, c)
    ensures OnText(rows, r)
    decreases if push < 0 then -push else push
  {
    MovesStayOnText(rows, c);
    if push == 0 then c
    else if push < 0 then Travel(rows, DownOf(rows, c), push + 1)
    else Travel(rows, UpOf(rows, c), push - 1)
  }

  /** The row of a text of n rows that is nearest to row r. */
  function NearestRow(n: int, r: int): int {
    if r < 0 then 0 else if r >= n then n - 1 else r
  }

  lemma RowIs(rows: seq<int>, r: int, c: int)
    requires Positive(rows) && InRow(rows, r, c)
    ensures OnText(rows, c) && RowOf(rows, c) == r
  {
    RowBounds(rows, r);
    RowUnique(rows, RowOf(rows, c), r, c);
  }

  lemma OneRow(rows: seq<int>, c: int)
    requires OnText(rows, c)
    ensures OnText(rows, DownOf(rows, c)) && OnText(rows, UpOf(rows, c))
    ensures RowOf(rows, DownOf(rows, c)) == NearestRow(|rows|, RowOf(rows, c) + 1)
    ensures RowOf(rows, UpOf(rows, c)) == NearestRow(|rows|, RowOf(rows, c) - 1)
  {
    var r := RowOf(rows, c);
    MovesStayOnText(rows, c);
    var below, above := NearestRow(|rows|, r + 1), NearestRow(|rows|, r - 1);
    RowBounds(rows, below);
    RowBounds(rows, above);
    assert rows[..|rows|] == rows && rows[..0] == [];
    RowIs(rows, below, DownOf(rows, c));
    RowIs(rows, above, UpOf(rows, c));
  }

  lemma NearestOn(n: int, r: int, push: int)
    requires 0 <= r < n
    ensures push < 0 ==> NearestRow(n, NearestRow(n, r + 1) - (push + 1)) == NearestRow(n, r - push)
    ensures push > 0 ==> NearestRow(n, NearestRow(n, r - 1) - (push - 1)) == NearestRow(n, r - push)
  {
  }

  lemma {:induction false} TravelFrom(rows: seq<int>, c: int, r: int, push: int, goal: int)
    requires OnText(rows, c) && r == RowOf(rows, c) && goal == Travel(rows, c, push)
    ensures OnText(rows, goal) && RowOf(rows, goal) == NearestRow(|rows|, r - push)
    decreases if push < 0 then -push else push
  {
    if push != 0 {
      OneRow(rows, c);
      NearestOn(|rows|, r, push);
      var next, left := if push < 0 then DownOf(rows, c) else UpOf(rows, c), if push < 0 then push + 1 else push - 1;
      TravelStep(rows, c, push, next, left);
      TravelFrom(rows, next, NearestRow(|rows|, if push < 0 then r + 1 else r - 1), left, goal);
    }
  }

  /** A move by several rows moves by exactly that many, or stops at the first or the last row. */
  lemma TravelRow(rows: seq<int>, c: int, push: int)
    requires OnText(rows, c)
    ensures RowOf(rows, Travel(rows, c, push)) == NearestRow(|rows|, RowOf(rows, c) - push)
  {
    TravelFrom(rows, c, RowOf(rows, c), push, Travel(rows, c, push));
  }

  lemma TravelStep(rows: seq<int>, c: int, push: int, next: int, left: int)
    requires OnText(rows, c) && OnText(rows, next) && push != 0
    requires next == if push < 0 then DownOf(rows, c) else UpOf(rows, c)
    requires left == if push < 0 then push + 1 else push - 1
    ensures Travel(rows, c, push) == Travel(rows, next, left)
  {
  }

  lemma StartStays(rows: seq<int>)
    requires Positive(rows) && rows != []
    ensures OnText(rows, 0) && UpOf(rows, 0) == 0
  {
    RowBounds(rows, 0);
    assert rows[..0] == [];
    RowIs(rows, 0, 0);
  }

  lemma EndStays(rows: seq<int>, last: int)
    requires Positive(rows) && rows != [] && last == Sum(rows) - 1
    ensures OnText(rows, last) && DownOf(rows, last) == last
  {
    var r := |rows| - 1;
    RowBounds(rows, r);
    assert rows[..r + 1] == rows;
    RowIs(rows, r, last);
  }

  /** The ends of the text are where every further move stays. */
  lemma {:induction false} TravelStays(rows: seq<int>, c: int, push: int)
    requires OnText(rows, c) && (if push < 0 then c == Sum(rows) - 1 else c == 0)
    ensures Travel(rows, c, push) == c
    decreases if push < 0 then -push else push
  {
    if push < 0 {
      EndStays(rows, c);
      if push < -1 { TravelStays(rows, c, push + 1); }
    } else if push > 0 {
      StartStays(rows);
      TravelStays(rows, c, push - 1);
    }
  }

  lemma TravelUp(rows: seq<int>, c: int, push: int, after: int, left: int)
    requires OnText(rows, c) && OnText(rows, after) && push > 0 && RowMoved(rows, c, push, after, left)
    ensures Travel(rows, after, left) == Travel(rows, c, push)
  {
    if after == 0 {
      TravelStays(rows, 0, push - 1);
    }
  }

  lemma TravelDown(rows: seq<int>, c: int, push: int, after: int, left: int)
    requires OnText(rows, c) && OnText(rows, after) && push < 0 && RowMoved(rows, c, push, after, left) && Roomy(rows, c, push)
    ensures after == DownOf(rows, c) && Travel(rows, after, left) == Travel(rows, c, push)
  {
    if left != push + 1 {
      TravelStays(rows, after, push + 1);
    }
  }

  /** One frame of a move brings the cursor on its way. */
  lemma TravelOn(rows: seq<int>, c: int, push: int, after: int, left: int)
    requires OnText(rows, c) && OnText(rows, after)
    requires RowMoved(rows, c, push, after, left) && Roomy(rows, c, push)
    ensures Roomy(rows, after, left) && Travel(rows, after, left) == Travel(rows, c, push)
  {
    if push > 0 {
      TravelUp(rows, c, push, after, left);
    } else if push < 0 {
      TravelDown(rows, c, push, after, left);
      OneRow(rows, c);
    }
  }

  ghost function Clamped(c: int, nChar: int): int {
    if c >= nChar then nChar - 1 else if c < 0 then 0 else c
  }

  predicate Within(k: int, lo: int, hi: int) {
    lo <= k < hi
  }

  class Editor {
    var buffer: array<char>
    var textSize: nat
    var textMode: TextMode
    /** Row lengths; entries past rowCount are left over from earlier layouts. */
    const rowsWidth: array<int>
    var cur: int
    var nChar: int
    var rowCount: nat
    var charRows: int
    var rowsTop: int
    /** Rows and columns of the window. */
    var rowsNum: int
    var rowWidth: int
    var topWidth: int
    var topHeight: int
    var home: bool
    var end: bool
    /** Rows still to move: negative is down, positive is up. */
    var pushRows: int
    var markOn: bool
    var markIn: int
    var markSize: int
    var markPrint: int

    constructor (buffer: array<char>, textSize: nat, textMode: TextMode, rowsNum: int, rowWidth: int)
      requires textSize < buffer.Length && buffer[textSize] == NUL && forall k :: 0 <= k < textSize ==> buffer[k] != NUL
      requires rowsNum >= 2 && rowWidth >= 1
      ensures Valid() && this.buffer == buffer && cur == 0 && fresh(rowsWidth)
    {
      this.buffer, this.textSize, this.textMode := buffer, textSize, textMode;
      this.rowsNum, this.rowWidth := rowsNum, rowWidth;
      rowsWidth := new int[MAX_ENTRY](_ => 0);
      cur, nChar, rowCount, charRows, rowsTop := 0, 0, 0, 0, 0;
      topWidth, topHeight, home, end, pushRows := 0, 0, false, false, 0;
      markOn, markIn, markSize, markPrint := false, 0, 0, 0;
    }

    ghost predicate Valid()
      reads `buffer, `textSize, `rowsNum, `rowWidth, `cur, buffer, rowsWidth
    {
      && textSize < buffer.Length && buffer[textSize] == NUL && (forall k :: 0 <= k < textSize ==> buffer[k] != NUL)
      && rowsWidth.Length == MAX_ENTRY && (forall r :: 0 <= r < MAX_ENTRY ==> rowsWidth[r] >= 0)
      && rowsNum >= 2 && rowWidth >= 1
      && 0 <= cur <= textSize
    }

    ghost function Text(): seq<char>
      reads `buffer, `textSize, buffer
      requires textSize <= buffer.Length
    {
      buffer[..textSize]
    }

    /** The rows of the current text. */
    ghost function Rows(): seq<int>
      reads `buffer, `textSize, `textMode, `rowWidth, buffer
      requires textSize <= buffer.Length && rowWidth >= 1
    {
      Wrap(Text(), textMode == Unix, rowWidth, 0)
    }

    /** Wraps the text and scrolls the window to the cursor's row. */
    method LayOut(ghost rows: seq<int>)
      requires Valid() && rows == Rows() && |rows| <= MAX_ENTRY
      modifies this`nChar, this`rowCount, this`charRows, this`rowsTop, this`topWidth, this`topHeight, rowsWidth
      ensures Stores(rows) && nChar == textSize + 1
      ensures OnText(rows, cur) && topHeight <= RowOf(rows, cur) < topHeight + rowsNum
      ensures 0 <= topHeight <= |rows| && topWidth == RowStart(rows, topHeight)
    {
      nChar := textSize + 1;
      topHeight, topWidth := 0, 0;
      rowCount, charRows, rowsTop := 0, 1, 1;
      WindowStarts(cur, rowsNum);
      WrapRows(Text(), rows);
      LaidOut(Text(), textMode == Unix, rowWidth, rows, cur, rowsNum, rowsTop - 1, topWidth, topHeight);
    }

    ghost predicate Stored(rows: seq<int>)
      reads `rowCount, `cur, `rowsNum, `rowsTop, `topWidth, `topHeight, rowsWidth
    {
      && rowsWidth.Length == MAX_ENTRY && (forall r :: 0 <= r < MAX_ENTRY ==> rowsWidth[r] >= 0)
      && |rows| == rowCount <= MAX_ENTRY && (forall r :: 0 <= r < |rows| ==> rowsWidth[r] == rows[r])
      && WindowState(rows, cur, rowsNum, rowsTop - 1, topWidth, topHeight)
    }

    ghost predicate Holds(text: seq<char>)
      reads `buffer, `textSize, buffer
    {
      && textSize == |text| < buffer.Length
      && (forall k :: 0 <= k < |text| ==> buffer[k] == text[k] && text[k] != NUL)
      && buffer[|text|] == NUL
    }

    method WrapRows(ghost text: seq<char>, ghost all: seq<int>)
      requires Holds(text) && rowsNum >= 2 && nChar == |text| + 1 && charRows == 1
      requires rowWidth >= 1 && all == Wrap(text, textMode == Unix, rowWidth, 0) && |all| <= MAX_ENTRY
      requires Stored([])
      modifies this`rowCount, this`charRows, this`rowsTop, this`topWidth, this`topHeight, rowsWidth
      ensures Stored(all)
    {
      ghost var unix, width, rows := textMode == Unix, rowWidth, [];
      var i := 0;
      while i < nChar
        invariant 0 <= i <= |text| && Holds(text)
        invariant Stored(rows) && Wrapping(text, unix, width, rows, i, charRows)
        decreases nChar - i
      {
        var done;
        done, rows := WrapCharacter(i, text, all, rows);
        if done {
          break;
        }
        charRows := charRows + 1;
        i := i + 1;
      }
    }

    /** One turn of the wrapping loop; reports whether the terminator was reached. */
    method WrapCharacter(i: nat, ghost text: seq<char>, ghost all: seq<int>, ghost rows: seq<int>)
      returns (done: bool, ghost next: seq<int>)
      requires Holds(text) && i <= |text| && rowsNum >= 2
      requires rowWidth >= 1 && all == Wrap(text, textMode == Unix, rowWidth, 0) && |all| <= MAX_ENTRY
      requires Stored(rows) && Wrapping(text, textMode == Unix, rowWidth, rows, i, charRows)
      modifies this`rowCount, this`charRows, this`rowsTop, this`topWidth, this`topHeight, rowsWidth
      ensures Stored(next) && (done <==> i == |text|)
      ensures done ==> next == all
      ensures !done ==> Wrapping(text, textMode == Unix, rowWidth, next, i + 1, charRows + 1)
    {
      ghost var unix, width, count := textMode == Unix, rowWidth, charRows;
      var c := buffer[i];
      var ends := (textMode == Unix && c == CR) || c == LF || charRows >= rowWidth || c == NUL;
      assert (c == NUL <==> i == |text|) && (ends <==> EndsLine(text, unix, i) || count >= width || i == |text|);
      next := rows;
      if ends {
        RowEnds(text, unix, width, rows, i, count);
        FinishRow(i, rows);
        next := rows + [count];
      }
      done := c == NUL;
    }

    /** The row that ends at character i is counted towards the window and its length stored. */
    method FinishRow(i: int, ghost rows: seq<int>)
      requires Stored(rows) && rowCount < MAX_ENTRY && rowsNum >= 2 && charRows >= 1
      requires Sum(rows) + charRows == i + 1
      modifies this`rowCount, this`charRows, this`rowsTop, this`topWidth, this`topHeight, rowsWidth
      ensures Stored(rows + [old(charRows)]) && charRows == 0
    {
      PassRow(i, rows);
      rowsWidth[rowCount] := charRows;
      rowCount := rowCount + 1;
      charRows := 0;
    }

    method PassRow(i: int, ghost rows: seq<int>)
      requires Stored(rows) && rowsNum >= 2 && charRows >= 1
      requires Sum(rows) + charRows == i + 1
      modifies this`rowsTop, this`topWidth, this`topHeight
      ensures WindowState(rows + [charRows], cur, rowsNum, rowsTop - 1, topWidth, topHeight)
    {
      if i < cur {
        if rowsTop + 1 > rowsNum {
          RowScrolled(rows, charRows, cur, rowsNum, rowsTop - 1, topWidth, topHeight);
        } else {
          RowPassed(rows, charRows, cur, rowsNum, rowsTop - 1, topWidth, topHeight);
        }
        rowsTop := rowsTop + 1;
        if rowsTop > rowsNum {
          topWidth := topWidth + rowsWidth[topHeight];
          topHeight := topHeight + 1;
        }
      } else {
        RowNotPassed(rows, charRows, cur, rowsNum, rowsTop - 1, topWidth, topHeight);
      }
    }

    /** The stored row lengths are these rows. */
    ghost predicate Stores(rows: seq<int>)
      reads `rowCount, `nChar, rowsWidth
    {
      && rowsWidth.Length == MAX_ENTRY && (forall r :: 0 <= r < MAX_ENTRY ==> rowsWidth[r] >= 0)
      && |rows| == rowCount <= MAX_ENTRY && (forall r :: 0 <= r < |rows| ==> rowsWidth[r] == rows[r])
      && nChar == Sum(rows)
    }

    /** A stored row length; outside the array the value is whatever lies there. */
    method WidthAt(k: int) returns (w: int)
      requires rowsWidth.Length == MAX_ENTRY
      ensures 0 <= k < MAX_ENTRY ==> w == rowsWidth[k]
    {
      w := *;
      if 0 <= k < MAX_ENTRY {
        w := rowsWidth[k];
      }
    }

    /** A character of the buffer; outside it the value is whatever lies there. */
    method CharAt(k: int) returns (c: char)
      ensures 0 <= k < buffer.Length ==> c == buffer[k]
    {
      c := *;
      if 0 <= k < buffer.Length {
        c := buffer[k];
      }
    }

    /** The cursor's row, and the number of characters up to and including the row's first. */
    method LocateRow(ghost rows: seq<int>) returns (i: int, tmp: int)
      requires Stores(rows) && OnText(rows, cur)
      ensures i == RowOf(rows, cur) && tmp == RowStart(rows, i) + 1
    {
      tmp := 0;
      i := 0;
      assert rows[..0] == [] && rows[..|rows|] == rows;
      while i < rowCount
        invariant 0 <= i <= |rows|
        invariant tmp == Sum(rows[..i]) && tmp <= cur
      {
        SumNext(rows, i);
        tmp := tmp + rowsWidth[i];
        if tmp >= cur + 1 {
          break;
        }
        i := i + 1;
      }
      RowUnique(rows, i, RowOf(rows, cur), cur);
      tmp := tmp - (rowsWidth[i] - 1);
    }

    method GoHome(ghost rows: seq<int>)
      requires Stores(rows) && OnText(rows, cur)
      modifies this`cur, this`home
      ensures cur == HomeOf(rows, old(cur)) && !home
      ensures FirstOfRow(rows, RowOf(rows, old(cur)), cur)
    {
      EdgesOfRow(rows, cur);
      var i, tmp := LocateRow(rows);
      cur := tmp - 1;
      home := false;
    }

    method GoEnd(ghost rows: seq<int>)
      requires Stores(rows) && OnText(rows, cur)
      modifies this`cur, this`end
      ensures cur == EndOf(rows, old(cur)) && !end
      ensures LastOfRow(rows, RowOf(rows, old(cur)), cur)
    {
      EdgesOfRow(rows, cur);
      var i, tmp := LocateRow(rows);
      RowBounds(rows, i);
      cur := tmp + rowsWidth[i] - 1 - 1;
      end := false;
    }

    /** One row down; from the last row the cursor leaves the text, or reaches its end, by a stale width. */
    method GoDown(ghost rows: seq<int>)
      requires Stores(rows) && OnText(rows, cur) && pushRows < 0
      requires nChar - 1 < buffer.Length && buffer[nChar - 1] == NUL
      modifies this`cur, this`pushRows
      ensures RowOf(rows, old(cur)) + 1 < |rows| ==> cur == DownOf(rows, old(cur)) && pushRows == old(pushRows) + 1
      ensures RowOf(rows, old(cur)) + 1 == |rows| < MAX_ENTRY ==> cur >= nChar - 1
      ensures pushRows == old(pushRows) + 1 || (pushRows == 0 && RowOf(rows, old(cur)) + 1 == |rows|)
    {
      var i, tmp := LocateRow(rows);
      MovesStayOnText(rows, cur);
      RowBounds(rows, i);
      ghost var start, column := RowStart(rows, i), cur - RowStart(rows, i);
      var below := WidthAt(i + 1);
      if below <= (cur + 1) - (tmp - 1) {
        cur := tmp + rowsWidth[i] + below - 1 - 1;
      } else {
        cur := tmp + rowsWidth[i] + ((cur + 1) - tmp) - 1;
      }
      if i + 1 < |rows| {
        RowBounds(rows, i + 1);
      } else {
        assert rows[..i + 1] == rows;
      }
      pushRows := pushRows + 1;
      var c := CharAt(cur);
      if cur + 1 >= nChar && c != NUL {
        cur := nChar - 1;
        pushRows := 0;
      }
    }

    /** One row up; from the first row to the start of the text, whatever width is read above it. */
    method GoUp(ghost rows: seq<int>)
      requires Stores(rows) && OnText(rows, cur) && pushRows > 0
      modifies this`cur, this`pushRows
      ensures cur == UpOf(rows, old(cur))
      ensures pushRows == if cur == 0 then 0 else old(pushRows) - 1
    {
      var i, tmp := LocateRow(rows);
      MovesStayOnText(rows, cur);
      RowBounds(rows, i);
      var above := WidthAt(i - 1);
      if above <= (cur + 1) - (tmp - 1) {
        cur := tmp - 1 - 1;
      } else {
        cur := tmp - above + ((cur + 1) - tmp) - 1;
      }
      if i > 0 {
        RowBounds(rows, i - 1);
      }
      pushRows := pushRows - 1;
      if cur <= 0 {
        cur := 0;
        pushRows := 0;
      }
    }

    /** With the cursor behind the mark, exactly the marked characters from the window's top on are shown, as
        the markPrint characters before the cursor. */
    method MeasureMark()
      modifies this`markSize, this`markPrint
      ensures markOn ==> markSize == cur - markIn
      ensures markOn && markIn < cur ==>
                forall k :: Within(k, cur - markPrint, cur) <==> Within(k, markIn, cur) && topWidth <= k
      ensures markOn && markIn >= cur ==> (markPrint == 0 <==> markIn == cur) && 0 <= markPrint <= markIn - cur
      ensures !markOn ==> markSize == old(markSize) && markPrint == old(markPrint)
    {
      if markOn {
        markSize := cur - markIn;
        if markSize > 0 {
          markPrint := markSize;
          if markIn < topWidth {
            markPrint := cur - topWidth;
          }
          forall k ensures Within(k, cur - markPrint, cur) <==> Within(k, markIn, cur) && topWidth <= k {
          }
        } else if markSize < 0 {
          markPrint := 1;
        } else {
          markPrint := 0;
        }
      }
    }

    /** All the rules, once: wrap and scroll for the cursor on entry, then move the cursor. */
    method ApplyRules()
      requires Valid() && |Rows()| <= MAX_ENTRY
      modifies this`nChar, this`rowCount, this`charRows, this`rowsTop, this`topWidth, this`topHeight, rowsWidth
      modifies this`cur, this`home, this`end, this`pushRows, this`markSize, this`markPrint
      ensures Valid() && Stores(Rows()) && AreRows(Text(), textMode == Unix, rowWidth, Rows())
      ensures OnText(Rows(), old(cur)) && topHeight <= RowOf(Rows(), old(cur)) < topHeight + rowsNum
      ensures 0 <= topHeight <= |Rows()| && topWidth == RowStart(Rows(), topHeight)
      ensures Moved(Rows(), old(cur), old(home), old(end), old(pushRows), cur, pushRows)
      ensures old(end) && old(pushRows) == 0 ==> LastOfRow(Rows(), RowOf(Rows(), old(cur)), cur)
      ensures old(home) && !old(end) && old(pushRows) == 0 ==> FirstOfRow(Rows(), RowOf(Rows(), old(cur)), cur)
      ensures !home && !end
      ensures markOn ==> markSize == cur - markIn
    {
      ghost var rows := Rows();
      ApplyTo(rows);
      assert Rows() == rows;
      WrapIsRows(Text(), textMode == Unix, rowWidth);
      EndIsEdge(rows, old(cur), old(home));
    }

    /** The frames that a move by several rows takes, with no key pressed meanwhile. */
    method Settle()
      requires Valid() && |Rows()| <= MAX_ENTRY
      modifies this`nChar, this`rowCount, this`charRows, this`rowsTop, this`topWidth, this`topHeight, rowsWidth
      modifies this`cur, this`home, this`end, this`pushRows, this`markSize, this`markPrint
      ensures Valid() && OnText(Rows(), old(cur)) && pushRows == 0 && !home && !end
      ensures var start := EdgeOf(Rows(), old(cur), old(home), old(end));
        Roomy(Rows(), start, old(pushRows)) ==> cur == Travel(Rows(), start, old(pushRows))
    {
      ghost var rows := Rows();
      ApplyRules();
      ghost var start := EdgeOf(rows, old(cur), old(home), old(end));
      if Roomy(rows, start, old(pushRows)) {
        TravelOn(rows, start, old(pushRows), cur, pushRows);
      }
      MoveOn(rows);
    }

    /** The frames after the first. */
    method MoveOn(ghost rows: seq<int>)
      requires Valid() && Rows() == rows && |rows| <= MAX_ENTRY && OnText(rows, cur) && !home && !end
      modifies this`nChar, this`rowCount, this`charRows, this`rowsTop, this`topWidth, this`topHeight, rowsWidth
      modifies this`cur, this`home, this`end, this`pushRows, this`markSize, this`markPrint
      ensures Valid() && Rows() == rows && pushRows == 0 && !home && !end
      ensures Roomy(rows, old(cur), old(pushRows)) ==> cur == Travel(rows, old(cur), old(pushRows))
    {
      ghost var roomy, goal := Roomy(rows, cur, pushRows), Travel(rows, cur, pushRows);
      while pushRows != 0
        invariant Valid() && Rows() == rows && OnText(rows, cur) && !home && !end
        invariant roomy ==> Roomy(rows, cur, pushRows) && Travel(rows, cur, pushRows) == goal
        decreases if pushRows < 0 then -pushRows else pushRows
      {
        ghost var c, push := cur, pushRows;
        ApplyRules();
        if roomy {
          TravelOn(rows, c, push, cur, pushRows);
        }
      }
    }

    method ApplyTo(ghost rows: seq<int>)
      requires Valid() && rows == Rows() && |rows| <= MAX_ENTRY
      modifies this`nChar, this`rowCount, this`charRows, this`rowsTop, this`topWidth, this`topHeight, rowsWidth
      modifies this`cur, this`home, this`end, this`pushRows, this`markSize, this`markPrint
      ensures Stores(rows) && nChar == textSize + 1
      ensures OnText(rows, old(cur)) && topHeight <= RowOf(rows, old(cur)) < topHeight + rowsNum
      ensures 0 <= topHeight <= |rows| && topWidth == RowStart(rows, topHeight)
      ensures Moved(rows, old(cur), old(home), old(end), old(pushRows), cur, pushRows)
      ensures !home && !end
      ensures markOn ==> markSize == cur - markIn
    {
      LayOut(rows);
      MoveWithinText(rows);
      MeasureMark();
    }

    method MoveWithinText(ghost rows: seq<int>)
      requires Stores(rows) && OnText(rows, cur)
      requires nChar - 1 < buffer.Length && buffer[nChar - 1] == NUL
      modifies this`cur, this`home, this`end, this`pushRows
      ensures Moved(rows, old(cur), old(home), old(end), old(pushRows), cur, pushRows)
      ensures !home && !end
    {
      MoveCursor(rows);
      if cur >= nChar {
        cur := nChar - 1;
      }
      if cur < 0 {
        cur := 0;
      }
    }

    method MoveCursor(ghost rows: seq<int>)
      requires Stores(rows) && OnText(rows, cur)
      requires nChar - 1 < buffer.Length && buffer[nChar - 1] == NUL
      modifies this`cur, this`home, this`end, this`pushRows
      ensures RowMoved(rows, EdgeOf(rows, old(cur), old(home), old(end)), old(pushRows), Clamped(cur, nChar), pushRows)
      ensures !home && !end
    {
      MoveToEdge(rows);
      MovesStayOnText(rows, cur);
      if pushRows < 0 {
        GoDown(rows);
      }
      if pushRows > 0 {
        GoUp(rows);
      }
    }

    method MoveToEdge(ghost rows: seq<int>)
      requires Stores(rows) && OnText(rows, cur)
      modifies this`cur, this`home, this`end
      ensures cur == EdgeOf(rows, old(cur), old(home), old(end)) && !home && !end
    {
      MovesStayOnText(rows, cur);
      if home {
        GoHome(rows);
      }
      if end {
        GoEnd(rows);
      }
    }
  }
}
