/** Rows of the store, their text form in a table file, and what a list of rows means. */
module Rows {
  import opened CText

  const NOT_FOUND := -1
  const VALUE_BUFFER_SIZE := 6
  const INT_MAX := 0x7FFF_FFFF
  const MAX_KEY := 9999

  /** struct table of store.h. */
  datatype Row = Row(index: int, key: int, value: string)

  predicate ValidKey(key: int) {
    0 <= key <= MAX_KEY
  }

  /** A value that fits its buffer with the terminator and survives "%s". */
  predicate ValidValue(value: string) {
    0 < |value| < VALUE_BUFFER_SIZE && All(NonSpace, value) && All(NotNul, value)
  }

  predicate ValidRow(r: Row) {
    0 < r.index <= INT_MAX && ValidKey(r.key) && ValidValue(r.value)
  }

  predicate ValidRows(rows: seq<Row>) {
    forall i :: 0 <= i < |rows| ==> ValidRow(rows[i])
  }

  // ---------------------------------------------------------------- text form

  /** One row as fprintf(fp, "%d %d %s\n", ...) writes it, without the line end. */
  function RenderLine(r: Row): string {
    PrintInt(r.index) + (" " + (PrintInt(r.key) + (" " + r.value)))
  }

  function RenderRow(r: Row): (s: string)
    ensures |s| >= 1
  {
    RenderLine(r) + "\n"
  }

  /** A whole table file. */
  function Render(rows: seq<Row>): string {
    if rows == [] then "" else RenderRow(rows[0]) + Render(rows[1..])
  }

  /** A rendered row is one line: no line end or terminator inside, and it fits the search buffer. */
  lemma LineShape(r: Row)
    requires ValidRow(r)
    ensures All(NotLineEnd, RenderLine(r)) && All(NotNul, RenderLine(r))
    ensures 5 <= |RenderLine(r)| <= 21
  {
    assert Pow10(10) == 10 * 10 * Pow10(8) && Pow10(8) == 10 * 10 * Pow10(6);
    assert Pow10(6) == 10 * 10 * Pow10(4) && Pow10(4) == 10 * 10 * Pow10(2) && Pow10(2) == 100;
    PrintNatLength(r.index, 10);
    PrintNatLength(r.key, 4);
  }

  lemma {:induction false} RenderAppend(a: seq<Row>, b: seq<Row>)
    ensures Render(a + b) == Render(a) + Render(b)
  {
    if a == [] {
      assert a + b == b;
    } else {
      assert (a + b)[1..] == a[1..] + b && (a + b)[0] == a[0];
      RenderAppend(a[1..], b);
      Assoc(RenderRow(a[0]), Render(a[1..]), Render(b));
    }
  }

  lemma RenderSnoc(a: seq<Row>, r: Row)
    ensures Render(a + [r]) == Render(a) + RenderRow(r)
  {
    RenderAppend(a, [r]);
    assert Render([r]) == RenderRow(r) + Render([]);
  }

  datatype RowScan = NoRow | ARow(row: Row, end: nat)

  /** One call of fscanf(fp, "%d %d %s", ...): a row when all three fields were converted. */
  function ScanRow(s: string, from: nat): (r: RowScan)
    requires from <= |s|
    ensures r.ARow? ==> from < r.end <= |s|
  {
    match ScanInt(s, from)
    case NoInt => NoRow
    case AnInt(index, p1) =>
      match ScanInt(s, p1)
      case NoInt => NoRow
      case AnInt(key, p2) =>
        match ScanWord(s, p2)
        case NoWord => NoRow
        case AWord(value, p3) => ARow(Row(index, key, value), p3)
  }

  /** The rows a loop over ScanRow collects, from a file position on, until it fails. */
  function ScanAll(s: string, from: nat): seq<Row>
    requires from <= |s|
    decreases |s| - from
  {
    match ScanRow(s, from)
    case NoRow => []
    case ARow(row, end) => [row] + ScanAll(s, end)
  }

  /** The parts of a printed row: index, blank, key, blank, value, line end. */
  lemma RowParts(s: string, at: nat, r: Row)
    requires At(s, at, RenderRow(r))
    ensures var (p1, p2, p3) := (at + |PrintInt(r.index)|, at + |PrintInt(r.index)| + 1 + |PrintInt(r.key)|,
                                 at + |RenderLine(r)|);
            && p3 == p2 + 1 + |r.value| && p3 < |s|
            && At(s, at, PrintInt(r.index)) && At(s, p1 + 1, PrintInt(r.key)) && At(s, p2 + 1, r.value)
            && s[p1] == ' ' && s[p2] == ' ' && s[p3] == '\n'
  {
    hide PrintInt;
    var (index, key) := (PrintInt(r.index), PrintInt(r.key));
    var (p1, p2) := (at + |index|, at + |index| + 1 + |key|);
    AtParts(s, at, RenderLine(r), "\n");
    AtParts(s, at, index, " " + (key + (" " + r.value)));
    AtParts(s, p1, " ", key + (" " + r.value));
    AtParts(s, p1 + 1, key, " " + r.value);
    AtParts(s, p2, " ", r.value);
    LineEnds(s, p1, p2, at + |RenderLine(r)|);
  }

  /** A printed row, wherever it stands and after any white space, is read back up to its line end. */
  lemma ScanRowPrinted(s: string, from: nat, at: nat, r: Row)
    requires ValidRow(r) && from <= at && At(s, at, RenderRow(r)) && SpacesBetween(s, from, at)
    ensures ScanRow(s, from) == ARow(r, at + |RenderLine(r)|)
    ensures s[at + |RenderLine(r)|] == '\n'
  {
    hide ScanInt, ScanWord, Span, PrintInt, RenderLine, RenderRow, At;
    RowParts(s, at, r);
    var (p1, p2) := (at + |PrintInt(r.index)|, at + |PrintInt(r.index)| + 1 + |PrintInt(r.key)|);
    ScanIntPrinted(s, from, at, r.index);
    ScanIntPrinted(s, p1, p1 + 1, r.key);
    ScanWordPrinted(s, p2, p2 + 1, r.value);
  }

  lemma LineEnds(s: string, p1: nat, p2: nat, p3: nat)
    requires At(s, p1, " ") && At(s, p2, " ") && At(s, p3, "\n")
    ensures s[p1] == ' ' && s[p2] == ' ' && s[p3] == '\n'
  {
    assert s[p1] == s[p1..p1 + 1][0] && s[p2] == s[p2..p2 + 1][0] && s[p3] == s[p3..p3 + 1][0];
  }

  lemma NothingLeft(s: string, from: nat)
    requires from <= |s| && SpacesBetween(s, from, |s|)
    ensures ScanRow(s, from) == NoRow
  {
    SpanIs(s, from, Space, |s|);
  }

  /** Reading a file of rows from any blank before them gives back exactly these rows, in order. */
  lemma {:induction false} ScanAllRendered(s: string, from: nat, at: nat, rows: seq<Row>)
    requires ValidRows(rows) && from <= at && At(s, at, Render(rows)) && at + |Render(rows)| == |s|
    requires SpacesBetween(s, from, at)
    ensures ScanAll(s, from) == rows
    decreases rows
  {
    hide ScanRow, RenderLine;
    if rows == [] {
      NothingLeft(s, from);
    } else {
      var line := RenderLine(rows[0]);
      AtParts(s, at, RenderRow(rows[0]), Render(rows[1..]));
      ScanRowPrinted(s, from, at, rows[0]);
      ScanAllRendered(s, at + |line|, at + |line| + 1, rows[1..]);
    }
  }

  /** Row-file round trip. */
  lemma RoundTrip(rows: seq<Row>)
    requires ValidRows(rows)
    ensures ScanAll(Render(rows), 0) == rows
  {
    ScanAllRendered(Render(rows), 0, 0, rows);
  }

  // ---------------------------------------------------------------- meaning

  /** The most recent row with the key. */
  function Last(rows: seq<Row>, key: int): (r: Option<Row>)
    ensures r.Some? ==> r.value in rows && r.value.key == key
    ensures r.None? ==> forall i :: 0 <= i < |rows| ==> rows[i].key != key
  {
    if rows == [] then None
    else if rows[|rows| - 1].key == key then Some(rows[|rows| - 1])
    else Last(rows[..|rows| - 1], key)
  }

  /** b comes after a, so its rows win. */
  lemma {:induction false} LastAppend(a: seq<Row>, b: seq<Row>, key: int)
    ensures Last(a + b, key) == if Last(b, key).Some? then Last(b, key) else Last(a, key)
  {
    if b == [] {
      assert a + b == a;
    } else {
      LastAppend(a, b[..|b| - 1], key);
      assert (a + b)[..|a + b| - 1] == a + b[..|b| - 1];
    }
  }

  /** Playing the rows back, oldest first, as assignments to a map. */
  function Fold(rows: seq<Row>): map<int, string> {
    if rows == [] then map[]
    else Fold(rows[..|rows| - 1])[rows[|rows| - 1].key := rows[|rows| - 1].value]
  }

  lemma {:induction false} FoldIsLast(rows: seq<Row>, key: int)
    ensures key in Fold(rows) <==> Last(rows, key).Some?
    ensures key in Fold(rows) ==> Fold(rows)[key] == Last(rows, key).value.value
  {
    if rows != [] {
      FoldIsLast(rows[..|rows| - 1], key);
    }
  }

  /** Two lists of rows answer every lookup with the same value. */
  ghost predicate SameLookups(a: seq<Row>, b: seq<Row>) {
    forall key :: SameValue(Last(a, key), Last(b, key))
  }

  predicate SameValue(a: Option<Row>, b: Option<Row>) {
    match (a, b)
    case (None, None) => true
    case (Some(r), Some(t)) => r.key == t.key && r.value == t.value
    case _ => false
  }

  lemma SameLookupsFold(a: seq<Row>, b: seq<Row>)
    requires SameLookups(a, b)
    ensures Fold(a) == Fold(b)
  {
    forall key ensures key in Fold(a) <==> key in Fold(b)
            ensures key in Fold(a) ==> Fold(a)[key] == Fold(b)[key] {
      FoldIsLast(a, key);
      FoldIsLast(b, key);
      assert SameValue(Last(a, key), Last(b, key));
    }
  }
}
