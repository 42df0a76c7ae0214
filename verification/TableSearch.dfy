/** search_storage of store.c: a table file is scanned backwards, one character at a time. */
module TableSearch {
  import opened CText
  import opened Rows

  const BUFFER_SIZE := 1024

  /** What search_storage returns for a row, or for none. */
  function Found(r: Option<Row>): Row {
    match r
    case Some(row) => row
    case None => Row(NOT_FOUND, 0, "")
  }

  /** The fields the search takes from one line: two numbers and, with its line end cut off, the value. */
  function ParseLine(buffer: string): Option<Row> {
    match Token(buffer, 0)
    case NoToken => None
    case AToken(index, p1) =>
      match Token(buffer, p1)
      case NoToken => None
      case AToken(key, p2) =>
        match Token(buffer, p2)
        case NoToken => Some(Row(Atoi(index), Atoi(key), ""))
        case AToken(token, _) =>
          var cut := token[..|token| - 1];
          Some(Row(Atoi(index), Atoi(key), if |cut| < VALUE_BUFFER_SIZE then cut else cut[..VALUE_BUFFER_SIZE - 1]))
  }

  lemma ParseRendered(r: Row)
    requires ValidRow(r)
    ensures ParseLine(RenderRow(r)) == Some(r)
  {
    hide Atoi, Token, PrintInt;
    var s := RenderRow(r);
    var (index, key, last) := (PrintInt(r.index), PrintInt(r.key), r.value + "\n");
    var (p1, p2) := (|index| + 1, |index| + 1 + |key| + 1);
    FieldsAt(s, r);
    TokenIs(s, 0, index);
    TokenIs(s, p1, key);
    TokenIs(s, p2, last);
    AtoiPrinted(r.index);
    AtoiPrinted(r.key);
    assert last[..|last| - 1] == r.value;
  }

  lemma FieldsAt(s: string, r: Row)
    requires s == RenderRow(r)
    ensures var (p1, p2) := (|PrintInt(r.index)| + 1, |PrintInt(r.index)| + 1 + |PrintInt(r.key)| + 1);
            && At(s, 0, PrintInt(r.index)) && At(s, p1, PrintInt(r.key)) && At(s, p2, r.value + "\n")
            && |s| == p2 + |r.value| + 1 && s[p1 - 1] == ' ' && s[p2 - 1] == ' '
  {
    hide PrintInt;
  }

  // ---------------------------------------------------------------- where lines start

  /** The file position at which row i starts. */
  function Offset(rows: seq<Row>, i: nat): nat
    requires i <= |rows|
  {
    |Render(rows[..i])|
  }

  /** A line standing at a position of a file: where it ends, and what fgets reads there. */
  lemma CutLine(whole: string, start: nat, line: string)
    requires At(whole, start, line + "\n")
    requires All(NotLineEnd, line) && All(NotNul, line) && |line| + 1 < BUFFER_SIZE
    ensures forall q :: start <= q < start + |line| + 1 ==> (whole[q] == '\n' <==> q == start + |line|)
    ensures Fgets(whole, start, BUFFER_SIZE) == line + "\n"
  {
    FgetsLine(whole, start, line, BUFFER_SIZE);
    forall q | start <= q < start + |line| + 1
      ensures whole[q] == '\n' <==> q == start + |line|
    {
      assert whole[q] == whole[start..start + |line| + 1][q - start];
    }
  }

  /** Row i fills the positions from its offset to the next one, and only its last character ends a line. */
  lemma LineAt(rows: seq<Row>, i: nat)
    requires ValidRows(rows) && i < |rows|
    ensures Offset(rows, i) + 6 <= Offset(rows, i + 1) <= |Render(rows)|
    ensures i + 1 == |rows| ==> Offset(rows, i + 1) == |Render(rows)|
    ensures forall q :: Offset(rows, i) <= q < Offset(rows, i + 1) ==>
              (Render(rows)[q] == '\n' <==> q == Offset(rows, i + 1) - 1)
    ensures Fgets(Render(rows), Offset(rows, i), BUFFER_SIZE) == RenderRow(rows[i])
  {
    hide RenderLine, Fgets;
    LineShape(rows[i]);
    assert rows[..i + 1] == rows[..i] + [rows[i]];
    RenderSnoc(rows[..i], rows[i]);
    assert rows == rows[..i + 1] + rows[i + 1..];
    RenderAppend(rows[..i + 1], rows[i + 1..]);
    assert At(Render(rows), Offset(rows, i), RenderRow(rows[i]));
    CutLine(Render(rows), Offset(rows, i), RenderLine(rows[i]));
  }

  lemma LastFrom(rows: seq<Row>, i: nat, key: int)
    requires i < |rows|
    requires Last(rows[i + 1..], key) == None
    ensures rows[i].key == key ==> Last(rows, key) == Some(rows[i])
    ensures rows[i].key != key ==> Last(rows[i..], key) == None
  {
    assert rows[i..] == [rows[i]] + rows[i + 1..];
    LastAppend([rows[i]], rows[i + 1..], key);
    assert rows == rows[..i] + rows[i..];
    LastAppend(rows[..i], rows[i..], key);
  }

  /** The scan is about to look for the line of row i - 1, every later row having another key; or (i == 0)
      it is still inside the first line after having read that one too. */
  ghost predicate Scanning(rows: seq<Row>, key: int, i: nat, pos: nat) {
    && i <= |rows|
    && (rows != [] ==> Last(rows[i..], key) == None)
    && (rows == [] ==> pos == 0)
    && (if i == |rows| then pos == |Render(rows)|
        else if i == 0 then pos < Offset(rows, 1)
        else pos == Offset(rows, i) - 1)
  }

  /** The inner loop walked down from `from` without meeting a line end (other than the file's last
      character) and stopped at pos. */
  ghost predicate Walked(content: string, from: nat, pos: nat) {
    && pos <= from <= |content|
    && forall q :: pos <= q < from ==> content[q] != '\n' || q == |content| - 1
  }

  /** Where the inner loop stops, the line of row i - 1 starts (row 0 again once row 0 has been read). */
  lemma LineReached(rows: seq<Row>, key: int, i: nat, from: nat, pos: nat, lineStart: nat)
    requires ValidRows(rows) && Scanning(rows, key, i, from) && from > 0
    requires || (pos == 0 && lineStart == from && Walked(Render(rows), from, 0))
             || (lineStart == pos + 1 && pos < from && Walked(Render(rows), from, pos + 1) &&
              Render(rows)[pos] == '\n' && pos != |Render(rows)| - 1)
    ensures var line := if i == 0 then 0 else i - 1;
            && line < |rows|
            && (if pos == 0 then 0 else lineStart) == Offset(rows, line)
            && (if i <= 1 then lineStart == from else lineStart == Offset(rows, line))
  {
    var line := if i == 0 then 0 else i - 1;
    LineAt(rows, line);
    assert Offset(rows, 0) == 0;
    if line > 0 {
      LineAt(rows, line - 1);
      assert Render(rows)[Offset(rows, line) - 1] == '\n';
    }
  }

  /** Reading that line either finds the answer or leaves one row less to look at. */
  lemma LineRead(rows: seq<Row>, key: int, i: nat, from: nat, lineStart: nat)
    requires ValidRows(rows) && Scanning(rows, key, i, from) && from > 0 && rows != []
    ensures var line := if i == 0 then 0 else i - 1;
            && Offset(rows, line) <= |Render(rows)|
            && Fgets(Render(rows), Offset(rows, line), BUFFER_SIZE) == RenderRow(rows[line])
            && ParseLine(RenderRow(rows[line])) == Some(rows[line])
            && (rows[line].key == key ==> Last(rows, key) == Some(rows[line]))
            && (rows[line].key != key && lineStart == (if i <= 1 then from else Offset(rows, line)) ==>
                  Scanning(rows, key, line, lineStart - 1))
  {
    var line := if i == 0 then 0 else i - 1;
    LineAt(rows, line);
    ParseRendered(rows[line]);
    if i > 0 {
      LastFrom(rows, line, key);
    } else {
      assert rows[0..] == rows;
    }
  }

  lemma ScanEnds(rows: seq<Row>, key: int, i: nat)
    requires ValidRows(rows) && Scanning(rows, key, i, 0)
    ensures Last(rows, key) == None
  {
    if i > 0 {
      LineAt(rows, i - 1);
    } else if rows != [] {
      assert rows[0..] == rows;
    }
  }

  /** search_storage. Whatever the file holds, the scan ends; in a table file it finds the last row with the key. */
  method SearchStorage(content: string, searchKey: int, ghost rows: seq<Row>) returns (result: Row)
    ensures ValidRows(rows) && content == Render(rows) ==> result == Found(Last(rows, searchKey))
  {
    ghost var isTable := ValidRows(rows) && content == Render(rows);
    ghost var i: nat := |rows|;
    result := Found(None);
    var lastPos := |content|;
    var pos := lastPos;
    while pos > 0
      invariant 0 <= pos <= lastPos
      invariant result == Found(None)
      invariant isTable ==> Scanning(rows, searchKey, i, pos)
      decreases pos
    {
      var lineStart := pos;
      ghost var from: nat := pos;
      while pos > 0
        invariant 0 <= pos <= from == lineStart
        invariant Walked(content, from, pos)
      {
        pos := pos - 1;
        if content[pos] == '\n' && pos != lastPos - 1 {
          lineStart := pos + 1;
          break;
        }
      }
      var at := if pos == 0 then 0 else lineStart;
      var buffer := Fgets(content, at, BUFFER_SIZE);
      if isTable {
        LineReached(rows, searchKey, i, from, pos, lineStart);
        LineRead(rows, searchKey, i, from, lineStart);
      }
      if at == lastPos {
        break;
      }
      var parsed := ParseLine(buffer);
      if parsed.Some? && parsed.value.key == searchKey {
        result := parsed.value;
        return;
      }
      pos := lineStart - 1;
      i := if i == 0 then 0 else i - 1;
    }
    if isTable {
      ScanEnds(rows, searchKey, i);
    }
  }
}
