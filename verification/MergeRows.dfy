/** The rows merge of store.c writes, as a function of the rows it reads. */
module MergeRows {
  import opened Rows
  import opened Compaction

  /** The stable sorting of s. */
  function StableSort(s: seq<Row>): (r: seq<Row>)
    ensures |r| == |s|
  {
    if s == [] then [] else Insert(StableSort(s[..|s| - 1]), s[|s| - 1])
  }

  function Insert(s: seq<Row>, r: Row): (t: seq<Row>)
    ensures |t| == |s| + 1
  {
    if s == [] || s[|s| - 1].key <= r.key then s + [r]
    else Insert(s[..|s| - 1], r) + [s[|s| - 1]]
  }

  lemma {:induction false} InsertSorted(s: seq<Row>, r: Row)
    requires SortedByKey(s)
    ensures SortedByKey(Insert(s, r))
    ensures forall x :: x in Insert(s, r) ==> x in s || x == r
  {
    if s != [] && s[|s| - 1].key > r.key {
      var front := s[..|s| - 1];
      InsertSorted(front, r);
      forall i | 0 <= i < |Insert(front, r)| ensures Insert(front, r)[i].key <= s[|s| - 1].key {
        assert Insert(front, r)[i] in front || Insert(front, r)[i] == r;
      }
    }
  }

  lemma {:induction false} InsertStable(s: seq<Row>, r: Row)
    ensures StablePermutation(s + [r], Insert(s, r))
  {
    if s != [] && s[|s| - 1].key > r.key {
      hide StablePermutation;
      var (front, x) := (s[..|s| - 1], s[|s| - 1]);
      InsertStable(front, r);
      StableAppend(front + [r], Insert(front, r), x);
      SwapNeighbours(front, x, r, []);
      assert s + [r] == front + [x, r] + [] && front + [r, x] + [] == (front + [r]) + [x];
      StableTransitive(s + [r], (front + [r]) + [x], Insert(s, r));
    }
  }

  lemma {:induction false} StableSortSpec(s: seq<Row>)
    ensures SortedByKey(StableSort(s))
    ensures StablePermutation(s, StableSort(s))
  {
    if s != [] {
      hide StablePermutation;
      var (front, x) := (s[..|s| - 1], s[|s| - 1]);
      StableSortSpec(front);
      InsertSorted(StableSort(front), x);
      InsertStable(StableSort(front), x);
      StableAppend(front, StableSort(front), x);
      assert s == front + [x];
      StableTransitive(s, StableSort(front) + [x], StableSort(s));
    }
  }

  /** The rows of the merged table. */
  function Compact(s: seq<Row>): seq<Row> {
    Renumber(Dedup(StableSort(s)))
  }

  function KeysOf(s: seq<Row>): set<int> {
    set r | r in s :: r.key
  }

  lemma KeysAreLookups(s: seq<Row>, key: int)
    ensures key in KeysOf(s) <==> Last(s, key).Some?
  {
    if key in KeysOf(s) {
      var r :| r in s && r.key == key;
    }
  }

  lemma SameLookupsSameKeys(a: seq<Row>, b: seq<Row>)
    requires SameLookups(a, b)
    ensures KeysOf(a) == KeysOf(b)
  {
    forall key ensures key in KeysOf(a) <==> key in KeysOf(b) {
      KeysAreLookups(a, key);
      KeysAreLookups(b, key);
      assert SameValue(Last(a, key), Last(b, key));
    }
  }

  lemma {:induction false} StrictKeyCount(s: seq<Row>)
    requires StrictlyByKey(s)
    ensures |KeysOf(s)| == |s|
  {
    if s != [] {
      var (front, x) := (s[..|s| - 1], s[|s| - 1]);
      StrictKeyCount(front);
      assert s == front + [x];
      assert KeysOf(s) == KeysOf(front) + {x.key};
      assert x.key !in KeysOf(front);
    }
  }

  /** After the sort and the dropping of duplicates each key has the row that came last before. */
  lemma KeepsLastRows(s: seq<Row>, key: int)
    ensures Last(Dedup(StableSort(s)), key) == Last(s, key)
  {
    StableSortSpec(s);
    StableKeepsLast(s, StableSort(s), key);
    DedupKeepsLast(StableSort(s), key);
  }

  /** A merged table answers every lookup like the rows it was made from. */
  lemma CompactKeepsLookups(s: seq<Row>)
    ensures SameLookups(s, Compact(s))
  {
    forall key ensures SameValue(Last(s, key), Last(Compact(s), key)) {
      KeepsLastRows(s, key);
      RenumberKeepsValue(Dedup(StableSort(s)), key);
    }
  }

  /** Its keys ascend strictly, its rows are numbered from 1, and there is one row for each distinct key. */
  lemma CompactShape(s: seq<Row>)
    ensures StrictlyByKey(Compact(s))
    ensures forall i :: 0 <= i < |Compact(s)| ==> Compact(s)[i].index == i + 1
    ensures KeysOf(Compact(s)) == KeysOf(s)
    ensures |Compact(s)| == |KeysOf(s)| <= |s|
    ensures s != [] ==> Compact(s) != []
  {
    StableSortSpec(s);
    DedupStrict(StableSort(s));
    StrictKeyCount(Compact(s));
    CompactKeepsLookups(s);
    SameLookupsSameKeys(s, Compact(s));
    KeyCountBound(s);
  }

  lemma {:induction false} KeyCountBound(s: seq<Row>)
    ensures |KeysOf(s)| <= |s|
  {
    if s != [] {
      KeyCountBound(s[..|s| - 1]);
      assert s == s[..|s| - 1] + [s[|s| - 1]];
      assert KeysOf(s) == KeysOf(s[..|s| - 1]) + {s[|s| - 1].key};
    }
  }

  lemma CompactValid(s: seq<Row>)
    requires ValidRows(s) && |s| <= INT_MAX
    ensures ValidRows(Compact(s))
  {
    CompactShape(s);
    StableSortSpec(s);
    StableKeepsRows(s, StableSort(s));
    forall i | 0 <= i < |Compact(s)| ensures ValidRow(Compact(s)[i]) {
      var r := Dedup(StableSort(s))[i];
      assert r in StableSort(s) && r in multiset(StableSort(s)) && r in multiset(s);
    }
  }

  // ---------------------------------------------------------------- the buffer

  /** The fscanf loop of merge: appends every row of one file to the buffer. */
  method ReadTable(content: string, temp: array<Row>, cnt: nat) returns (newCnt: nat)
    requires cnt + |ScanAll(content, 0)| <= temp.Length
    modifies temp
    ensures newCnt == cnt + |ScanAll(content, 0)|
    ensures temp[..newCnt] == old(temp[..cnt]) + ScanAll(content, 0)
  {
    hide ScanRow;
    var pos := 0;
    newCnt := cnt;
    while true
      invariant 0 <= pos <= |content| && cnt <= newCnt
      invariant newCnt + |ScanAll(content, pos)| == cnt + |ScanAll(content, 0)|
      invariant temp[..newCnt] + ScanAll(content, pos) == old(temp[..cnt]) + ScanAll(content, 0)
      decreases |content| - pos
    {
      var next := ScanRow(content, pos);
      if next == NoRow {
        break;
      }
      temp[newCnt] := next.row;
      newCnt, pos := newCnt + 1, next.end;
    }
  }

  /** sort_by_key, remove_duplicates and reindex one after the other, in place. */
  method CompactInPlace(temp: array<Row>, cnt: nat) returns (newCnt: nat)
    requires cnt <= temp.Length
    modifies temp
    ensures newCnt <= cnt
    ensures temp[..newCnt] == Compact(old(temp[..cnt]))
  {
    ghost var rows := temp[..cnt];
    SortByKey(temp, cnt);
    StableSortSpec(rows);
    forall key ensures WithKey(temp[..cnt], key) == WithKey(StableSort(rows), key) {
      assert WithKey(rows, key) == WithKey(temp[..cnt], key);
      assert WithKey(rows, key) == WithKey(StableSort(rows), key);
    }
    StableSortIsUnique(temp[..cnt], StableSort(rows));
    newCnt := RemoveDuplicates(temp, cnt);
    Reindex(temp, newCnt);
  }
}
