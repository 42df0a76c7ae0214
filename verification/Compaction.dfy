/** The array work of merge in store.c: collecting rows, sorting them by key, keeping the last row of each
    key and numbering the rest again, all inside one buffer. */
module Compaction {
  import opened CText
  import opened Rows

  // ---------------------------------------------------------------- stable sorting

  predicate SortedByKey(s: seq<Row>) {
    forall i, j :: 0 <= i < j < |s| ==> s[i].key <= s[j].key
  }

  predicate StrictlyByKey(s: seq<Row>) {
    forall i, j :: 0 <= i < j < |s| ==> s[i].key < s[j].key
  }

  /** The rows with one key, in their order. */
  function WithKey(s: seq<Row>, key: int): (r: seq<Row>)
    ensures s == [] ==> r == []
    ensures forall i :: 0 <= i < |r| ==> r[i].key == key && r[i] in s
  {
    if s == [] then []
    else if s[|s| - 1].key == key then WithKey(s[..|s| - 1], key) + [s[|s| - 1]]
    else WithKey(s[..|s| - 1], key)
  }

  /** b holds the rows of a, and rows with equal keys stand in the same order. */
  ghost predicate StablePermutation(a: seq<Row>, b: seq<Row>) {
    forall key :: WithKey(a, key) == WithKey(b, key)
  }

  lemma {:induction false} CountWithKey(s: seq<Row>, r: Row)
    ensures multiset(s)[r] == multiset(WithKey(s, r.key))[r]
  {
    if s != [] {
      CountWithKey(s[..|s| - 1], r);
      assert s == s[..|s| - 1] + [s[|s| - 1]];
    }
  }

  /** In particular no row is lost, invented or repeated. */
  lemma StableKeepsRows(a: seq<Row>, b: seq<Row>)
    requires StablePermutation(a, b)
    ensures multiset(a) == multiset(b)
  {
    forall r ensures multiset(a)[r] == multiset(b)[r] {
      CountWithKey(a, r);
      CountWithKey(b, r);
    }
  }

  lemma {:induction false} WithKeyAppend(a: seq<Row>, b: seq<Row>, key: int)
    ensures WithKey(a + b, key) == WithKey(a, key) + WithKey(b, key)
  {
    if b == [] {
      assert a + b == a;
    } else {
      WithKeyAppend(a, b[..|b| - 1], key);
      assert (a + b)[..|a + b| - 1] == a + b[..|b| - 1];
    }
  }

  /** The last row of a key is the last one among the rows with this key. */
  lemma {:induction false} LastOfWithKey(s: seq<Row>, key: int)
    ensures WithKey(s, key) == [] <==> Last(s, key).None?
    ensures WithKey(s, key) != [] ==> Last(s, key) == Some(WithKey(s, key)[|WithKey(s, key)| - 1])
  {
    if s != [] {
      LastOfWithKey(s[..|s| - 1], key);
    }
  }

  lemma StableKeepsLast(a: seq<Row>, b: seq<Row>, key: int)
    requires WithKey(a, key) == WithKey(b, key)
    ensures Last(a, key) == Last(b, key)
  {
    LastOfWithKey(a, key);
    LastOfWithKey(b, key);
  }

  /** There is only one stable sorting of a list: the sort's specification leaves no choice. */
  lemma {:induction false} StableSortIsUnique(a: seq<Row>, b: seq<Row>)
    requires SortedByKey(a) && SortedByKey(b)
    requires StablePermutation(a, b)
    ensures a == b
    decreases |a|
  {
    if a == [] || b == [] {
      if a != [] {
        HasRow(a);
      } else if b != [] {
        HasRow(b);
      }
    } else {
      var (a', b') := (a[..|a| - 1], b[..|b| - 1]);
      var (x, y) := (a[|a| - 1], b[|b| - 1]);
      assert WithKey(a, x.key) == WithKey(a', x.key) + [x];
      assert WithKey(b, y.key) == WithKey(b', y.key) + [y];
      LargestKeyLast(a, y.key);
      LargestKeyLast(b, x.key);
      assert x.key == y.key;
      SameFront(WithKey(a', x.key), x, WithKey(b', x.key), y);
      forall key ensures WithKey(a', key) == WithKey(b', key) {
        assert WithKey(a, key) == WithKey(b, key);
      }
      StableSortIsUnique(a', b');
      assert a == a' + [x] && b == b' + [y];
    }
  }

  lemma SameFront(s: seq<Row>, x: Row, t: seq<Row>, y: Row)
    requires s + [x] == t + [y]
    ensures s == t && x == y
  {
    assert (s + [x])[..|s|] == s && (t + [y])[..|t|] == t;
    assert (s + [x])[|s|] == x && (t + [y])[|t|] == y;
  }

  lemma HasRow(s: seq<Row>)
    requires s != []
    ensures WithKey(s, s[|s| - 1].key) != []
  {
  }

  lemma LargestKeyLast(s: seq<Row>, key: int)
    requires SortedByKey(s) && s != []
    ensures WithKey(s, key) != [] ==> key <= s[|s| - 1].key
  {
    if WithKey(s, key) != [] {
      var r := WithKey(s, key)[0];
      assert r in s && r.key == key;
    }
  }

  /** Exchanging neighbours with different keys keeps every key's order. */
  lemma SwapNeighbours(front: seq<Row>, x: Row, y: Row, back: seq<Row>)
    requires x.key != y.key
    ensures StablePermutation(front + [x, y] + back, front + [y, x] + back)
  {
    forall key ensures WithKey(front + [x, y] + back, key) == WithKey(front + [y, x] + back, key) {
      WithKeyAppend(front + [x, y], back, key);
      WithKeyAppend(front + [y, x], back, key);
      WithKeyAppend(front, [x, y], key);
      WithKeyAppend(front, [y, x], key);
      TwoRows(x, y, key);
      TwoRows(y, x, key);
    }
  }

  lemma TwoRows(x: Row, y: Row, key: int)
    ensures WithKey([x, y], key) == (if x.key == key then [x] else []) + (if y.key == key then [y] else [])
  {
    assert [x, y][..1] == [x] && [x][..0] == [];
    assert WithKey([x], key) == if x.key == key then [x] else [];
  }

  lemma StableReflexive(s: seq<Row>)
    ensures StablePermutation(s, s)
  {
  }

  lemma StableTransitive(a: seq<Row>, b: seq<Row>, c: seq<Row>)
    requires StablePermutation(a, b) && StablePermutation(b, c)
    ensures StablePermutation(a, c)
  {
    forall key ensures WithKey(a, key) == WithKey(c, key) {
      assert WithKey(a, key) == WithKey(b, key);
    }
  }

  lemma StableAppend(a: seq<Row>, b: seq<Row>, x: Row)
    requires StablePermutation(a, b)
    ensures StablePermutation(a + [x], b + [x])
  {
    forall key ensures WithKey(a + [x], key) == WithKey(b + [x], key) {
      WithKeyAppend(a, [x], key);
      WithKeyAppend(b, [x], key);
      assert WithKey(a, key) == WithKey(b, key);
    }
  }

  /** sort_by_key, as the stable sort the store relies on: insertion of each row behind its equals. */
  method SortByKey(temp: array<Row>, cnt: nat)
    requires cnt <= temp.Length
    modifies temp
    ensures SortedByKey(temp[..cnt])
    ensures StablePermutation(old(temp[..cnt]), temp[..cnt])
    ensures temp[cnt..] == old(temp[cnt..])
  {
    hide StablePermutation;
    StableReflexive(temp[..cnt]);
    for i := 0 to cnt
      invariant SortedByKey(temp[..i])
      invariant StablePermutation(old(temp[..cnt]), temp[..cnt])
      invariant temp[cnt..] == old(temp[cnt..])
    {
      ghost var before := temp[..cnt];
      InsertLast(temp, i, cnt);
      StableTransitive(old(temp[..cnt]), before, temp[..cnt]);
    }
  }

  /** Moves row i down behind the last row whose key is not larger. */
  method InsertLast(temp: array<Row>, i: nat, cnt: nat)
    requires i < cnt <= temp.Length
    requires SortedByKey(temp[..i])
    modifies temp
    ensures SortedByKey(temp[..i + 1])
    ensures StablePermutation(old(temp[..cnt]), temp[..cnt])
    ensures temp[cnt..] == old(temp[cnt..])
  {
    hide StablePermutation;
    StableReflexive(temp[..cnt]);
    var j := i;
    assert forall p :: 0 <= p < i ==> temp[p] == temp[..i][p];
    while j > 0 && temp[j - 1].key > temp[j].key
      invariant 0 <= j <= i
      invariant forall p, q :: 0 <= p < q <= i && p != j && q != j ==> temp[p].key <= temp[q].key
      invariant forall q :: j < q <= i ==> temp[j].key < temp[q].key
      invariant StablePermutation(old(temp[..cnt]), temp[..cnt])
      invariant temp[cnt..] == old(temp[cnt..])
    {
      ghost var before := temp[..cnt];
      SwapDown(temp, j, cnt);
      StableTransitive(old(temp[..cnt]), before, temp[..cnt]);
      j := j - 1;
    }
  }

  method SwapDown(temp: array<Row>, j: nat, cnt: nat)
    requires 0 < j < cnt <= temp.Length && temp[j - 1].key > temp[j].key
    modifies temp
    ensures temp[j - 1] == old(temp[j]) && temp[j] == old(temp[j - 1])
    ensures forall p :: 0 <= p < temp.Length && p != j - 1 && p != j ==> temp[p] == old(temp[p])
    ensures StablePermutation(old(temp[..cnt]), temp[..cnt])
  {
    ghost var s := temp[..cnt];
    temp[j - 1], temp[j] := temp[j], temp[j - 1];
    assert s == s[..j - 1] + [s[j - 1], s[j]] + s[j + 1..];
    assert temp[..cnt] == s[..j - 1] + [s[j], s[j - 1]] + s[j + 1..];
    SwapNeighbours(s[..j - 1], s[j - 1], s[j], s[j + 1..]);
  }

  // ---------------------------------------------------------------- one row per key

  /** What is left when every row directly followed by one with the same key is dropped. */
  function Dedup(s: seq<Row>): (r: seq<Row>)
    ensures |r| <= |s|
    ensures forall x :: x in r ==> x in s
    ensures s != [] ==> r != []
  {
    if |s| < 2 then s
    else if s[0].key == s[1].key then Dedup(s[1..])
    else [s[0]] + Dedup(s[1..])
  }

  /** Dropping a row that a later one overrides changes no lookup. */
  lemma {:induction false} DedupKeepsLast(s: seq<Row>, key: int)
    ensures Last(Dedup(s), key) == Last(s, key)
  {
    if |s| >= 2 {
      DedupKeepsLast(s[1..], key);
      assert s == [s[0]] + s[1..];
      LastAppend([s[0]], s[1..], key);
      LastAppend([s[0]], Dedup(s[1..]), key);
      if s[0].key == s[1].key == key {
        assert Last(s[1..], key).Some? by {
          assert s[1..][0].key == key;
        }
      }
      assert [s[0]][..0] == [];
    }
  }

  /** On a sorted list one row is left for each key. */
  lemma {:induction false} DedupStrict(s: seq<Row>)
    requires SortedByKey(s)
    ensures StrictlyByKey(Dedup(s))
    ensures s != [] ==> Dedup(s) != [] && Dedup(s)[0].key == s[0].key
  {
    if |s| >= 2 {
      DedupStrict(s[1..]);
    }
  }

  /** remove_duplicates: reading at i and writing at writePos <= i, no row is overwritten before it is read. */
  method RemoveDuplicates(temp: array<Row>, cnt: nat) returns (newCnt: nat)
    requires cnt <= temp.Length
    modifies temp
    ensures newCnt <= cnt
    ensures temp[..newCnt] == Dedup(old(temp[..cnt]))
    ensures temp[cnt..] == old(temp[cnt..])
  {
    hide Dedup;
    var writePos := 0;
    ghost var s := temp[..cnt];
    assert s[0..] == s;
    for i := 0 to cnt
      invariant 0 <= writePos <= i
      invariant forall j :: i <= j < cnt ==> temp[j] == s[j]
      invariant temp[..writePos] + Dedup(s[i..]) == Dedup(s)
      invariant temp[cnt..] == old(temp[cnt..])
    {
      DedupStep(s, i);
      if i + 1 < cnt && temp[i].key == temp[i + 1].key {
        continue;
      }
      ghost var kept := temp[..writePos];
      temp[writePos] := temp[i];
      writePos := writePos + 1;
      assert temp[..writePos] == kept + [s[i]];
      Assoc(kept, [s[i]], Dedup(s[i + 1..]));
    }
    newCnt := writePos;
    assert s[cnt..] == [];
    NoDuplicates();
  }

  lemma NoDuplicates()
    ensures Dedup([]) == []
  {
  }

  lemma DedupStep(s: seq<Row>, i: nat)
    requires i < |s|
    ensures Dedup(s[i..]) == if i + 1 < |s| && s[i].key == s[i + 1].key then Dedup(s[i + 1..])
                             else [s[i]] + Dedup(s[i + 1..])
  {
    assert s[i..][1..] == s[i + 1..];
  }

  // ---------------------------------------------------------------- new row numbers

  function Renumber(s: seq<Row>): (r: seq<Row>)
    ensures |r| == |s|
    ensures forall i :: 0 <= i < |s| ==> r[i] == Row(i + 1, s[i].key, s[i].value)
  {
    seq(|s|, i requires 0 <= i < |s| => s[i].(index := i + 1))
  }

  lemma {:induction false} RenumberKeepsValue(s: seq<Row>, key: int)
    ensures SameValue(Last(Renumber(s), key), Last(s, key))
  {
    if s != [] {
      RenumberKeepsValue(s[..|s| - 1], key);
      assert Renumber(s)[..|s| - 1] == Renumber(s[..|s| - 1]);
    }
  }

  /** reindex */
  method Reindex(temp: array<Row>, cnt: nat)
    requires cnt <= temp.Length
    modifies temp
    ensures temp[..cnt] == Renumber(old(temp[..cnt]))
    ensures temp[cnt..] == old(temp[cnt..])
  {
    for i := 0 to cnt
      invariant forall j :: 0 <= j < i ==> temp[j] == old(temp[j]).(index := j + 1)
      invariant forall j :: i <= j < temp.Length ==> temp[j] == old(temp[j])
    {
      temp[i] := temp[i].(index := i + 1);
    }
  }
}
