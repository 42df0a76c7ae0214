/** The list of table files in store.c: a doubly linked list whose nodes live in a pool of 20 slots. */
module StoragePool {
  import opened CText

  const META_LIST_CNT := 20
  const NULL := -1

  /** struct storage_meta of store.h; prev and next are slot numbers, or NULL. */
  datatype Slot = Slot(index: int, filename: string, prev: int, next: int)

  /** What a node says about a table. */
  datatype Meta = Meta(index: int, filename: string)

  // ---------------------------------------------------------------- well-formed pools

  ghost predicate Distinct(chain: seq<int>) {
    forall i, j :: 0 <= i < j < |chain| ==> chain[i] != chain[j]
  }

  function SlotOr(chain: seq<int>, i: int): int {
    if 0 <= i < |chain| then chain[i] else NULL
  }

  ghost predicate InPool(chain: seq<int>, n: nat) {
    forall i :: 0 <= i < |chain| ==> 0 <= chain[i] < n
  }

  ghost predicate NextAlong(s: seq<Slot>, chain: seq<int>)
    requires InPool(chain, |s|)
  {
    forall i {:trigger s[chain[i]].next} :: 0 <= i < |chain| ==> s[chain[i]].next == SlotOr(chain, i + 1)
  }

  ghost predicate PrevAlong(s: seq<Slot>, chain: seq<int>)
    requires InPool(chain, |s|)
  {
    forall i {:trigger s[chain[i]].prev} :: 0 <= i < |chain| ==> s[chain[i]].prev == SlotOr(chain, i - 1)
  }

  ghost predicate UsedOn(s: seq<Slot>, chain: seq<int>) {
    forall j :: 0 <= j < |s| ==> (s[j].index != 0 <==> j in chain)
  }

  ghost predicate AscendingAlong(s: seq<Slot>, chain: seq<int>)
    requires InPool(chain, |s|)
  {
    forall i, j :: 0 <= i < j < |chain| ==> s[chain[i]].index <= s[chain[j]].index
  }

  /** chain lists the used slots from head to tail: next runs forwards through it and prev backwards, the
      indices ascend along it, and a slot has index 0 exactly when it is not on it. */
  ghost predicate Linked(s: seq<Slot>, head: int, tail: int, chain: seq<int>) {
    && |s| == META_LIST_CNT
    && InPool(chain, |s|) && Distinct(chain)
    && head == SlotOr(chain, 0) && tail == SlotOr(chain, |chain| - 1)
    && NextAlong(s, chain) && PrevAlong(s, chain)
    && UsedOn(s, chain) && AscendingAlong(s, chain)
  }

  /** The entries of the list, from head to tail. */
  function Entries(s: seq<Slot>, chain: seq<int>): (e: seq<Meta>)
    requires InPool(chain, |s|)
    ensures |e| == |chain|
    ensures forall i {:trigger e[i]} :: 0 <= i < |e| ==> e[i] == Meta(s[chain[i]].index, s[chain[i]].filename)
  {
    seq(|chain|, i requires 0 <= i < |chain| => Meta(s[chain[i]].index, s[chain[i]].filename))
  }

  /** How many leading entries have a smaller index. */
  function Rank(e: seq<Meta>, index: int): (r: nat)
    ensures r <= |e|
    ensures forall i :: 0 <= i < r ==> e[i].index < index
    ensures r < |e| ==> index <= e[r].index
  {
    if e == [] || index <= e[0].index then 0 else 1 + Rank(e[1..], index)
  }

  function InsertEntry(e: seq<Meta>, m: Meta): seq<Meta> {
    e[..Rank(e, m.index)] + [m] + e[Rank(e, m.index)..]
  }

  /** The list after insert_node: with no free slot nothing happens. */
  function Inserted(e: seq<Meta>, m: Meta): seq<Meta> {
    if |e| < META_LIST_CNT then InsertEntry(e, m) else e
  }

  // ---------------------------------------------------------------- walking the pointers

  /** The slots met when following next from p. */
  function Forwards(s: seq<Slot>, p: int, steps: nat): seq<int>
    decreases steps
  {
    if steps == 0 || !(0 <= p < |s|) then [] else [p] + Forwards(s, s[p].next, steps - 1)
  }

  /** The slots met when following prev from p. */
  function Backwards(s: seq<Slot>, p: int, steps: nat): seq<int>
    decreases steps
  {
    if steps == 0 || !(0 <= p < |s|) then [] else [p] + Backwards(s, s[p].prev, steps - 1)
  }

  function Reverse<T>(s: seq<T>): (r: seq<T>)
    ensures |r| == |s|
    ensures forall i :: 0 <= i < |s| ==> r[i] == s[|s| - 1 - i]
  {
    seq(|s|, i requires 0 <= i < |s| => s[|s| - 1 - i])
  }

  lemma {:induction false} ForwardsFrom(s: seq<Slot>, chain: seq<int>, i: nat, steps: nat)
    requires InPool(chain, |s|) && NextAlong(s, chain) && i <= |chain| <= i + steps
    ensures Forwards(s, SlotOr(chain, i), steps) == chain[i..]
    decreases steps
  {
    if i < |chain| {
      ForwardsFrom(s, chain, i + 1, steps - 1);
      assert s[chain[i]].next == SlotOr(chain, i + 1);
    }
  }

  lemma {:induction false} BackwardsFrom(s: seq<Slot>, chain: seq<int>, i: nat, steps: nat)
    requires InPool(chain, |s|) && PrevAlong(s, chain) && i <= |chain| && i <= steps
    ensures Backwards(s, SlotOr(chain, i - 1), steps) == Reverse(chain[..i])
    decreases steps
  {
    if i > 0 {
      BackwardsFrom(s, chain, i - 1, steps - 1);
      assert s[chain[i - 1]].prev == SlotOr(chain, i - 2);
      assert Reverse(chain[..i]) == [chain[i - 1]] + Reverse(chain[..i - 1]);
    }
  }

  // ---------------------------------------------------------------- counting slots

  function UpTo(n: nat): (r: set<int>)
    ensures forall j :: j in r <==> 0 <= j < n
    ensures |r| == n
  {
    if n == 0 then {} else UpTo(n - 1) + {n - 1}
  }

  function SetOf(chain: seq<int>): (r: set<int>)
    requires Distinct(chain)
    ensures forall j :: j in r <==> j in chain
    ensures |r| == |chain|
  {
    if chain == [] then {}
    else
      assert chain == chain[..|chain| - 1] + [chain[|chain| - 1]];
      SetOf(chain[..|chain| - 1]) + {chain[|chain| - 1]}
  }

  lemma {:induction false} SubsetCount<T>(a: set<T>, b: set<T>)
    requires a <= b
    ensures |a| <= |b|
    decreases a
  {
    if a != {} {
      var x :| x in a;
      assert |a - {x}| == |a| - 1;
      SubsetCount(a - {x}, b - {x});
    }
  }

  /** A chain is full exactly when no slot is free. */
  lemma ChainFits(s: seq<Slot>, chain: seq<int>)
    requires InPool(chain, |s|) && Distinct(chain) && UsedOn(s, chain)
    ensures |chain| <= |s|
    ensures |chain| == |s| <==> forall j :: 0 <= j < |s| ==> s[j].index != 0
  {
    var (used, all) := (SetOf(chain), UpTo(|s|));
    SubsetCount(used, all);
    if forall j :: 0 <= j < |s| ==> s[j].index != 0 {
      SubsetCount(all, used);
    } else {
      var j :| 0 <= j < |s| && s[j].index == 0;
      SubsetCount(used, all - {j});
    }
  }

  /** What the pointers themselves show: following next from head meets every used slot once, in ascending
      order of index, and ends; following prev from tail meets the same slots in exactly the reverse order. */
  lemma PointersAgree(s: seq<Slot>, head: int, tail: int, chain: seq<int>)
    requires Linked(s, head, tail, chain)
    ensures Forwards(s, head, META_LIST_CNT) == chain
    ensures Backwards(s, tail, META_LIST_CNT) == Reverse(chain)
    ensures forall j :: 0 <= j < |s| ==> (s[j].index != 0 <==> j in Forwards(s, head, META_LIST_CNT))
  {
    ChainFits(s, chain);
    ForwardsFrom(s, chain, 0, META_LIST_CNT);
    BackwardsFrom(s, chain, |chain|, META_LIST_CNT);
    assert chain[..|chain|] == chain && chain[0..] == chain;
  }

  /** The slots in use. */
  function UsedSlots(s: seq<Slot>): (r: set<int>)
    ensures forall j :: j in r <==> 0 <= j < |s| && s[j].index != 0
  {
    set j | j in UpTo(|s|) && s[j].index != 0
  }

  /** What storage_cnt counts along the list is the number of slots in use. */
  lemma CountsUsedSlots(s: seq<Slot>, head: int, tail: int, chain: seq<int>)
    requires Linked(s, head, tail, chain)
    ensures |UsedSlots(s)| == |chain|
  {
    hide NextAlong, PrevAlong, AscendingAlong, Distinct;
    UsedAreOn(s, chain);
    assert UsedSlots(s) == SetOf(chain);
  }

  lemma UsedAreOn(s: seq<Slot>, chain: seq<int>)
    requires InPool(chain, |s|) && UsedOn(s, chain)
    ensures forall j :: j in UsedSlots(s) <==> j in chain
  {
  }

  // ---------------------------------------------------------------- pointer surgery

  function Splice<T>(s: seq<T>, at: nat, x: T): (r: seq<T>)
    requires at <= |s|
    ensures |r| == |s| + 1
    ensures forall k :: 0 <= k < |r| ==> r[k] == if k < at then s[k] else if k == at then x else s[k - 1]
  {
    s[..at] + [x] + s[at..]
  }

  /** t is s with the free slot i entered in front of position `at` of the chain, and nothing else changed. */
  ghost predicate Entered(s: seq<Slot>, t: seq<Slot>, chain: seq<int>, at: nat, i: nat, m: Meta)
    requires at <= |chain| && i < |s|
  {
    && |t| == |s|
    && t[i] == Slot(m.index, m.filename, SlotOr(chain, at - 1), SlotOr(chain, at))
    && (forall j :: 0 <= j < |s| && j != i ==>
          t[j] == Slot(s[j].index, s[j].filename,
                       if j == SlotOr(chain, at) then i else s[j].prev,
                       if j == SlotOr(chain, at - 1) then i else s[j].next))
  }

  /** A free slot is on no chain of used ones. */
  lemma FreeOffChain(s: seq<Slot>, chain: seq<int>, i: nat)
    requires i < |s| && UsedOn(s, chain) && s[i].index == 0
    ensures i !in chain && forall k :: 0 <= k < |chain| ==> chain[k] != i
  {
  }

  /** The two nodes between which a slot is entered. */
  lemma Neighbours(s: seq<Slot>, head: int, tail: int, chain: seq<int>, at: nat, i: nat)
    requires Linked(s, head, tail, chain) && at <= |chain| && chain != [] && i < |s| && s[i].index == 0
    ensures head == chain[0] && tail == chain[|chain| - 1]
    ensures 0 <= head < |s| && 0 <= tail < |s| && head != i && tail != i
    ensures SlotOr(chain, at) == head <==> at == 0
    ensures SlotOr(chain, at) == NULL <==> at == |chain|
    ensures SlotOr(chain, at) != NULL ==>
              && SlotOr(chain, at) == chain[at] && 0 <= chain[at] < |s| && chain[at] != i
              && s[chain[at]].prev == SlotOr(chain, at - 1)
    ensures at > 0 ==>
              && SlotOr(chain, at - 1) == chain[at - 1] && 0 <= chain[at - 1] < |s|
              && chain[at - 1] != i && chain[at - 1] != SlotOr(chain, at)
  {
    FreeOffChain(s, chain, i);
  }

  // The pool after the pointer updates of insert_node, for each place to enter slot i.

  function FirstOf(s: seq<Slot>, i: int, m: Meta, head: int): seq<Slot>
    requires 0 <= i < |s| && 0 <= head < |s|
  {
    s[i := Slot(m.index, m.filename, NULL, head)][head := s[head].(prev := i)]
  }

  function LastOf(s: seq<Slot>, i: int, m: Meta, tail: int): seq<Slot>
    requires 0 <= i < |s| && 0 <= tail < |s|
  {
    s[i := Slot(m.index, m.filename, tail, NULL)][tail := s[tail].(next := i)]
  }

  function Between(s: seq<Slot>, i: int, m: Meta, prev: int, current: int): seq<Slot>
    requires 0 <= i < |s| && 0 <= prev < |s| && 0 <= current < |s|
  {
    s[i := Slot(m.index, m.filename, prev, current)]
     [current := s[current].(prev := i)][prev := s[prev].(next := i)]
  }

  lemma EnteredFirst(s: seq<Slot>, head: int, tail: int, chain: seq<int>, i: nat, m: Meta)
    requires Linked(s, head, tail, chain) && chain != [] && i < |s| && s[i].index == 0 && 0 <= head < |s|
    ensures Entered(s, FirstOf(s, i, m, head), chain, 0, i, m)
  {
    Neighbours(s, head, tail, chain, 0, i);
  }

  lemma EnteredLast(s: seq<Slot>, head: int, tail: int, chain: seq<int>, i: nat, m: Meta)
    requires Linked(s, head, tail, chain) && chain != [] && i < |s| && s[i].index == 0 && 0 <= tail < |s|
    ensures Entered(s, LastOf(s, i, m, tail), chain, |chain|, i, m)
  {
    Neighbours(s, head, tail, chain, |chain|, i);
  }

  lemma EnteredBetween(s: seq<Slot>, chain: seq<int>, at: nat, i: nat, m: Meta)
    requires 0 < at < |chain| && i < |s| && 0 <= chain[at] < |s| && 0 <= chain[at - 1] < |s|
    requires i != chain[at] && i != chain[at - 1] && chain[at] != chain[at - 1]
    ensures Entered(s, Between(s, i, m, chain[at - 1], chain[at]), chain, at, i, m)
  {
  }

  lemma EmptyList(s: seq<Slot>, head: int, tail: int, chain: seq<int>)
    requires Linked(s, head, tail, chain)
    ensures head == SlotOr(chain, 0) && tail == SlotOr(chain, |chain| - 1)
    ensures head == NULL <==> chain == []
    ensures InPool(chain, |s|)
  {
  }

  /** Node k of the list. */
  lemma NodeAt(s: seq<Slot>, head: int, tail: int, chain: seq<int>, k: nat)
    requires Linked(s, head, tail, chain) && k < |chain|
    ensures 0 <= SlotOr(chain, k) < |s| && |Entries(s, chain)| == |chain|
    ensures s[SlotOr(chain, k)].index == Entries(s, chain)[k].index != 0
    ensures s[SlotOr(chain, k)].filename == Entries(s, chain)[k].filename
    ensures s[SlotOr(chain, k)].prev == SlotOr(chain, k - 1)
    ensures SlotOr(chain, -1) == NULL
  {
    assert chain[k] in chain;
  }

  lemma EnteredAlone(s: seq<Slot>, i: nat, m: Meta)
    requires i < |s|
    ensures Entered(s, s[i := Slot(m.index, m.filename, NULL, NULL)], [], 0, i, m)
  {
  }

  /** What the walk along the list sees at position k. */
  lemma WalkStep(s: seq<Slot>, head: int, tail: int, chain: seq<int>, i: nat, k: nat)
    requires Linked(s, head, tail, chain) && i < |s| && s[i].index == 0 && k < |chain|
    ensures 0 <= chain[k] < |s| && chain[k] != i && s[chain[k]].next == SlotOr(chain, k + 1)
    ensures Entries(s, chain)[k].index == s[chain[k]].index
  {
    FreeOffChain(s, chain, i);
  }

  lemma SpliceEnds(chain: seq<int>, at: nat, i: nat)
    requires at <= |chain| && chain != []
    ensures SlotOr(Splice(chain, at, i), 0) == if at == 0 then i else chain[0]
    ensures SlotOr(Splice(chain, at, i), |chain|) == if at == |chain| then i else chain[|chain| - 1]
  {
  }

  lemma SpliceChain(chain: seq<int>, at: nat, i: nat, n: nat)
    requires at <= |chain| && i < n && i !in chain
    requires InPool(chain, n) && Distinct(chain)
    ensures InPool(Splice(chain, at, i), n) && Distinct(Splice(chain, at, i))
  {
  }

  lemma EnteredNext(s: seq<Slot>, t: seq<Slot>, chain: seq<int>, at: nat, i: nat, m: Meta)
    requires at <= |chain| && i < |s| && Entered(s, t, chain, at, i, m) && i !in chain
    requires InPool(chain, |s|) && InPool(Splice(chain, at, i), |s|) && Distinct(chain) && NextAlong(s, chain)
    ensures NextAlong(t, Splice(chain, at, i))
  {
    var c := Splice(chain, at, i);
    forall k | 0 <= k < |c| ensures t[c[k]].next == SlotOr(c, k + 1) {
      if k < at {
        assert s[chain[k]].next == SlotOr(chain, k + 1);
        assert chain[k] == SlotOr(chain, at - 1) <==> k == at - 1;
      } else if k > at {
        assert s[chain[k - 1]].next == SlotOr(chain, k);
        assert chain[k - 1] != SlotOr(chain, at - 1);
      }
    }
  }

  lemma EnteredPrev(s: seq<Slot>, t: seq<Slot>, chain: seq<int>, at: nat, i: nat, m: Meta)
    requires at <= |chain| && i < |s| && Entered(s, t, chain, at, i, m) && i !in chain
    requires InPool(chain, |s|) && InPool(Splice(chain, at, i), |s|) && Distinct(chain) && PrevAlong(s, chain)
    ensures PrevAlong(t, Splice(chain, at, i))
  {
    var c := Splice(chain, at, i);
    forall k | 0 <= k < |c| ensures t[c[k]].prev == SlotOr(c, k - 1) {
      if k < at {
        assert s[chain[k]].prev == SlotOr(chain, k - 1);
        assert chain[k] != SlotOr(chain, at);
      } else if k > at {
        assert s[chain[k - 1]].prev == SlotOr(chain, k - 2);
        assert chain[k - 1] == SlotOr(chain, at) <==> k - 1 == at;
      }
    }
  }

  lemma EnteredUsed(s: seq<Slot>, t: seq<Slot>, chain: seq<int>, at: nat, i: nat, m: Meta)
    requires at <= |chain| && i < |s| && Entered(s, t, chain, at, i, m)
    requires UsedOn(s, chain) && m.index != 0
    ensures UsedOn(t, Splice(chain, at, i))
  {
    assert Splice(chain, at, i) == chain[..at] + [i] + chain[at..] && chain == chain[..at] + chain[at..];
    forall j | 0 <= j < |t| ensures t[j].index != 0 <==> j in Splice(chain, at, i) {
      assert j in Splice(chain, at, i) <==> j in chain[..at] || j == i || j in chain[at..];
      assert j in chain <==> j in chain[..at] || j in chain[at..];
    }
  }

  lemma EnteredEntries(s: seq<Slot>, t: seq<Slot>, chain: seq<int>, at: nat, i: nat, m: Meta)
    requires at <= |chain| && i < |s| && Entered(s, t, chain, at, i, m) && i !in chain
    requires InPool(chain, |s|) && InPool(Splice(chain, at, i), |s|) && Ascending(Entries(s, chain))
    requires at == Rank(Entries(s, chain), m.index)
    ensures AscendingAlong(t, Splice(chain, at, i))
    ensures Entries(t, Splice(chain, at, i)) == InsertEntry(Entries(s, chain), m)
  {
    var (c, e) := (Splice(chain, at, i), Entries(s, chain));
    forall k | 0 <= k < |c| ensures Entries(t, c)[k] == Splice(e, at, m)[k] {
      assert c[k] == if k < at then chain[k] else if k == at then i else chain[k - 1];
    }
    assert Entries(t, c) == Splice(e, at, m);
    SpliceAscending(e, at, m);
    AscendingEntries(t, c);
  }

  ghost predicate Ascending(e: seq<Meta>) {
    forall i, j :: 0 <= i < j < |e| ==> e[i].index <= e[j].index
  }

  lemma AscendingEntries(s: seq<Slot>, chain: seq<int>)
    requires InPool(chain, |s|)
    ensures AscendingAlong(s, chain) <==> Ascending(Entries(s, chain))
  {
    var e := Entries(s, chain);
    if Ascending(e) {
      forall i, j | 0 <= i < j < |chain| ensures s[chain[i]].index <= s[chain[j]].index {
        assert e[i].index <= e[j].index;
      }
    }
  }

  lemma SpliceAscending(e: seq<Meta>, at: nat, m: Meta)
    requires Ascending(e) && at == Rank(e, m.index)
    ensures Ascending(Splice(e, at, m))
  {
    RankSplits(e, m.index);
  }

  lemma RankSplits(e: seq<Meta>, index: int)
    requires Ascending(e)
    ensures forall i :: 0 <= i < Rank(e, index) ==> e[i].index < index
    ensures forall i :: Rank(e, index) <= i < |e| ==> index <= e[i].index
  {
  }

  lemma EnteredLinked(s: seq<Slot>, t: seq<Slot>, chain: seq<int>, at: nat, i: nat, m: Meta)
    requires Linked(s, SlotOr(chain, 0), SlotOr(chain, |chain| - 1), chain)
    requires at <= |chain| && i < |s| && Entered(s, t, chain, at, i, m) && s[i].index == 0 && m.index != 0
    requires at == Rank(Entries(s, chain), m.index)
    ensures var c := Splice(chain, at, i);
            Linked(t, SlotOr(c, 0), SlotOr(c, |c| - 1), c) && Entries(t, c) == InsertEntry(Entries(s, chain), m)
  {
    hide NextAlong, PrevAlong, UsedOn, AscendingAlong, Distinct, InPool;
    assert |t| == |s|;
    FreeOffChain(s, chain, i);
    SpliceChain(chain, at, i, |s|);
    EnteredNext(s, t, chain, at, i, m);
    EnteredPrev(s, t, chain, at, i, m);
    EnteredUsed(s, t, chain, at, i, m);
    AscendingEntries(s, chain);
    EnteredEntries(s, t, chain, at, i, m);
  }

  /** t is s with the slot at the head of the chain emptied. */
  ghost predicate Cut(s: seq<Slot>, t: seq<Slot>, chain: seq<int>) {
    && chain != [] && 0 <= chain[0] < |s| && |t| == |s|
    && t[chain[0]] == Slot(0, "", NULL, NULL)
    && (forall j :: 0 <= j < |s| && j != chain[0] ==>
          t[j] == Slot(s[j].index, s[j].filename, if j == SlotOr(chain, 1) then NULL else s[j].prev, s[j].next))
  }

  lemma CutIs(s: seq<Slot>, head: int, tail: int, chain: seq<int>)
    requires Linked(s, head, tail, chain) && chain != []
    ensures 0 <= head < |s| && s[head].next == SlotOr(chain, 1)
    ensures s[head].next == NULL <==> |chain| == 1
    ensures |chain| > 1 ==> 0 <= chain[1] < |s|
    ensures Cut(s, (if |chain| == 1 then s else s[chain[1] := s[chain[1]].(prev := NULL)])
                   [head := Slot(0, "", NULL, NULL)], chain)
  {
    assert s[chain[0]].next == SlotOr(chain, 1);
  }

  lemma CutChain(s: seq<Slot>, t: seq<Slot>, chain: seq<int>)
    requires Cut(s, t, chain) && InPool(chain, |s|) && Distinct(chain)
    ensures InPool(chain[1..], |s|) && Distinct(chain[1..])
    ensures NextAlong(s, chain) ==> NextAlong(t, chain[1..])
    ensures Entries(t, chain[1..]) == Entries(s, chain)[1..]
  {
    var c := chain[1..];
    if NextAlong(s, chain) {
      forall k | 0 <= k < |c| ensures t[c[k]].next == SlotOr(c, k + 1) {
        assert s[chain[k + 1]].next == SlotOr(chain, k + 2);
      }
    }
  }

  lemma CutPrev(s: seq<Slot>, t: seq<Slot>, chain: seq<int>)
    requires Cut(s, t, chain) && InPool(chain, |s|) && InPool(chain[1..], |s|) && Distinct(chain)
    requires PrevAlong(s, chain)
    ensures PrevAlong(t, chain[1..])
  {
    var c := chain[1..];
    forall k | 0 <= k < |c| ensures t[c[k]].prev == SlotOr(c, k - 1) {
      assert s[chain[k + 1]].prev == SlotOr(chain, k);
      assert chain[k + 1] == SlotOr(chain, 1) <==> k == 0;
    }
  }

  lemma CutUsed(s: seq<Slot>, t: seq<Slot>, chain: seq<int>)
    requires Cut(s, t, chain) && Distinct(chain) && UsedOn(s, chain)
    ensures UsedOn(t, chain[1..])
  {
    assert chain == [chain[0]] + chain[1..];
    forall j | 0 <= j < |t| ensures t[j].index != 0 <==> j in chain[1..] {
      assert j in chain <==> j == chain[0] || j in chain[1..];
    }
  }

  lemma CutLinked(s: seq<Slot>, t: seq<Slot>, head: int, tail: int, chain: seq<int>)
    requires Linked(s, head, tail, chain) && Cut(s, t, chain)
    ensures Linked(t, SlotOr(chain, 1), if |chain| == 1 then NULL else tail, chain[1..])
    ensures Entries(t, chain[1..]) == Entries(s, chain)[1..]
  {
    hide NextAlong, PrevAlong, UsedOn, AscendingAlong, Distinct, InPool;
    CutChain(s, t, chain);
    CutPrev(s, t, chain);
    CutUsed(s, t, chain);
    AscendingEntries(s, chain);
    AscendingEntries(t, chain[1..]);
  }

  /** storage_list of store.h with the pool that follows it in shared memory. */
  class StorageList {
    const slots: array<Slot>
    var index: int
    var head: int
    var tail: int
    ghost var chain: seq<int>

    ghost predicate Valid()
      reads this, slots
    {
      Linked(slots[..], head, tail, chain)
    }

    ghost function List(): seq<Meta>
      requires Valid()
      reads this, slots
    {
      Entries(slots[..], chain)
    }

    /** A zeroed segment with the counter at its first value. */
    constructor ()
      ensures Valid() && fresh(slots)
      ensures List() == [] && index == 1
    {
      slots := new Slot[META_LIST_CNT](_ => Slot(0, "", NULL, NULL));
      index, head, tail, chain := 1, NULL, NULL, [];
    }

    /** insert_node: sorted by index, in front of equal ones; with no free slot nothing happens at all. */
    method InsertNode(newIndex: int, filename: string)
      requires Valid() && newIndex != 0
      modifies this`head, this`tail, this`chain, slots
      ensures Valid()
      ensures List() == Inserted(old(List()), Meta(newIndex, filename))
    {
      hide NextAlong, PrevAlong, UsedOn, AscendingAlong, Distinct, InPool;
      ghost var s := slots[..];
      var i := FreeSlot();
      if i == META_LIST_CNT {
        return;
      }
      ghost var (at, m) := (Rank(Entries(s, chain), newIndex), Meta(newIndex, filename));
      slots[i] := Slot(newIndex, filename, NULL, NULL);
      EmptyList(s, head, tail, chain);
      if head == NULL {
        head, tail := i, i;
        EnteredAlone(s, i, m);
      } else {
        var current, prev := FindPlace(i, newIndex, s);
        LinkIn(i, current, prev, s, at, m);
      }
      hide Entered;
      EnteredLinked(s, slots[..], chain, at, i, m);
      chain := Splice(chain, at, i);
    }

    /** The first unused slot, or META_LIST_CNT. */
    method FreeSlot() returns (i: nat)
      requires Valid()
      ensures i <= META_LIST_CNT && (i == META_LIST_CNT <==> |chain| == META_LIST_CNT)
      ensures |chain| <= META_LIST_CNT
      ensures i < META_LIST_CNT ==> slots[i].index == 0
    {
      hide NextAlong, PrevAlong, UsedOn, AscendingAlong, Distinct, InPool;
      i := 0;
      while i < META_LIST_CNT && slots[i].index != 0
        invariant 0 <= i <= META_LIST_CNT
        invariant forall j :: 0 <= j < i ==> slots[j].index != 0
      {
        i := i + 1;
      }
      ChainFits(slots[..], chain);
    }

    /** The pointer updates of insert_node on a list that is not empty. */
    method LinkIn(i: nat, current: int, prev: int, ghost s: seq<Slot>, ghost at: nat, ghost m: Meta)
      requires |slots[..]| == |s| && i < |s| && Linked(s, head, tail, chain) && s[i].index == 0 && chain != []
      requires slots[..] == s[i := Slot(m.index, m.filename, NULL, NULL)]
      requires at <= |chain| && current == SlotOr(chain, at) && prev == SlotOr(chain, at - 1)
      modifies this`head, this`tail, slots
      ensures Entered(s, slots[..], chain, at, i, m)
      ensures head == SlotOr(Splice(chain, at, i), 0)
      ensures tail == SlotOr(Splice(chain, at, i), |chain|)
    {
      hide Linked, Entered, Splice, SlotOr, FirstOf, LastOf, Between;
      Neighbours(s, head, tail, chain, at, i);
      SpliceEnds(chain, at, i);
      if current == head {
        EnteredFirst(s, head, tail, chain, i, m);
        LinkFirst(i, s, m);
      } else if current == NULL {
        EnteredLast(s, head, tail, chain, i, m);
        LinkLast(i, s, m);
      } else {
        EnteredBetween(s, chain, at, i, m);
        LinkBetween(i, current, prev, s, m);
      }
    }

    method LinkFirst(i: nat, ghost s: seq<Slot>, ghost m: Meta)
      requires i < slots.Length && 0 <= head < slots.Length && i != head
      requires |s| == slots.Length && slots[..] == s[i := Slot(m.index, m.filename, NULL, NULL)]
      modifies this`head, slots
      ensures slots[..] == FirstOf(s, i, m, old(head)) && head == i
    {
      slots[i] := slots[i].(next := head);
      slots[head] := slots[head].(prev := i);
      head := i;
    }

    method LinkLast(i: nat, ghost s: seq<Slot>, ghost m: Meta)
      requires i < slots.Length && 0 <= tail < slots.Length && i != tail
      requires |s| == slots.Length && slots[..] == s[i := Slot(m.index, m.filename, NULL, NULL)]
      modifies this`tail, slots
      ensures slots[..] == LastOf(s, i, m, old(tail)) && tail == i
    {
      slots[tail] := slots[tail].(next := i);
      slots[i] := slots[i].(prev := tail);
      tail := i;
    }

    method LinkBetween(i: nat, current: int, prev: int, ghost s: seq<Slot>, ghost m: Meta)
      requires i < slots.Length && 0 <= current < slots.Length && 0 <= prev < slots.Length
      requires i != current && i != prev && current != prev
      requires |s| == slots.Length && slots[..] == s[i := Slot(m.index, m.filename, NULL, NULL)]
      requires s[current].prev == prev
      modifies slots
      ensures slots[..] == Between(s, i, m, prev, current)
    {
      slots[i] := slots[i].(next := current);
      slots[i] := slots[i].(prev := slots[current].prev);
      slots[current] := slots[current].(prev := i);
      if prev != NULL {
        slots[prev] := slots[prev].(next := i);
      }
    }

    /** The loop of insert_node: the first node that must follow the new one, and the node in front of it. */
    method FindPlace(i: nat, newIndex: int, ghost s: seq<Slot>) returns (current: int, prev: int)
      requires i < |s| && Linked(s, head, tail, chain) && s[i].index == 0
      requires |slots[..]| == |s| && forall j :: 0 <= j < |s| && j != i ==> slots[j] == s[j]
      ensures var at := Rank(Entries(s, chain), newIndex);
              current == SlotOr(chain, at) && prev == SlotOr(chain, at - 1)
    {
      hide Linked, Entries, InPool;
      EmptyList(s, head, tail, chain);
      ghost var e := Entries(s, chain);
      current, prev := head, NULL;
      ghost var at: nat := 0;
      while current != NULL && slots[current].index < newIndex
        invariant 0 <= at <= |chain|
        invariant current == SlotOr(chain, at) && prev == SlotOr(chain, at - 1)
        invariant forall k :: 0 <= k < at ==> e[k].index < newIndex
        decreases |chain| - at
      {
        WalkStep(s, head, tail, chain, i, at);
        prev := current;
        current := slots[current].next;
        at := at + 1;
      }
      if at < |chain| {
        WalkStep(s, head, tail, chain, i, at);
      }
      RankIs(e, newIndex, at);
    }

    /** popleft: the first table, if there is one, leaves the list and its slot is free again. Returns the
        file to remove. */
    method PopLeft() returns (removed: Option<string>)
      requires Valid()
      modifies this`head, this`tail, this`chain, slots
      ensures Valid()
      ensures old(List()) == [] ==> removed == None && List() == []
      ensures old(List()) != [] ==> removed == Some(old(List())[0].filename) && List() == old(List())[1..]
      ensures old(List()) != [] ==> 0 <= old(head) < META_LIST_CNT && head == old(slots[head].next)
    {
      ghost var s := slots[..];
      hide Linked, Cut;
      EmptyList(slots[..], head, tail, chain);
      if head == NULL {
        return None;
      }
      CutIs(s, head, tail, chain);
      CutLinked(s, (if |chain| == 1 then s else s[chain[1] := s[chain[1]].(prev := NULL)])
                   [head := Slot(0, "", NULL, NULL)], head, tail, chain);
      var temp := head;
      head := slots[head].next;
      if head != NULL {
        slots[head] := slots[head].(prev := NULL);
      } else {
        tail := NULL;
      }
      removed := Some(slots[temp].filename);
      slots[temp] := Slot(0, "", NULL, NULL);
      assert slots[..] == (if |chain| == 1 then s else s[chain[1] := s[chain[1]].(prev := NULL)])
                          [temp := Slot(0, "", NULL, NULL)];
      chain := chain[1..];
    }

    /** storage_cnt */
    method StorageCnt() returns (cnt: nat)
      requires Valid()
      ensures cnt == |List()| == |UsedSlots(slots[..])| <= META_LIST_CNT
    {
      var temp := head;
      cnt := 0;
      while temp != NULL
        invariant cnt <= |chain| && temp == SlotOr(chain, cnt)
        decreases |chain| - cnt
      {
        temp := slots[temp].next;
        cnt := cnt + 1;
      }
      ChainFits(slots[..], chain);
      CountsUsedSlots(slots[..], head, tail, chain);
    }
  }

  lemma RankIs(e: seq<Meta>, index: int, r: nat)
    requires r <= |e|
    requires forall i :: 0 <= i < r ==> e[i].index < index
    requires r < |e| ==> index <= e[r].index
    ensures Rank(e, index) == r
  {
  }
}
