/** The writer of constant databases: cdb_make_add and cdb_make_finish. */
module CdbMake {
  import opened Bytes
  import opened CdbFormat

  const HPLIST: nat := 1000

  // ---- counting and sorting by bucket ---------------------------------------

  lemma {:induction false} IdxInMeans(es: seq<Hp>, b: nat, n: nat)
    requires n <= |es|
    ensures |IdxIn(es, b, n)| <= n
    ensures forall i | 0 <= i < |IdxIn(es, b, n)| :: IdxIn(es, b, n)[i] < n && Bucket(es[IdxIn(es, b, n)[i]]) == b
    ensures forall i, k | 0 <= i < k < |IdxIn(es, b, n)| :: IdxIn(es, b, n)[i] < IdxIn(es, b, n)[k]
    ensures forall j | 0 <= j < n && Bucket(es[j]) == b :: j in IdxIn(es, b, n)
  {
    if n > 0 {
      IdxInMeans(es, b, n - 1);
    }
  }

  lemma {:induction false} IdxInGrows(es: seq<Hp>, b: nat, m: nat, n: nat)
    requires m <= n <= |es|
    ensures IdxIn(es, b, m) <= IdxIn(es, b, n)
    ensures m < n && Bucket(es[m]) == b ==> |IdxIn(es, b, m)| < |IdxIn(es, b, n)| && IdxIn(es, b, n)[|IdxIn(es, b, m)|] == m
    decreases n
  {
    if m < n {
      IdxInGrows(es, b, m, n - 1);
    }
  }

  /** The number of entries, among the first n, of buckets below b. */
  function Base(es: seq<Hp>, b: nat, n: nat): nat
    requires n <= |es|
  {
    if b == 0 then 0 else Base(es, b - 1, n) + |IdxIn(es, b - 1, n)|
  }

  lemma {:induction false} BaseStep(es: seq<Hp>, b: nat, n: nat)
    requires n < |es|
    ensures Base(es, b, n + 1) == Base(es, b, n) + if Bucket(es[n]) < b then 1 else 0
  {
    if b > 0 {
      BaseStep(es, b - 1, n);
    }
  }

  lemma {:induction false} BaseZero(es: seq<Hp>, b: nat)
    ensures Base(es, b, 0) == 0
  {
    if b > 0 {
      BaseZero(es, b - 1);
    }
  }

  /** The 256 buckets together hold every entry once. */
  lemma {:induction false} BaseTotal(es: seq<Hp>, n: nat)
    requires n <= |es|
    ensures Base(es, BUCKETS, n) == n
  {
    if n == 0 {
      BaseZero(es, BUCKETS);
    } else {
      BaseTotal(es, n - 1);
      BaseStep(es, BUCKETS, n - 1);
    }
  }

  lemma {:induction false} BaseMonotone(es: seq<Hp>, b: nat, c: nat, n: nat)
    requires b <= c && n <= |es|
    ensures Base(es, b, n) <= Base(es, c, n)
    ensures b < c ==> Base(es, b, n) + |IdxIn(es, b, n)| <= Base(es, c, n)
    decreases c
  {
    if b < c {
      BaseMonotone(es, b, c - 1, n);
    }
  }

  /** Where the counting sort puts entry j. */
  function Dest(es: seq<Hp>, j: nat): nat
    requires j < |es|
  {
    Base(es, Bucket(es[j]), |es|) + |IdxIn(es, Bucket(es[j]), j)|
  }

  lemma DestInRange(es: seq<Hp>, j: nat)
    requires j < |es|
    ensures Dest(es, j) < Base(es, Bucket(es[j]), |es|) + Count(es, Bucket(es[j])) <= |es|
  {
    var b := Bucket(es[j]);
    IdxInGrows(es, b, j, |es|);
    BaseMonotone(es, b, BUCKETS, |es|);
    BaseTotal(es, |es|);
  }

  lemma DestDistinct(es: seq<Hp>, i: nat, j: nat)
    requires i < j < |es|
    ensures Dest(es, i) != Dest(es, j)
  {
    var b, c := Bucket(es[i]), Bucket(es[j]);
    DestInRange(es, i);
    DestInRange(es, j);
    if b == c {
      IdxInGrows(es, b, i, j);
    } else if b < c {
      BaseMonotone(es, b, c, |es|);
    } else {
      BaseMonotone(es, c, b, |es|);
    }
  }

  // ---- the list of entry blocks ---------------------------------------------

  /** The entries in a list of blocks, newest block first. */
  function Entries(head: seq<seq<Hp>>): seq<Hp> {
    if head == [] then [] else Entries(head[1..]) + head[0]
  }

  /** Entry i of block k stands after all entries of the older blocks. */
  lemma {:induction false} BlockEntry(head: seq<seq<Hp>>, k: nat)
    requires k < |head|
    ensures |Entries(head[k + 1..])| + |head[k]| == |Entries(head[k..])| <= |Entries(head)|
    ensures forall i | 0 <= i < |head[k]| :: Entries(head)[|Entries(head[k + 1..])| + i] == head[k][i]
  {
    assert head[k..][1..] == head[k + 1..];
    if k == 0 {
      assert head[0..] == head;
    } else {
      BlockEntry(head[1..], k - 1);
      assert head[1..][k - 1..] == head[k..] && head[1..][k..] == head[k + 1..];
    }
  }

  /** count holds, per bucket, the number of entries from index t on. */
  ghost predicate CountedFrom(count: seq<uint32>, es: seq<Hp>, t: nat)
    requires t <= |es|
  {
    |count| == BUCKETS && forall b | 0 <= b < BUCKETS :: count[b] == |IdxIn(es, b, |es|)| - |IdxIn(es, b, t)|
  }

  method CountEntry(e: Hp, count: array<uint32>, ghost es: seq<Hp>, ghost t: nat)
    requires t < |es| < TWO32 && es[t] == e && CountedFrom(count[..], es, t + 1)
    modifies count
    ensures CountedFrom(count[..], es, t)
  {
    IdxInMeans(es, Bucket(e), |es|);
    count[Bucket(e)] := Add32(count[Bucket(e)], 1);
  }

  /** First loop: entries per bucket, walking the blocks newest first and each
      block from its last entry to its first. */
  method CountBuckets(head: seq<seq<Hp>>, count: array<uint32>)
    requires count.Length == BUCKETS && |Entries(head)| < TWO32
    modifies count
    ensures CountedFrom(count[..], Entries(head), 0)
  {
    hide CountedFrom;
    ghost var es := Entries(head);
    for i := 0 to BUCKETS
      invariant forall b | 0 <= b < i :: count[b] == 0
    {
      count[i] := 0;
    }
    NoneCounted(count[..], es);
    ghost var t := |es|;  // entries t.. have been counted
    assert head[0..] == head;
    for x := 0 to |head|
      invariant t == |Entries(head[x..])| <= |es| && CountedFrom(count[..], es, t)
    {
      BlockEntry(head, x);
      var i := |head[x]|;
      while i > 0
        invariant 0 <= i <= |head[x]| && t == |Entries(head[x + 1..])| + i <= |es|
        invariant CountedFrom(count[..], es, t)
      {
        i := i - 1;
        t := t - 1;
        CountEntry(head[x][i], count, es, t);
      }
    }
  }

  lemma NoneCounted(count: seq<uint32>, es: seq<Hp>)
    requires |count| == BUCKETS && forall b | 0 <= b < BUCKETS :: count[b] == 0
    ensures CountedFrom(count, es, |es|)
  {
  }

  /** Third loop: the end of each bucket's range. */
  method Ends(count: array<uint32>, start: array<uint32>, ghost es: seq<Hp>)
    requires count.Length == start.Length == BUCKETS && count != start && |es| < TWO32
    requires CountedFrom(count[..], es, 0)
    modifies start
    ensures StartsAt(start[..], es, |es|)
  {
    var u: uint32 := 0;
    BaseTotal(es, |es|);
    for i := 0 to BUCKETS
      invariant u == Base(es, i, |es|)
      invariant forall b | 0 <= b < i :: start[b] == Base(es, b + 1, |es|)
    {
      BaseMonotone(es, i + 1, BUCKETS, |es|);
      u := Add32(u, count[i]);
      start[i] := u;
    }
  }

  /** The entries from index t on stand at their places. */
  ghost predicate SortedFrom(split: seq<Hp>, es: seq<Hp>, t: nat) {
    |es| <= |split| && forall j | t <= j < |es| :: SortedAt(split, es, j)
  }

  ghost predicate SortedAt(split: seq<Hp>, es: seq<Hp>, j: nat)
    requires j < |es| <= |split|
  {
    Dest(es, j) < |es| && split[Dest(es, j)] == es[j]
  }

  ghost predicate StartsAt(start: seq<uint32>, es: seq<Hp>, t: nat)
    requires t <= |es|
  {
    |start| == BUCKETS && forall b | 0 <= b < BUCKETS :: start[b] == Base(es, b, |es|) + |IdxIn(es, b, t)|
  }

  lemma NoneSorted(split: seq<Hp>, es: seq<Hp>)
    requires |es| <= |split|
    ensures SortedFrom(split, es, |es|)
  {
  }

  /** Place the youngest entry that has not been placed yet. */
  method PlaceEntry(e: Hp, start: array<uint32>, split: array<Hp>, ghost es: seq<Hp>, ghost t: nat)
    requires t < |es| < TWO32 && es[t] == e
    requires StartsAt(start[..], es, t + 1) && SortedFrom(split[..], es, t + 1)
    modifies start, split
    ensures StartsAt(start[..], es, t) && SortedFrom(split[..], es, t)
  {
    DestInRange(es, t);
    var b := Bucket(e);
    start[b] := start[b] - 1;
    split[start[b]] := e;
    forall j | t < j < |es| ensures SortedAt(split[..], es, j) {
      assert SortedAt(old(split[..]), es, j);
      DestInRange(es, j);
      DestDistinct(es, t, j);
    }
  }

  /** Fourth loop: the stable counting sort into split. */
  method Distribute(head: seq<seq<Hp>>, start: array<uint32>, split: array<Hp>, ghost es: seq<Hp>)
    requires es == Entries(head) && start.Length == BUCKETS && |es| <= split.Length && |es| < TWO32
    requires StartsAt(start[..], es, |es|)
    modifies start, split
    ensures StartsAt(start[..], es, 0) && SortedFrom(split[..], es, 0)
  {
    hide StartsAt;
    hide SortedFrom;
    ghost var t := |es|;
    NoneSorted(split[..], es);
    assert head[0..] == head;
    for x := 0 to |head|
      invariant t == |Entries(head[x..])| <= |es|
      invariant StartsAt(start[..], es, t) && SortedFrom(split[..], es, t)
    {
      BlockEntry(head, x);
      var i := |head[x]|;
      while i > 0
        invariant 0 <= i <= |head[x]| && t == |Entries(head[x + 1..])| + i <= |es|
        invariant StartsAt(start[..], es, t) && SortedFrom(split[..], es, t)
      {
        i := i - 1;
        t := t - 1;
        PlaceEntry(head[x][i], start, split, es, t);
      }
    }
  }

  /** After the sort, bucket b's range holds its entries in insertion order. */
  lemma BucketRange(split: seq<Hp>, es: seq<Hp>, b: nat)
    requires SortedFrom(split, es, 0) && b < BUCKETS
    ensures Base(es, b, |es|) + Count(es, b) <= |es|
    ensures forall u | 0 <= u < Count(es, b) ::
              IdxIn(es, b, |es|)[u] < |es| && split[Base(es, b, |es|) + u] == es[IdxIn(es, b, |es|)[u]]
  {
    hide IdxIn;
    hide Base;
    hide Dest;
    BaseMonotone(es, b, BUCKETS, |es|);
    BaseTotal(es, |es|);
    IdxInMeans(es, b, |es|);
    forall u | 0 <= u < Count(es, b)
      ensures split[Base(es, b, |es|) + u] == es[IdxIn(es, b, |es|)[u]]
    {
      DestOf(es, b, u);
      assert SortedAt(split, es, IdxIn(es, b, |es|)[u]);
    }
  }

  lemma DestOf(es: seq<Hp>, b: nat, u: nat)
    requires u < Count(es, b)
    ensures IdxIn(es, b, |es|)[u] < |es| && Dest(es, IdxIn(es, b, |es|)[u]) == Base(es, b, |es|) + u
  {
    var idx := IdxIn(es, b, |es|);
    IdxInMeans(es, b, |es|);
    var j := idx[u];
    IdxInGrows(es, b, j, |es|);
    var v := |IdxIn(es, b, j)|;
    assert idx[v] == j;
  }

  // ---- hash tables ----------------------------------------------------------

  ghost function Taken(owner: seq<int>): set<int> {
    set s | 0 <= s < |owner| && owner[s] >= 0
  }

  lemma {:induction false} FullTable(owner: seq<int>)
    requires forall s | 0 <= s < |owner| :: owner[s] >= 0
    ensures |Taken(owner)| == |owner|
  {
    if owner != [] {
      var init := owner[..|owner| - 1];
      FullTable(init);
      assert Taken(owner) == Taken(init) + {|init|};
    }
  }

  /** A table with fewer entries than slots has a free slot on every cyclic walk. */
  lemma FreeSlot(owner: seq<int>, home: nat) returns (d: nat)
    requires |Taken(owner)| < |owner| && home < |owner|
    requires forall s | 0 <= s < |owner| :: -1 <= owner[s]
    ensures d < |owner| && owner[Slot(home, d, |owner|)] == -1
  {
    if forall s | 0 <= s < |owner| :: owner[s] != -1 {
      FullTable(owner);
      assert false;
    }
    var f :| 0 <= f < |owner| && owner[f] == -1;
    d := if home <= f then f - home else f + |owner| - home;
  }

  /** Putting entry j into the first free slot of its walk keeps the table right. */
  lemma InsertKeeps(t: seq<Hp>, owner: seq<int>, dist: seq<nat>, es: seq<Hp>, b: nat, j: nat, d: nat)
    requires TableOf(t, owner, dist, es, b, j) && j < |es| && Bucket(es[j]) == b && d < |t|
    requires owner[Slot(Home(es[j].h, |t|), d, |t|)] == -1
    requires forall c | 0 <= c < d :: owner[Slot(Home(es[j].h, |t|), c, |t|)] >= 0
    ensures var s := Slot(Home(es[j].h, |t|), d, |t|);
            TableOf(t[s := es[j]], owner[s := j], dist[j := d], es, b, j + 1)
            && Taken(owner[s := j]) == Taken(owner) + {s} && s !in Taken(owner)
  {
    var s := Slot(Home(es[j].h, |t|), d, |t|);
    var t', owner', dist' := t[s := es[j]], owner[s := j], dist[j := d];
    forall i | 0 <= i < j + 1 && Bucket(es[i]) == b ensures Placed(t', owner', dist', es, i) {
      if i < j {
        assert Placed(t, owner, dist, es, i);
      }
    }
    forall r | 0 <= r < |t'|
      ensures -1 <= owner'[r] < j + 1 && (owner'[r] == -1 ==> t'[r] == Hp(0, 0))
      ensures owner'[r] >= 0 ==>
                (t'[r] == es[owner'[r]] && Bucket(t'[r]) == b
                 && dist'[owner'[r]] < |t'| && r == Slot(Home(t'[r].h, |t'|), dist'[owner'[r]], |t'|))
    {
      assert r != s ==> owner[r] < j;
    }
  }

  lemma SkipOthers(t: seq<Hp>, owner: seq<int>, dist: seq<nat>, es: seq<Hp>, b: nat, m: nat, n: nat)
    requires TableOf(t, owner, dist, es, b, m) && m <= n <= |es|
    requires forall i | m <= i < n :: Bucket(es[i]) != b
    ensures TableOf(t, owner, dist, es, b, n)
  {
    forall i | 0 <= i < n && Bucket(es[i]) == b ensures Placed(t, owner, dist, es, i) {
      assert i < m;
      assert Bucket(es[i]) == b;
    }
  }

  /** A table depends only on the distances of its own entries. */
  lemma OtherDistances(t: seq<Hp>, owner: seq<int>, dist: seq<nat>, dist': seq<nat>, es: seq<Hp>, b: nat)
    requires TableOf(t, owner, dist, es, b, |es|) && |dist'| == |dist| == |es|
    requires forall i | 0 <= i < |es| && Bucket(es[i]) == b :: dist'[i] == dist[i]
    ensures TableOf(t, owner, dist', es, b, |es|)
  {
    forall i | 0 <= i < |es| && Bucket(es[i]) == b ensures Placed(t, owner, dist', es, i) {
      assert Placed(t, owner, dist, es, i);
    }
    forall s | 0 <= s < |t| && owner[s] >= 0 ensures dist'[owner[s]] == dist[owner[s]] {
      assert Bucket(es[owner[s]]) == b;
    }
  }

  lemma TakenSlots(t: seq<Hp>, owner: seq<int>, dist: seq<nat>, es: seq<Hp>, b: nat, n: nat)
    requires TableOf(t, owner, dist, es, b, n) && forall i | 0 <= i < |es| :: es[i].p != 0
    ensures |owner| == |t| && |dist| == |es| && n <= |es|
    ensures forall s | 0 <= s < |t| :: -1 <= owner[s] && (t[s].p != 0 <==> owner[s] >= 0)
  {
    forall s | 0 <= s < |t| ensures -1 <= owner[s] && (t[s].p != 0 <==> owner[s] >= 0) {
      assert owner[s] < n;
    }
  }

  /** One entry into the table in split[n..n + len]: walk to the first free slot. */
  method InsertEntry(split: array<Hp>, n: nat, len: nat, e: Hp,
                     ghost owner: seq<int>, ghost dist: seq<nat>, ghost es: seq<Hp>, ghost b: nat, ghost j: nat)
    returns (ghost owner': seq<int>, ghost d: nat)
    requires n + len <= split.Length && j < |es| && es[j] == e && Bucket(e) == b
    requires TableOf(split[n..n + len], owner, dist, es, b, j) && |Taken(owner)| < len
    requires forall i | 0 <= i < |es| :: es[i].p != 0
    modifies split
    ensures split[..n] == old(split[..n])
    ensures TableOf(split[n..n + len], owner', dist[j := d], es, b, j + 1) && |Taken(owner')| == |Taken(owner)| + 1
  {
    hide TableOf;
    ghost var t := split[n..n + len];
    TakenSlots(t, owner, dist, es, b, j);
    var where;
    where, d := FindFree(split, n, len, e, owner);
    InsertKeeps(t, owner, dist, es, b, j, d);
    split[n + where] := e;
    owner' := owner[where := j];
    assert split[n..n + len] == t[where := e];
  }

  /** The probe loop: the first free slot from e's home on, going round at the end of the table. */
  method FindFree(split: array<Hp>, n: nat, len: nat, e: Hp, ghost owner: seq<int>) returns (where: nat, ghost d: nat)
    requires n + len <= split.Length && |owner| == len && |Taken(owner)| < len
    requires forall s | 0 <= s < len :: -1 <= owner[s] && (split[n + s].p != 0 <==> owner[s] >= 0)
    ensures where < len && d < len && where == Slot(Home(e.h, len), d, len) && owner[where] == -1
    ensures forall c | 0 <= c < d :: owner[Slot(Home(e.h, len), c, len)] >= 0
  {
    ghost var home := Home(e.h, len);
    ghost var free := FreeSlot(owner, home);
    where := e.h / 256 % len;
    d := 0;
    while split[n + where].p != 0
      invariant d <= free && where == Slot(home, d, len) && where < len
      invariant forall c | 0 <= c < d :: owner[Slot(home, c, len)] >= 0
      decreases free - d
    {
      where := where + 1;
      if where == len {
        where := 0;
      }
      d := d + 1;
    }
  }

  method ClearTable(split: array<Hp>, n: nat, len: nat)
    requires n + len <= split.Length
    modifies split
    ensures split[..n] == old(split[..n])
    ensures split[n..n + len] == seq(len, _ => Hp(0, 0))
  {
    for u := 0 to len
      invariant split[..n] == old(split[..n])
      invariant forall s | n <= s < n + u :: split[s] == Hp(0, 0)
    {
      split[n + u] := Hp(0, 0);
    }
  }

  /** The hash table of bucket b, built in split[n..n + 2 * cnt] from the bucket's
      range of the sorted entries. */
  method BuildTable(split: array<Hp>, n: nat, from: nat, cnt: nat, ghost es: seq<Hp>, ghost b: nat, ghost dist: seq<nat>)
    returns (ghost owner: seq<int>, ghost dist': seq<nat>)
    requires n == |es| == |dist| && b < BUCKETS && cnt == Count(es, b) && from == Base(es, b, n)
    requires n + 2 * cnt <= split.Length && SortedFrom(split[..n], es, 0)
    requires forall i | 0 <= i < |es| :: es[i].p != 0
    modifies split
    ensures split[..n] == old(split[..n])
    ensures TableOf(split[n..n + 2 * cnt], owner, dist', es, b, n)
    ensures |dist'| == n && forall i | 0 <= i < n && Bucket(es[i]) != b :: dist'[i] == dist[i]
  {
    hide TableOf;
    hide SortedFrom;
    hide IdxIn;
    var len := cnt + cnt;
    ClearTable(split, n, len);
    ghost var idx := IdxIn(es, b, n);
    owner, dist' := seq(len, _ => -1), dist;
    EmptyTable(split[n..n + len], owner, dist', es, b);
    NextInBucket(split[n..n + len], owner, dist', es, b, 0, 0);
    BucketRange(split[..n], es, b);
    for u := 0 to cnt
      invariant split[..n] == old(split[..n]) && |dist'| == n
      invariant TableOf(split[n..n + len], owner, dist', es, b, if u < cnt then idx[u] else n)
      invariant |Taken(owner)| == u
      invariant forall i | 0 <= i < n && Bucket(es[i]) != b :: dist'[i] == dist[i]
    {
      IdxInMeans(es, b, n);
      assert split[from + u] == split[..n][from + u];
      ghost var d;
      owner, d := InsertEntry(split, n, len, split[from + u], owner, dist', es, b, idx[u]);
      dist' := dist'[idx[u] := d];
      NextInBucket(split[n..n + len], owner, dist', es, b, idx[u] + 1, u + 1);
    }
  }

  lemma EmptyTable(t: seq<Hp>, owner: seq<int>, dist: seq<nat>, es: seq<Hp>, b: nat)
    requires |owner| == |t| && |dist| == |es|
    requires forall s | 0 <= s < |t| :: t[s] == Hp(0, 0) && owner[s] == -1
    ensures TableOf(t, owner, dist, es, b, 0) && Taken(owner) == {}
  {
  }

  /** No entry of the bucket lies between the first u of them and the next one. */
  lemma NextInBucket(t: seq<Hp>, owner: seq<int>, dist: seq<nat>, es: seq<Hp>, b: nat, m: nat, u: nat)
    requires TableOf(t, owner, dist, es, b, m) && m <= |es| && u <= Count(es, b)
    requires m == if u == 0 then 0 else IdxIn(es, b, |es|)[u - 1] + 1
    ensures TableOf(t, owner, dist, es, b, if u < Count(es, b) then IdxIn(es, b, |es|)[u] else |es|)
  {
    var idx := IdxIn(es, b, |es|);
    IdxInMeans(es, b, |es|);
    var next := if u < |idx| then idx[u] else |es|;
    forall k | 0 <= k < |idx| ensures idx[k] < m || next <= idx[k] {
      assert k < u ==> idx[k] <= idx[u - 1];
    }
    forall i | m <= i < next ensures Bucket(es[i]) != b {
      assert i !in idx;
    }
    SkipOthers(t, owner, dist, es, b, m, next);
  }

  // ---- the file -------------------------------------------------------------

  /** A table as it is written, slot after slot. */
  function TableBytes(t: seq<Hp>): (s: seq<byte>)
    ensures |s| == 8 * |t|
  {
    if t == [] then [] else TableBytes(t[..|t| - 1]) + SlotBytes(t[|t| - 1])
  }

  lemma {:induction false} TableBytesAt(t: seq<Hp>)
    ensures TableAt(TableBytes(t), 0, t)
  {
    hide SlotBytes;
    forall s | 0 <= s < |t| ensures TableBytes(t)[8 * s..8 * s + 8] == SlotBytes(t[s]) {
      SlotInTable(t, s);
    }
  }

  lemma {:induction false} SlotInTable(t: seq<Hp>, s: nat)
    requires s < |t|
    ensures TableBytes(t)[8 * s..8 * s + 8] == SlotBytes(t[s])
  {
    hide SlotBytes;
    var init := t[..|t| - 1];
    if s < |init| {
      SlotInTable(init, s);
    }
    SliceOfConcat(TableBytes(init), SlotBytes(t[|t| - 1]), 8 * s, 8 * s + 8);
  }

  lemma TableAtLater(f: seq<byte>, more: seq<byte>, p: nat, t: seq<Hp>)
    requires TableAt(f, p, t)
    ensures TableAt(f + more, p, t)
  {
    hide SlotBytes;
    forall s | 0 <= s < |t| ensures (f + more)[p + 8 * s..p + 8 * s + 8] == SlotBytes(t[s]) {
      SliceOfConcat(f, more, p + 8 * s, p + 8 * s + 8);
    }
  }

  lemma TableAtShift(pre: seq<byte>, f: seq<byte>, p: nat, t: seq<Hp>)
    requires TableAt(f, p, t)
    ensures TableAt(pre + f, |pre| + p, t)
  {
    hide SlotBytes;
    forall s | 0 <= s < |t| ensures (pre + f)[|pre| + p + 8 * s..|pre| + p + 8 * s + 8] == SlotBytes(t[s]) {
      SliceOfConcat(pre, f, |pre| + p + 8 * s, |pre| + p + 8 * s + 8);
    }
  }

  lemma StreamStep(recs: seq<Record>, r: Record, more: seq<Record>)
    requires more != [] && more[..|more| - 1] == recs && more[|more| - 1] == r
    ensures Stream(more) == Stream(recs) + RecordBytes(r)
  {
    hide RecordBytes;
  }

  lemma EntriesStep(recs: seq<Record>, r: Record, more: seq<Record>)
    requires more != [] && more[..|more| - 1] == recs && more[|more| - 1] == r
    requires Storable(recs) && Storable(more)
    ensures EntriesOf(more) == EntriesOf(recs) + [Hp(CdbHash(r.key), HEADER + |Stream(recs)|)]
  {
    hide CdbHash;
    hide Stream;
    hide Storable;
  }

  lemma StaysAt(s: seq<byte>, t: seq<byte>, p: nat, r: Record)
    requires RecordAt(s, p, r)
    ensures RecordAt(s + t, p, r)
  {
    hide RecordBytes;
    SliceOfConcat(s, t, p, p + |RecordBytes(r)|);
  }

  lemma AtTheEnd(s: seq<byte>, r: Record)
    ensures RecordAt(s + RecordBytes(r), |s|, r)
  {
    hide RecordBytes;
  }

  /** Every record stands in the stream at the position its entry gives. */
  lemma {:induction false} RecordsInStream(recs: seq<Record>, j: nat)
    requires Storable(recs) && j < |recs|
    ensures EntriesOf(recs)[j].p >= HEADER && RecordAt(Stream(recs), EntriesOf(recs)[j].p - HEADER, recs[j])
  {
    hide RecordBytes;
    hide RecordAt;
    hide CdbHash;
    hide Stream;
    hide EntriesOf;
    var init, last := recs[..|recs| - 1], recs[|recs| - 1];
    StreamStep(init, last, recs);
    EntriesStep(init, last, recs);
    if j < |init| {
      RecordsInStream(init, j);
      StaysAt(Stream(init), RecordBytes(last), EntriesOf(init)[j].p - HEADER, recs[j]);
    } else {
      AtTheEnd(Stream(init), last);
    }
  }

  lemma {:induction false} StreamSize(recs: seq<Record>)
    ensures |Stream(recs)| >= 8 * |recs|
  {
    if recs != [] {
      StreamSize(recs[..|recs| - 1]);
    }
  }

  /** The first i tables are written and entered in the directory. */
  ghost predicate Built(final: seq<byte>, out: seq<byte>, es: seq<Hp>, lay: Layout, i: nat) {
    && i <= BUCKETS && |final| == HEADER
    && |lay.tables| == |lay.hpos| == |lay.owner| == i && |lay.dist| == |es|
    && forall b {:trigger lay.tables[b]} | 0 <= b < i :: BuiltTable(final, out, es, lay, b)
  }

  ghost predicate BuiltTable(final: seq<byte>, out: seq<byte>, es: seq<Hp>, lay: Layout, b: nat)
    requires |final| == HEADER && b < |lay.tables| == |lay.hpos| == |lay.owner| <= BUCKETS
  {
    && TableOf(lay.tables[b], lay.owner[b], lay.dist, es, b, |es|)
    && HEADER <= lay.hpos[b] && TableAt(out, lay.hpos[b] - HEADER, lay.tables[b])
    && final[8 * b..8 * b + 8] == Pack(lay.hpos[b]) + Pack(|lay.tables[b]|)
  }

  /** All 256 tables written: the directory and the rest make a database. */
  lemma BuiltAll(final: seq<byte>, out: seq<byte>, recs: seq<Record>, lay: Layout)
    requires Storable(recs) && HEADER + |out| < TWO32 && Stream(recs) <= out
    requires Built(final, out, EntriesOf(recs), lay, BUCKETS)
    ensures IsCdb(final + out, recs, lay)
  {
    hide Storable;
    hide Stream;
    hide EntriesOf;
    hide Pack;
    hide RecordAt;
    hide TableOf;
    hide TableAt;
    hide BuiltTable;
    var f, es := final + out, EntriesOf(recs);
    forall j | 0 <= j < |recs| ensures RecordAt(f, es[j].p, recs[j]) {
      RecordInFile(final, out, recs, j);
    }
    forall b | 0 <= b < BUCKETS
      ensures TableOf(lay.tables[b], lay.owner[b], lay.dist, es, b, |recs|)
      ensures TableAt(f, lay.hpos[b], lay.tables[b])
      ensures f[8 * b..8 * b + 8] == Pack(lay.hpos[b]) + Pack(|lay.tables[b]|)
    {
      TableInFile(final, out, es, lay, b);
    }
  }

  lemma TableInFile(final: seq<byte>, out: seq<byte>, es: seq<Hp>, lay: Layout, b: nat)
    requires Built(final, out, es, lay, BUCKETS) && b < BUCKETS
    ensures TableOf(lay.tables[b], lay.owner[b], lay.dist, es, b, |es|)
    ensures TableAt(final + out, lay.hpos[b], lay.tables[b])
    ensures (final + out)[8 * b..8 * b + 8] == Pack(lay.hpos[b]) + Pack(|lay.tables[b]|)
  {
    hide Pack;
    hide TableOf;
    hide TableAt;
    assert BuiltTable(final, out, es, lay, b);
    TableAtShift(final, out, lay.hpos[b] - HEADER, lay.tables[b]);
    SliceOfConcat(final, out, 8 * b, 8 * b + 8);
  }

  lemma RecordInFile(final: seq<byte>, out: seq<byte>, recs: seq<Record>, j: nat)
    requires Storable(recs) && j < |recs| && |final| == HEADER && Stream(recs) <= out
    ensures RecordAt(final + out, EntriesOf(recs)[j].p, recs[j])
  {
    hide Storable;
    hide RecordBytes;
    hide Stream;
    hide EntriesOf;
    RecordsInStream(recs, j);
    SliceBehind(final, Stream(recs), out, EntriesOf(recs)[j].p - HEADER, |RecordBytes(recs[j])|);
  }

  /** One more table: what was built before stays built. */
  lemma BuiltStep(final: seq<byte>, out: seq<byte>, final': seq<byte>, out': seq<byte>, es: seq<Hp>, lay: Layout,
                  lay': Layout, i: nat)
    requires i < BUCKETS && Built(final, out, es, lay, i) && |lay'.tables| == i + 1 && |lay'.dist| == |es|
    requires |lay'.owner| == i + 1 && lay'.tables[..i] == lay.tables && lay'.owner[..i] == lay.owner
    requires HEADER + |out| < TWO32 && lay'.hpos == lay.hpos + [HEADER + |out|]
    requires TableOf(lay'.tables[i], lay'.owner[i], lay'.dist, es, i, |es|)
    requires out' == out + TableBytes(lay'.tables[i])
    requires |final'| == HEADER && final'[..8 * i] == final[..8 * i]
    requires final'[8 * i..8 * i + 8] == Pack(HEADER + |out|) + Pack(|lay'.tables[i]|)
    requires forall j | 0 <= j < |es| && Bucket(es[j]) != i :: lay'.dist[j] == lay.dist[j]
    ensures Built(final', out', es, lay', i + 1)
  {
    hide Pack;
    hide TableOf;
    hide TableAt;
    TableBytesAt(lay'.tables[i]);
    TableAtShift(out, TableBytes(lay'.tables[i]), 0, lay'.tables[i]);
    forall b | 0 <= b < i ensures BuiltTable(final', out', es, lay', b) {
      assert BuiltTable(final, out, es, lay, b);
      assert lay'.tables[..i][b] == lay'.tables[b] && lay'.owner[..i][b] == lay'.owner[b];
      OtherDistances(lay.tables[b], lay.owner[b], lay.dist, lay'.dist, es, b);
      TableAtLater(out, TableBytes(lay'.tables[i]), lay.hpos[b] - HEADER, lay.tables[b]);
      assert final'[8 * b..8 * b + 8] == final'[..8 * i][8 * b..8 * b + 8];
      assert final[8 * b..8 * b + 8] == final[..8 * i][8 * b..8 * b + 8];
    }
    assert BuiltTable(final', out', es, lay', i);
  }

  // ---- limits ---------------------------------------------------------------

  /** The most entries any bucket below b has. */
  function Largest(es: seq<Hp>, b: nat): nat {
    if b == 0 then 0
    else var m := Largest(es, b - 1); if Count(es, b - 1) > m then Count(es, b - 1) else m
  }

  /** Slots allocated for the sorted entries and the largest hash table. */
  function MemSize(es: seq<Hp>): nat {
    (if 2 * Largest(es, BUCKETS) > 1 then 2 * Largest(es, BUCKETS) else 1) + |es|
  }

  lemma {:induction false} LargestMeans(es: seq<Hp>, b: nat)
    ensures Largest(es, b) <= |es|
    ensures forall c | 0 <= c < b :: Count(es, c) <= Largest(es, b)
  {
    if b > 0 {
      LargestMeans(es, b - 1);
      IdxInMeans(es, b - 1, |es|);
    }
  }

  /** Exactly when cdb_make_finish can finish: its memory request does not
      overflow and the file stays below 2^32 bytes. */
  predicate Finishable(recs: seq<Record>)
    requires Storable(recs)
  {
    MemSize(EntriesOf(recs)) <= 0xFFFF_FFFF / 8 && HEADER + |Stream(recs)| + 16 * |recs| < TWO32
  }

  lemma OneMore(recs: seq<Record>, r: Record)
    requires Storable(recs)
    ensures Stream(recs + [r]) == Stream(recs) + RecordBytes(r)
    ensures Storable(recs + [r]) ==>
              EntriesOf(recs + [r]) == EntriesOf(recs) + [Hp(CdbHash(r.key), HEADER + |Stream(recs)|)]
  {
    hide CdbHash;
    hide RecordBytes;
    hide Stream;
    hide EntriesOf;
    hide Storable;
    var more := recs + [r];
    assert more[..|more| - 1] == recs && more[|more| - 1] == r;
    StreamStep(recs, r, more);
    if Storable(more) {
      EntriesStep(recs, r, more);
    }
  }

  lemma BucketNumbers(count: seq<uint32>, start: seq<uint32>, es: seq<Hp>, i: nat)
    requires i < BUCKETS && CountedFrom(count, es, 0) && StartsAt(start, es, 0)
    ensures |count| == |start| == BUCKETS
    ensures count[i] == Count(es, i) <= |es| && start[i] == Base(es, i, |es|)
  {
    IdxInMeans(es, i, |es|);
  }

  // ---- the writer -----------------------------------------------------------

  /** struct cdb_make. head is the list of entry blocks, newest first; out is
      what has been handed to the output buffer since position 2048. */
  class Maker {
    const final: array<byte>
    const count: array<uint32>
    const start: array<uint32>
    var split: array<Hp>
    var head: seq<seq<Hp>>
    var numentries: uint32
    var pos: uint32
    var out: seq<byte>
    ghost var recs: seq<Record>

    ghost predicate Valid()
      reads this
    {
      && Shape()
      && Storable(recs) && out == Stream(recs) && pos == HEADER + |out|
      && Entries(head) == EntriesOf(recs) && numentries == |recs|
    }

    ghost predicate Shape() {
      final.Length == HEADER && count.Length == start.Length == BUCKETS && count != start
    }

    /** cdb_make_start. */
    constructor ()
      ensures Valid() && recs == [] && fresh(final) && fresh(count) && fresh(start) && fresh(split)
    {
      final := new byte[HEADER](_ => 0);
      count := new uint32[BUCKETS](_ => 0);
      start := new uint32[BUCKETS](_ => 0);
      split := new Hp[0](_ => Hp(0, 0));
      head, numentries, pos, out, recs := [], 0, HEADER, [], [];
    }

    /** posplus: refuse to let pos pass 2^32. */
    method PosPlus(len: uint32) returns (ok: bool)
      modifies this`pos
      ensures ok <==> old(pos) + len < TWO32
      ensures pos == if ok then old(pos) + len else old(pos)
    {
      var newpos := Add32(pos, len);
      if newpos < len {
        return false;
      }
      pos := newpos;
      return true;
    }

    /** cdb_make_addend: remember hash and position, then move past the record. */
    method AddEnd(keylen: uint32, datalen: uint32, h: uint32) returns (ok: bool)
      modifies this`head, this`numentries, this`pos
      ensures ok <==> old(pos) + 8 + keylen + datalen < TWO32
      ensures ok ==> pos == old(pos) + 8 + keylen + datalen
      ensures Entries(head) == old(Entries(head)) + [Hp(h, old(pos))]
      ensures numentries == Add32(old(numentries), 1)
    {
      if head == [] || |head[0]| >= HPLIST {
        head := [[]] + head;
        assert head[1..] == old(head);
      }
      assert Entries(head) == Entries(head[1..]) + head[0];
      head := [head[0] + [Hp(h, pos)]] + head[1..];
      numentries := Add32(numentries, 1);
      ok := PosPlus(8);
      if !ok {
        return;
      }
      ok := PosPlus(keylen);
      if !ok {
        return;
      }
      ok := PosPlus(datalen);
    }

    /** cdb_make_add: succeeds exactly when the record still fits below 2^32. */
    method Add(key: seq<byte>, data: seq<byte>) returns (ok: bool)
      requires Valid() && |key| < TWO32 && |data| < TWO32
      modifies this
      ensures ok <==> Storable(old(recs) + [Record(key, data)])
      ensures ok ==> Valid() && recs == old(recs) + [Record(key, data)] && split == old(split)
    {
      hide Stream;
      hide EntriesOf;
      hide CdbHash;
      hide Entries;
      hide Pack;
      ghost var r := Record(key, data);
      OneMore(recs, r);
      StreamSize(recs);
      out := out + Pack(|key|) + Pack(|data|);
      out := out + key;
      out := out + data;
      var h := Hash(key);
      ok := AddEnd(|key|, |data|, h);
      assert out == old(out) + RecordBytes(r);
      recs := recs + [r];
    }

    /** Write len slots of the table in split[n..], eight bytes each. */
    method WriteTable(n: nat, len: nat) returns (ok: bool)
      requires n + len <= split.Length
      modifies this`out, this`pos
      ensures ok <==> old(pos) + 8 * len < TWO32
      ensures ok ==> pos == old(pos) + 8 * len && out == old(out) + TableBytes(split[n..n + len])
    {
      for u := 0 to len
        invariant pos == old(pos) + 8 * u && out == old(out) + TableBytes(split[n..n + u])
      {
        assert split[n..n + u + 1][..u] == split[n..n + u];
        out := out + SlotBytes(split[n + u]);
        ok := PosPlus(8);
        if !ok {
          return;
        }
      }
      ok := true;
    }

    /** The state between two buckets of cdb_make_finish. */
    ghost predicate Between(es: seq<Hp>, lay: Layout, i: nat)
      reads this, final, count, start, split
    {
      && Shape() && i <= BUCKETS && |es| < TWO32 / 8 && (forall j | 0 <= j < |es| :: es[j].p != 0)
      && CountedFrom(count[..], es, 0) && StartsAt(start[..], es, 0)
      && |es| <= split.Length && SortedFrom(split[..|es|], es, 0)
      && (forall b | 0 <= b < BUCKETS :: |es| + 2 * Count(es, b) <= split.Length)
      && pos == HEADER + |out| && Built(final[..], out, es, lay, i)
    }

    /** The directory entry of bucket i. */
    method WriteEntry(i: nat, d: seq<byte>)
      requires i < BUCKETS && final.Length == HEADER && |d| == 8
      modifies final
      ensures final[..][8 * i..8 * i + 8] == d && final[..][..8 * i] == old(final[..])[..8 * i]
    {
      forall k | 0 <= k < 8 {
        final[8 * i + k] := d[k];
      }
    }

    /** One bucket: directory entry, hash table, table bytes. */
    method FinishBucket(i: nat, ghost es: seq<Hp>, ghost lay: Layout) returns (ok: bool, ghost lay': Layout)
      requires i < BUCKETS && Between(es, lay, i) && numentries == |es|
      modifies this`out, this`pos, final, split
      ensures ok <==> old(pos) + 16 * Count(es, i) < TWO32
      ensures ok ==> Between(es, lay', i + 1) && pos == old(pos) + 16 * Count(es, i) && old(out) <= out
    {
      hide CountedFrom;
      hide StartsAt;
      hide SortedFrom;
      hide BuiltTable;
      hide Pack;
      hide TableOf;
      var n := numentries;
      var cnt := count[i];
      BucketNumbers(count[..], start[..], es, i);
      var len := Add32(cnt, cnt);
      ghost var final0, out0 := final[..], out;
      var d := Pack(pos) + Pack(len);
      WriteEntry(i, d);
      assert split[..n] == old(split[..n]);
      ghost var owner, dist;
      owner, dist := BuildTable(split, n, start[i], cnt, es, i, lay.dist);
      ghost var t := split[n..n + len];
      ok := WriteTable(n, len);
      if ok {
        lay' := Layout(lay.tables + [t], lay.hpos + [HEADER + |out0|], lay.owner + [owner], dist);
        BuiltStep(final0, out0, final[..], out, es, lay, lay', i);
        assert count[..] == old(count[..]) && start[..] == old(start[..]) && split[..n] == old(split[..n]);
      } else {
        lay' := lay;
      }
    }

    /** Second loop: how much memory the sort and the largest table need. */
    method Allocate(ghost es: seq<Hp>) returns (ok: bool)
      requires Shape() && |es| < TWO32 / 8 && numentries == |es| && CountedFrom(count[..], es, 0)
      modifies this`split
      ensures ok <==> MemSize(es) <= 0xFFFF_FFFF / 8
      ensures ok ==> fresh(split) && |es| <= split.Length
                     && forall b | 0 <= b < BUCKETS :: |es| + 2 * Count(es, b) <= split.Length
    {
      var memsize: uint32 := 1;
      LargestMeans(es, BUCKETS);
      for i := 0 to BUCKETS
        invariant memsize == if 2 * Largest(es, i) > 1 then 2 * Largest(es, i) else 1
        invariant memsize <= 1 + 2 * |es|
      {
        LargestMeans(es, i);
        IdxInMeans(es, i, |es|);
        assert count[i] == Count(es, i);
        var u := Add32(count[i], count[i]);
        if u > memsize {
          memsize := u;
        }
      }
      memsize := Add32(memsize, numentries);
      if memsize > 0xFFFF_FFFF / 8 {
        return false;
      }
      split := new Hp[memsize](_ => Hp(0, 0));
      return true;
    }

    /** Count the buckets, allocate, and sort the entries by bucket. */
    method Sort(ghost es: seq<Hp>) returns (ok: bool, ghost lay: Layout)
      requires Valid() && es == EntriesOf(recs)
      modifies this`split, count, start
      ensures ok <==> MemSize(es) <= 0xFFFF_FFFF / 8
      ensures ok ==> fresh(split) && Between(es, lay, 0)
    {
      hide CountedFrom;
      hide StartsAt;
      hide SortedFrom;
      hide Stream;
      hide EntriesOf;
      hide Entries;
      hide MemSize;
      lay := Layout([], [], [], seq(|es|, _ => 0));
      StreamSize(recs);
      forall j | 0 <= j < |es| ensures es[j].p != 0 {
        RecordsInStream(recs, j);
      }
      CountBuckets(head, count);
      ok := Allocate(es);
      if !ok {
        return;
      }
      Ends(count, start, es);
      Distribute(head, start, split, es);
      SortedPrefix(split[..], es);
    }

    /** cdb_make_finish: on success, the finished file is a database of exactly
        the records added. */
    method Finish() returns (ok: bool, file: seq<byte>, ghost lay: Layout)
      requires Valid()
      modifies this, final, count, start
      ensures recs == old(recs)
      ensures ok <==> Finishable(recs)
      ensures ok ==> IsCdb(file, recs, lay)
    {
      hide CountedFrom;
      hide StartsAt;
      hide SortedFrom;
      hide IsCdb;
      hide Stream;
      hide EntriesOf;
      hide Entries;
      hide MemSize;
      ghost var es, stream := EntriesOf(recs), out;
      file := [];
      ok, lay := Sort(es);
      if !ok {
        return;
      }
      BaseTotal(es, |es|);
      for i := 0 to BUCKETS
        invariant Between(es, lay, i) && recs == old(recs) && numentries == |es| && fresh(split)
        invariant stream <= out && |out| == |stream| + 16 * Base(es, i, |es|)
      {
        BaseMonotone(es, i + 1, BUCKETS, |es|);
        ok, lay := FinishBucket(i, es, lay);
        if !ok {
          return;
        }
      }
      BuiltAll(final[..], out, recs, lay);
      file := final[..] + out;
    }
  }

  lemma SortedPrefix(split: seq<Hp>, es: seq<Hp>)
    requires SortedFrom(split, es, 0)
    ensures |es| <= |split| && SortedFrom(split[..|es|], es, 0)
  {
    forall j | 0 <= j < |es| ensures SortedAt(split[..|es|], es, j) {
      assert SortedAt(split, es, j);
    }
  }
}
