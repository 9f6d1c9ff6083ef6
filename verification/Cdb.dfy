/** The reader of constant databases: cdb_find and cdb_findnext. */
module Cdb {
  import opened Bytes
  import opened CdbFormat

  // ---- facts about matches --------------------------------------------------

  lemma {:induction false} MatchIdxMeans(recs: seq<Record>, key: seq<byte>, n: nat)
    requires n <= |recs|
    ensures forall i | 0 <= i < |MatchIdx(recs, key, n)| ::
              MatchIdx(recs, key, n)[i] < n && recs[MatchIdx(recs, key, n)[i]].key == key
    ensures forall i, k | 0 <= i < k < |MatchIdx(recs, key, n)| ::
              MatchIdx(recs, key, n)[i] < MatchIdx(recs, key, n)[k]
    ensures forall j | 0 <= j < n && recs[j].key == key :: j in MatchIdx(recs, key, n)
  {
    if n > 0 {
      MatchIdxMeans(recs, key, n - 1);
    }
  }

  lemma {:induction false} MatchIdxPrefix(recs: seq<Record>, more: seq<Record>, key: seq<byte>, n: nat)
    requires n <= |recs| && recs <= more
    ensures MatchIdx(recs, key, n) == MatchIdx(more, key, n)
  {
    if n > 0 {
      MatchIdxPrefix(recs, more, key, n - 1);
    }
  }

  lemma OneMore<T>(s: seq<T>, k: nat)
    requires k < |s|
    ensures s[..k] + [s[k]] == s[..k + 1] && s[..|s|] == s
  {
  }

  /** Reading the matching records one by one yields DataOf. */
  lemma {:induction false} DataOfMatches(recs: seq<Record>, key: seq<byte>)
    ensures |DataOf(recs, key)| == |Matches(recs, key)|
    ensures forall i | 0 <= i < |Matches(recs, key)| ::
              Matches(recs, key)[i] < |recs| && DataOf(recs, key)[i] == recs[Matches(recs, key)[i]].data
  {
    hide MatchIdx;
    hide DataOf;
    hide Matches;
    if recs == [] {
      NoMatches(key);
    } else {
      var init, r := recs[..|recs| - 1], recs[|recs| - 1];
      DataOfMatches(init, key);
      MatchesStep(recs, key);
      MatchesInside(init, key);
    }
  }

  lemma NoMatches(key: seq<byte>)
    ensures Matches([], key) == [] && DataOf([], key) == []
  {
  }

  lemma MatchesInside(recs: seq<Record>, key: seq<byte>)
    ensures forall i | 0 <= i < |Matches(recs, key)| :: Matches(recs, key)[i] < |recs|
  {
    hide MatchIdx;
    MatchIdxMeans(recs, key, |recs|);
  }

  /** The last record comes last among the matches. */
  lemma MatchesStep(recs: seq<Record>, key: seq<byte>)
    requires recs != []
    ensures var init, r := recs[..|recs| - 1], recs[|recs| - 1];
            && Matches(recs, key) == Matches(init, key) + (if r.key == key then [|init|] else [])
            && DataOf(recs, key) == DataOf(init, key) + (if r.key == key then [r.data] else [])
  {
    var init := recs[..|recs| - 1];
    MatchIdxPrefix(init, recs, key, |init|);
  }

  /** Probe distances of two entries with the same home keep insertion order. */
  lemma DistOrder(t: seq<Hp>, owner: seq<int>, dist: seq<nat>, es: seq<Hp>, b: nat, n: nat, i: nat, j: nat)
    requires TableOf(t, owner, dist, es, b, n)
    requires i < j < n && es[i].h == es[j].h && Bucket(es[i]) == b
    ensures dist[i] < dist[j]
  {
    assert Placed(t, owner, dist, es, i) && Placed(t, owner, dist, es, j);
  }

  lemma {:induction false} EntryAt(recs: seq<Record>, j: nat)
    requires Storable(recs) && j < |recs|
    ensures EntriesOf(recs)[j].h == CdbHash(recs[j].key)
    ensures HEADER <= EntriesOf(recs)[j].p
    ensures EntriesOf(recs)[j].p + |RecordBytes(recs[j])| <= HEADER + |Stream(recs)|
  {
    if j < |recs| - 1 {
      EntryAt(recs[..|recs| - 1], j);
    }
  }

  // ---- one probe ------------------------------------------------------------

  /** The 8 directory bytes of key's bucket give its table. */
  lemma DirectoryRead(f: seq<byte>, recs: seq<Record>, lay: Layout, h: uint32)
    requires IsCdb(f, recs, lay)
    ensures Storable(recs) && |lay.tables| == |lay.hpos| == BUCKETS && |f| < TWO32
    ensures 8 * (h % 256) + 8 <= |f| && Shl3(h) % 2048 == 8 * (h % 256)
    ensures var t := lay.tables[h % 256];
            lay.hpos[h % 256] + 8 * |t| <= |f| && |t| < TWO32
            && f[8 * (h % 256)..8 * (h % 256) + 8] == Pack(lay.hpos[h % 256]) + Pack(|t|)
  {
    assert TableAt(f, lay.hpos[h % 256], lay.tables[h % 256]);
  }

  /** The shape of a database, without the detail of its tables. */
  lemma Shape(f: seq<byte>, recs: seq<Record>, lay: Layout, key: seq<byte>)
    requires IsCdb(f, recs, lay)
    ensures Storable(recs) && |lay.tables| == |lay.hpos| == BUCKETS
    ensures lay.hpos[CdbHash(key) % 256] + 8 * |lay.tables[CdbHash(key) % 256]| <= |f| < TWO32
    ensures Delivered(recs, key, lay.dist, 0, 0)
  {
    MatchIdxMeans(recs, key, |recs|);
    DirectoryRead(f, recs, lay, CdbHash(key));
    assert TableOf(lay.tables[0], lay.owner[0], lay.dist, EntriesOf(recs), 0, |recs|);
  }

  lemma SlotRead(f: seq<byte>, recs: seq<Record>, lay: Layout, b: nat, s: nat)
    requires IsCdb(f, recs, lay) && b < BUCKETS && s < |lay.tables[b]|
    ensures lay.hpos[b] + 8 * s + 8 <= lay.hpos[b] + 8 * |lay.tables[b]| <= |f|
    ensures f[lay.hpos[b] + 8 * s..lay.hpos[b] + 8 * s + 8] == SlotBytes(lay.tables[b][s])
  {
    assert TableAt(f, lay.hpos[b], lay.tables[b]);
  }

  /** A stored record read back field by field. */
  lemma RecordRead(f: seq<byte>, p: nat, r: Record)
    requires RecordAt(f, p, r)
    ensures p + 8 + |r.key| + |r.data| <= |f|
    ensures f[p..p + 8] == Pack(|r.key|) + Pack(|r.data|)
    ensures f[p + 8..p + 8 + |r.key|] == r.key
    ensures f[p + 8 + |r.key|..p + 8 + |r.key| + |r.data|] == r.data
  {
    var w := f[p..p + |RecordBytes(r)|];
    var k := 8 + |r.key|;
    assert w == Pack(|r.key|) + Pack(|r.data|) + r.key + r.data;
    SliceOfSlice(f, p, |w|, 0, 8);
    SliceOfSlice(f, p, |w|, 8, k);
    SliceOfSlice(f, p, |w|, k, |w|);
    assert w[0..8] == Pack(|r.key|) + Pack(|r.data|) && w[8..k] == r.key && w[k..|w|] == r.data;
    assert f[p..p + 8] == f[p + 0..p + 8];
  }

  /** Exactly the first k matches lie within the first steps probes. */
  ghost predicate Delivered(recs: seq<Record>, key: seq<byte>, dist: seq<nat>, steps: nat, k: nat) {
    && |dist| == |recs|
    && k <= |Matches(recs, key)|
    && forall i | 0 <= i < |Matches(recs, key)| ::
         Matches(recs, key)[i] < |recs| && (i < k <==> dist[Matches(recs, key)[i]] < steps)
  }

  /** A free slot, or the end of the table, means that every match was seen. */
  lemma SearchOver(f: seq<byte>, recs: seq<Record>, lay: Layout, key: seq<byte>, steps: nat, k: nat)
    requires IsCdb(f, recs, lay) && Delivered(recs, key, lay.dist, steps, k)
    requires var t := lay.tables[CdbHash(key) % 256];
             steps >= |t| || t[Slot(Home(CdbHash(key), |t|), steps, |t|)].p == 0
    ensures k == |Matches(recs, key)|
  {
    var b := CdbHash(key) % 256;
    SearchOverIn(recs, key, lay.tables[b], lay.owner[b], lay.dist, b, steps, k);
  }

  lemma SearchOverIn(recs: seq<Record>, key: seq<byte>, t: seq<Hp>, owner: seq<int>, dist: seq<nat>, b: nat,
                     steps: nat, k: nat)
    requires Storable(recs) && TableOf(t, owner, dist, EntriesOf(recs), b, |recs|) && CdbHash(key) % 256 == b
    requires Delivered(recs, key, dist, steps, k)
    requires steps >= |t| || t[Slot(Home(CdbHash(key), |t|), steps, |t|)].p == 0
    ensures k == |Matches(recs, key)|
  {
    if k < |Matches(recs, key)| {
      var j := Matches(recs, key)[k];
      MatchIdxMeans(recs, key, |recs|);
      EntryAt(recs, j);
      assert Placed(t, owner, dist, EntriesOf(recs), j);
      var o := owner[Slot(Home(CdbHash(key), |t|), steps, |t|)];
      assert o >= 0;
      EntryAt(recs, o);
    }
  }

  /** A taken slot, seen from a home: the entry in it started there exactly if
      its hash does, and then the slot is at that entry's distance. */
  lemma SlotOwner(t: seq<Hp>, owner: seq<int>, dist: seq<nat>, es: seq<Hp>, b: nat, h: uint32, steps: nat)
    requires TableOf(t, owner, dist, es, b, |es|) && steps < |t| && h % 256 == b
    requires t[Slot(Home(h, |t|), steps, |t|)] != Hp(0, 0)
    ensures var o := owner[Slot(Home(h, |t|), steps, |t|)];
            0 <= o < |es| && t[Slot(Home(h, |t|), steps, |t|)] == es[o]
            && (es[o].h == h ==> dist[o] == steps)
            && (forall j | 0 <= j < |es| && es[j].h == h && dist[j] == steps :: j == o)
  {
    var home := Home(h, |t|);
    var s := Slot(home, steps, |t|);
    assert owner[s] >= 0;
    forall j | 0 <= j < |es| && es[j].h == h && dist[j] == steps ensures j == owner[s] {
      assert Bucket(es[j]) == b;
      assert Placed(t, owner, dist, es, j);
    }
  }

  /** If the record at this distance has the key, it is the next match, and
      otherwise no match lies at this distance. */
  lemma NextMatch(recs: seq<Record>, key: seq<byte>, dist: seq<nat>, steps: nat, k: nat, o: nat)
    requires Delivered(recs, key, dist, steps, k) && o < |recs|
    requires forall i, j | 0 <= i < j < |Matches(recs, key)| :: dist[Matches(recs, key)[i]] < dist[Matches(recs, key)[j]]
    requires forall i | 0 <= i < |Matches(recs, key)| && dist[Matches(recs, key)[i]] == steps :: Matches(recs, key)[i] == o
    requires recs[o].key == key ==> dist[o] == steps
    ensures if recs[o].key == key
            then k < |Matches(recs, key)| && Matches(recs, key)[k] == o && Delivered(recs, key, dist, steps + 1, k + 1)
            else Delivered(recs, key, dist, steps + 1, k)
  {
    var m := Matches(recs, key);
    MatchIdxMeans(recs, key, |recs|);
    if recs[o].key == key {
      var i :| 0 <= i < |m| && m[i] == o;
      assert i >= k;
    }
  }

  lemma MatchesSpread(recs: seq<Record>, key: seq<byte>, t: seq<Hp>, owner: seq<int>, dist: seq<nat>, b: nat)
    requires Storable(recs) && TableOf(t, owner, dist, EntriesOf(recs), b, |recs|) && CdbHash(key) % 256 == b
    ensures forall i | 0 <= i < |Matches(recs, key)| ::
              Matches(recs, key)[i] < |recs| && EntriesOf(recs)[Matches(recs, key)[i]].h == CdbHash(key)
    ensures forall i, j | 0 <= i < j < |Matches(recs, key)| :: dist[Matches(recs, key)[i]] < dist[Matches(recs, key)[j]]
  {
    var m := Matches(recs, key);
    MatchIdxMeans(recs, key, |recs|);
    forall i | 0 <= i < |m| ensures EntriesOf(recs)[m[i]].h == CdbHash(key) {
      EntryAt(recs, m[i]);
    }
    forall i, j | 0 <= i < j < |m| ensures dist[m[i]] < dist[m[j]] {
      DistOrder(t, owner, dist, EntriesOf(recs), b, |recs|, m[i], m[j]);
    }
  }

  /** A taken slot holds a record, either the next match or no match at all. */
  lemma SlotTaken(f: seq<byte>, recs: seq<Record>, lay: Layout, key: seq<byte>, steps: nat, k: nat) returns (o: nat)
    requires IsCdb(f, recs, lay) && Delivered(recs, key, lay.dist, steps, k)
    requires steps < |lay.tables[CdbHash(key) % 256]|
    requires var t := lay.tables[CdbHash(key) % 256]; t[Slot(Home(CdbHash(key), |t|), steps, |t|)].p != 0
    ensures o < |recs|
    ensures var t := lay.tables[CdbHash(key) % 256];
            t[Slot(Home(CdbHash(key), |t|), steps, |t|)] == EntriesOf(recs)[o]
    ensures RecordAt(f, EntriesOf(recs)[o].p, recs[o])
    ensures EntriesOf(recs)[o].h == CdbHash(recs[o].key)
    ensures if recs[o].key == key
            then k < |Matches(recs, key)| && Matches(recs, key)[k] == o && Delivered(recs, key, lay.dist, steps + 1, k + 1)
            else Delivered(recs, key, lay.dist, steps + 1, k)
  {
    var b := CdbHash(key) % 256;
    var t := lay.tables[b];
    o := SlotTakenIn(recs, key, t, lay.owner[b], lay.dist, b, steps, k);
    EntryAt(recs, o);
    assert RecordAt(f, EntriesOf(recs)[o].p, recs[o]);
  }

  lemma SlotTakenIn(recs: seq<Record>, key: seq<byte>, t: seq<Hp>, owner: seq<int>, dist: seq<nat>, b: nat,
                    steps: nat, k: nat) returns (o: nat)
    requires Storable(recs) && TableOf(t, owner, dist, EntriesOf(recs), b, |recs|) && CdbHash(key) % 256 == b
    requires Delivered(recs, key, dist, steps, k)
    requires steps < |t| && t[Slot(Home(CdbHash(key), |t|), steps, |t|)].p != 0
    ensures o < |recs| && t[Slot(Home(CdbHash(key), |t|), steps, |t|)] == EntriesOf(recs)[o]
    ensures if recs[o].key == key
            then k < |Matches(recs, key)| && Matches(recs, key)[k] == o && Delivered(recs, key, dist, steps + 1, k + 1)
            else Delivered(recs, key, dist, steps + 1, k)
  {
    SlotOwner(t, owner, dist, EntriesOf(recs), b, CdbHash(key), steps);
    o := owner[Slot(Home(CdbHash(key), |t|), steps, |t|)];
    MatchesSpread(recs, key, t, owner, dist, b);
    EntryAt(recs, o);
    NextMatch(recs, key, dist, steps, k, o);
  }

  /** What the slot at kpos tells: either the search is over, or it names record o. */
  ghost predicate SlotTells(f: seq<byte>, recs: seq<Record>, lay: Layout, key: seq<byte>, kpos: nat, steps: nat, k: nat,
                            e: Hp, o: nat)
  {
    && kpos + 8 <= |f| && f[kpos..kpos + 8] == SlotBytes(e)
    && (e.p == 0 ==> k == |Matches(recs, key)|)
    && (e.p != 0 ==>
          && o < |recs| && RecordAt(f, e.p, recs[o]) && e.h == CdbHash(recs[o].key)
          && (recs[o].key == key ==> k < |Matches(recs, key)| && Matches(recs, key)[k] == o)
          && Delivered(recs, key, lay.dist, steps + 1, if recs[o].key == key then k + 1 else k))
  }

  lemma ReadingSlot(f: seq<byte>, recs: seq<Record>, lay: Layout, key: seq<byte>, kpos: nat, steps: nat, k: nat)
    returns (e: Hp, o: nat)
    requires IsCdb(f, recs, lay) && Delivered(recs, key, lay.dist, steps, k)
    requires var b := CdbHash(key) % 256;
             var len := |lay.tables[b]|;
             steps < len && kpos == lay.hpos[b] + 8 * Slot(Home(CdbHash(key), len), steps, len)
    ensures SlotTells(f, recs, lay, key, kpos, steps, k, e, o)
  {
    var b := CdbHash(key) % 256;
    var t := lay.tables[b];
    var s := Slot(Home(CdbHash(key), |t|), steps, |t|);
    SlotRead(f, recs, lay, b, s);
    e, o := t[s], 0;
    if e.p == 0 {
      SearchOver(f, recs, lay, key, steps, k);
    } else {
      o := SlotTaken(f, recs, lay, key, steps, k);
    }
  }

  // ---- the reader -----------------------------------------------------------

  /** The first done bytes of key stand at position start. */
  ghost predicate Agrees(file: seq<byte>, start: nat, key: seq<byte>, done: nat)
    requires done <= |key|
  {
    done == 0 || (start + done <= |file| && file[start..start + done] == key[..done])
  }

  lemma Slices(s: seq<byte>, i: nat, n: nat)
    requires i + n <= |s|
    ensures s[i..][..n] == s[i..i + n] && s[i..][n..] == s[i + n..] && s[..i + n] == s[..i] + s[i..i + n]
    ensures s[..|s|] == s
  {
  }

  lemma TwoSlices(s: seq<byte>, p: nat, i: nat, n: nat)
    requires p + i + n <= |s|
    ensures s[p..p + i + n] == s[p..p + i] + s[p + i..p + i + n]
  {
  }

  /** n more bytes of key agree, or key does not stand there. */
  lemma AgreesStep(file: seq<byte>, start: nat, key: seq<byte>, done: nat, n: nat)
    requires done + n <= |key| && start + done + n <= |file| && Agrees(file, start, key, done)
    ensures if file[start + done..start + done + n] == key[done..][..n] then Agrees(file, start, key, done + n)
            else !Agrees(file, start, key, |key|)
    ensures key[done..][n..] == key[done + n..]
  {
    Slices(key, done, n);
    TwoSlices(file, start, done, n);
    if start + |key| <= |file| && file[start..start + |key|] == key {
      SliceOfSlice(file, start, |key|, done, done + n);
    }
  }

  lemma AgreesNone(file: seq<byte>, start: nat, key: seq<byte>)
    ensures Agrees(file, start, key, 0)
  {
  }

  lemma AgreesMeans(file: seq<byte>, start: nat, key: seq<byte>)
    ensures start + |key| <= |file| ==> (Agrees(file, start, key, |key|) <==> file[start..start + |key|] == key)
    ensures start + |key| > |file| && key != [] ==> !Agrees(file, start, key, |key|)
  {
    assert key[..|key|] == key;
  }


  /** struct cdb over a mapped file: the file bytes and the state of a search. */
  class Reader {
    const map_: seq<byte>
    var loop: uint32
    var khash: uint32
    var kpos: uint32
    var hpos: uint32
    var hslots: uint32
    var dpos: uint32
    var dlen: uint32

    constructor (file: seq<byte>)
      ensures map_ == file && loop == 0
    {
      map_ := file;
      loop, khash, kpos, hpos, hslots, dpos, dlen := 0, 0, 0, 0, 0, 0, 0;
    }

    /** cdb_read: len bytes at pos, or None beyond the end of the file. */
    method Read(len: nat, pos: uint32) returns (ok: bool, buf: seq<byte>)
      ensures ok <==> pos + len <= |map_|
      ensures ok ==> buf == map_[pos..pos + len]
    {
      buf := [];
      ok := !(pos > |map_| || |map_| - pos < len);
      if ok {
        buf := map_[pos..pos + len];
      }
    }

    /** Compare key with the file at pos, 32 bytes at a time. */
    method Match(key: seq<byte>, start: uint32) returns (r: int)
      requires |map_| < TWO32
      ensures start + |key| <= |map_| ==> r == if map_[start..start + |key|] == key then 1 else 0
      ensures start + |key| > |map_| && key != [] ==> r <= 0
      ensures -1 <= r <= 1
    {
      hide Agrees;
      AgreesMeans(map_, start, key);
      AgreesNone(map_, start, key);
      var rest := key;
      var pos: uint32 := start;
      ghost var done := 0;
      while |rest| > 0
        invariant 0 <= done <= |key| && rest == key[done..] && Agrees(map_, start, key, done)
        invariant pos == start + done
      {
        var n := if 32 > |rest| then |rest| else 32;
        var ok, buf := Read(n, pos);
        if !ok {
          return -1;
        }
        AgreesStep(map_, start, key, done, n);
        if buf != rest[..n] {
          return 0;
        }
        pos := Add32(pos, n);
        done := done + n;
        rest := rest[n..];
      }
      return 1;
    }

    method FindStart()
      modifies this`loop
      ensures loop == 0
    {
      loop := 0;
    }

    /** The search for key in the database of recs has delivered k records. */
    ghost predicate Searching(key: seq<byte>, recs: seq<Record>, lay: Layout, k: nat)
      reads this
    {
      && IsCdb(map_, recs, lay)
      && (loop == 0 ==> k == 0)
      && (loop > 0 ==> Positioned(CdbHash(key), lay))
      && Delivered(recs, key, lay.dist, loop, k)
    }

    /** The cached fields belong to hash h and loop slots have been searched. */
    ghost predicate Positioned(h: uint32, lay: Layout)
      reads this
    {
      && |lay.tables| == |lay.hpos| == BUCKETS
      && khash == h
      && hslots == |lay.tables[h % 256]| && hpos == lay.hpos[h % 256]
      && 0 < hslots && loop <= hslots
      && kpos == hpos + 8 * Slot(Home(h, hslots), loop, hslots)
    }

    /** On a fresh search, read the directory entry of key's bucket and go to
        key's home slot. 0: the bucket is empty. */
    method Locate(key: seq<byte>, ghost recs: seq<Record>, ghost lay: Layout, ghost k: nat) returns (r: int)
      requires |map_| < TWO32
      modifies this
      ensures -1 <= r <= 1 && loop == old(loop)
      ensures old(Searching(key, recs, lay, k)) ==>
                Searching(key, recs, lay, k)
                && if r == 1 then Positioned(CdbHash(key), lay) else r == 0 && k == |Matches(recs, key)|
    {
      hide IsCdb;
      hide Delivered;
      hide Matches;
      hide Pack;
      if loop > 0 {
        return 1;
      }
      var u := Hash(key);
      ghost var valid := Searching(key, recs, lay, k);
      if valid {
        DirectoryRead(map_, recs, lay, u);
      }
      var ok, buf := Read(8, Shl3(u) % 2048);
      if !ok {
        return -1;
      }
      if valid {
        UnpackPair(buf, lay.hpos[u % 256], |lay.tables[u % 256]|);
      }
      hslots := Unpack(buf[4..]);
      if hslots == 0 {
        if valid {
          SearchOver(map_, recs, lay, key, 0, k);
        }
        return 0;
      }
      hpos := Unpack(buf[..4]);
      khash := u;
      kpos := Add32(hpos, Shl3(Home(u, hslots)));
      return 1;
    }

    /** Go to the next slot, round the end of the table. */
    method Advance(ghost home: nat)
      requires loop < hslots
      modifies this`loop, this`kpos
      ensures loop == old(loop) + 1
      ensures hpos + 8 * hslots < TWO32 && home < hslots && old(kpos) == hpos + 8 * Slot(home, old(loop), hslots) ==>
                kpos == hpos + 8 * Slot(home, loop, hslots)
    {
      loop := loop + 1;
      kpos := Add32(kpos, 8);
      if kpos == Add32(hpos, Shl3(hslots)) {
        kpos := hpos;
      }
    }

    /** Is key the key of the record at pos? If so (1), remember its data. */
    method CheckRecord(key: seq<byte>, pos: uint32, ghost rec: Record) returns (m: int)
      requires |key| < TWO32 && |map_| < TWO32
      modifies this`dpos, this`dlen
      ensures -1 <= m <= 1
      ensures RecordAt(map_, pos, rec) ==> m == if rec.key == key then 1 else 0
      ensures RecordAt(map_, pos, rec) && m == 1 ==>
                dpos + dlen <= |map_| && map_[dpos..dpos + dlen] == rec.data
    {
      ghost var valid := RecordAt(map_, pos, rec);
      if valid {
        RecordRead(map_, pos, rec);
      }
      var ok, buf := Read(8, pos);
      if !ok {
        return -1;
      }
      if valid {
        UnpackPair(buf, |rec.key|, |rec.data|);
      }
      if Unpack(buf[..4]) == |key| {
        m := Match(key, Add32(pos, 8));
        if m == 1 {
          dlen := Unpack(buf[4..]);
          dpos := Add32(Add32(pos, 8), |key|);
        }
        return m;
      }
      return 0;
    }

    /** Look at one slot. 1: the next record with this key; 0: another record;
        2: a free slot, so no further match; -1: not a database. */
    method Probe(key: seq<byte>, ghost recs: seq<Record>, ghost lay: Layout, ghost k: nat) returns (r: int)
      requires |key| < TWO32 && |map_| < TWO32 && loop < hslots
      modifies this
      ensures -1 <= r <= 2 && hslots == old(hslots)
      ensures 0 <= r <= 1 ==> loop == old(loop) + 1
      ensures old(Searching(key, recs, lay, k) && Positioned(CdbHash(key), lay)) ==>
                r != -1 && Positioned(CdbHash(key), lay)
                && (r == 0 ==> Searching(key, recs, lay, k))
                && (r == 1 ==> k < |Matches(recs, key)| && Searching(key, recs, lay, k + 1)
                               && FoundAt(recs[Matches(recs, key)[k]].data))
                && (r == 2 ==> Searching(key, recs, lay, k) && k == |Matches(recs, key)|)
    {
      hide IsCdb;
      hide Delivered;
      hide RecordAt;
      ghost var valid := Searching(key, recs, lay, k) && Positioned(CdbHash(key), lay);
      ghost var e, o := Hp(0, 0), 0;
      if valid {
        Shape(map_, recs, lay, key);
        e, o := ReadingSlot(map_, recs, lay, key, kpos, loop, k);
      }
      var ok, buf := Read(8, kpos);
      if !ok {
        return -1;
      }
      if valid {
        UnpackPair(buf, e.h, e.p);
      }
      var pos := Unpack(buf[4..]);
      if pos == 0 {
        return 2;
      }
      Advance(Home(khash, hslots));
      if Unpack(buf[..4]) != khash {
        return 0;
      }
      r := CheckRecord(key, pos, if valid then recs[o] else Record([], []));
    }

    ghost predicate FoundAt(data: seq<byte>)
      reads this
    {
      dpos + dlen <= |map_| && map_[dpos..dpos + dlen] == data
    }

    /** cdb_findnext: 1 and the place of the next record with this key, 0 when
        there is none left, -1 when the file is not a database. */
    method FindNext(key: seq<byte>, ghost recs: seq<Record>, ghost lay: Layout, ghost k: nat) returns (r: int)
      requires |key| < TWO32 && |map_| < TWO32
      modifies this
      ensures -1 <= r <= 1
      ensures old(Searching(key, recs, lay, k)) ==>
                if k < |Matches(recs, key)|
                then r == 1 && Searching(key, recs, lay, k + 1) && FoundAt(recs[Matches(recs, key)[k]].data)
                else r == 0 && Searching(key, recs, lay, k)
    {
      ghost var valid := Searching(key, recs, lay, k);
      r := Locate(key, recs, lay, k);
      if r != 1 {
        return r;
      }
      while loop < hslots
        invariant valid ==> Searching(key, recs, lay, k) && Positioned(CdbHash(key), lay)
      {
        r := Probe(key, recs, lay, k);
        if r != 0 {
          return if r == 2 then 0 else r;
        }
      }
      if valid {
        SearchOver(map_, recs, lay, key, loop, k);
      }
      return 0;
    }

    /** cdb_find: start over and look for the first record. */
    method Find(key: seq<byte>, ghost recs: seq<Record>, ghost lay: Layout) returns (r: int)
      requires |key| < TWO32 && |map_| < TWO32
      modifies this
      ensures -1 <= r <= 1
      ensures IsCdb(map_, recs, lay) ==>
                if DataOf(recs, key) != []
                then r == 1 && Searching(key, recs, lay, 1) && FoundAt(DataOf(recs, key)[0])
                else r == 0
    {
      hide IsCdb;
      FindStart();
      if IsCdb(map_, recs, lay) {
        Shape(map_, recs, lay, key);
      }
      MatchIdxMeans(recs, key, |recs|);
      DataOfMatches(recs, key);
      r := FindNext(key, recs, lay, 0);
    }

    /** cdb_find, then cdb_findnext until it returns 0, collecting the data:
        exactly the records with this key, in insertion order. */
    method FindAll(key: seq<byte>, ghost recs: seq<Record>, ghost lay: Layout) returns (datas: seq<seq<byte>>)
      requires |key| < TWO32 && IsCdb(map_, recs, lay)
      modifies this
      ensures datas == DataOf(recs, key)
    {
      hide IsCdb;
      hide DataOf;
      hide Matches;
      hide Positioned;
      hide Delivered;
      datas := [];
      Shape(map_, recs, lay, key);
      DataOfMatches(recs, key);
      var r := Find(key, recs, lay);
      while r == 1
        invariant r == 0 || r == 1
        invariant |datas| <= |DataOf(recs, key)| && datas == DataOf(recs, key)[..|datas|]
        invariant r == 0 ==> datas == DataOf(recs, key)
        invariant r == 1 ==> |datas| < |DataOf(recs, key)|
                             && Searching(key, recs, lay, |datas| + 1) && FoundAt(DataOf(recs, key)[|datas|])
        decreases |DataOf(recs, key)| - |datas| + r
      {
        var ok, data := Read(dlen, dpos);
        OneMore(DataOf(recs, key), |datas|);
        datas := datas + [data];
        r := FindNext(key, recs, lay, |datas|);
      }
    }
  }
}
