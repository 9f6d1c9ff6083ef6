/** The layout of a constant database file: records, then 256 hash tables, with
    a 2048-byte directory of the tables in front. */
module CdbFormat {
  import opened Bytes

  datatype Record = Record(key: seq<byte>, data: seq<byte>)

  /** A hash and a record position, as the tables store them (struct cdb_hp). */
  datatype Hp = Hp(h: uint32, p: uint32)

  const HEADER: nat := 2048
  const BUCKETS: nat := 256

  // ---- the hash -------------------------------------------------------------

  function Xor8(a: byte, b: byte): byte {
    ((a as bv8) ^ (b as bv8)) as int
  }

  /** m without its low byte. */
  function HighBytes(m: uint32): (h: uint32)
    ensures h <= TWO32 - 256
  {
    m / 256 * 256
  }

  /** m ^ c: the byte reaches the low eight bits only. */
  function XorByte(m: uint32, c: byte): uint32 {
    HighBytes(m) + Xor8(m % 256, c)
  }

  /** One step of the hash: multiply by 33 modulo 2^32, then xor in the byte. */
  function CdbHashAdd(h: uint32, c: byte): uint32 {
    XorByte(h * 33 % TWO32, c)
  }

  function HashFrom(h: uint32, buf: seq<byte>): uint32
    decreases |buf|
  {
    if buf == [] then h else HashFrom(CdbHashAdd(h, buf[0]), buf[1..])
  }

  function CdbHash(buf: seq<byte>): uint32 { HashFrom(5381, buf) }

  lemma Times33(h: uint32)
    ensures Add32(h, 32 * h % TWO32) == h * 33 % TWO32
  {
    var q, r := 32 * h / TWO32, 32 * h % TWO32;
    assert h * 33 == q * TWO32 + (h + r);
  }

  /** cdb_hashadd: h += h << 5, then xor with the byte. */
  method HashAdd(h: uint32, c: byte) returns (r: uint32)
    ensures r == CdbHashAdd(h, c)
  {
    Times33(h);
    hide XorByte;
    hide Add32;
    r := XorByte(Add32(h, 32 * h % TWO32), c);
  }

  /** The loop of cdb_hash. */
  method Hash(buf: seq<byte>) returns (h: uint32)
    ensures h == CdbHash(buf)
  {
    hide CdbHashAdd;
    h := 5381;
    for i := 0 to |buf|
      invariant HashFrom(h, buf[i..]) == CdbHash(buf)
    {
      assert buf[i..][0] == buf[i] && buf[i..][1..] == buf[i + 1..];
      h := HashAdd(h, buf[i]);
    }
  }

  // ---- records --------------------------------------------------------------

  function RecordBytes(r: Record): seq<byte> {
    Pack(|r.key|) + Pack(|r.data|) + r.key + r.data
  }

  /** All records, in the order in which they were added. */
  function Stream(recs: seq<Record>): seq<byte> {
    if recs == [] then [] else Stream(recs[..|recs| - 1]) + RecordBytes(recs[|recs| - 1])
  }

  predicate Storable(recs: seq<Record>) { HEADER + |Stream(recs)| < TWO32 }

  /** Hash and position of every record. */
  function EntriesOf(recs: seq<Record>): (es: seq<Hp>)
    requires Storable(recs)
    ensures |es| == |recs|
  {
    if recs == [] then [] else
    var init := recs[..|recs| - 1];
    EntriesOf(init) + [Hp(CdbHash(recs[|recs| - 1].key), HEADER + |Stream(init)|)]
  }

  /** The records that carry a key, oldest first, among the first n. */
  function MatchIdx(recs: seq<Record>, key: seq<byte>, n: nat): seq<nat>
    requires n <= |recs|
  {
    if n == 0 then []
    else if recs[n - 1].key == key then MatchIdx(recs, key, n - 1) + [n - 1]
    else MatchIdx(recs, key, n - 1)
  }

  function Matches(recs: seq<Record>, key: seq<byte>): seq<nat> {
    MatchIdx(recs, key, |recs|)
  }

  /** What a lookup must deliver: the data of the records with that key, in insertion order. */
  function DataOf(recs: seq<Record>, key: seq<byte>): seq<seq<byte>> {
    if recs == [] then []
    else
      var r := recs[|recs| - 1];
      DataOf(recs[..|recs| - 1], key) + (if r.key == key then [r.data] else [])
  }

  // ---- hash tables ----------------------------------------------------------

  function Bucket(e: Hp): nat { e.h % 256 }

  /** The entries of bucket b among the first n, oldest first. */
  function IdxIn(es: seq<Hp>, b: nat, n: nat): seq<nat>
    requires n <= |es|
  {
    if n == 0 then []
    else if Bucket(es[n - 1]) == b then IdxIn(es, b, n - 1) + [n - 1]
    else IdxIn(es, b, n - 1)
  }

  function Count(es: seq<Hp>, b: nat): nat { |IdxIn(es, b, |es|)| }

  /** Where the search for hash h starts in a table of len slots. */
  function Home(h: uint32, len: nat): nat
    requires len > 0
  {
    h / 256 % len
  }

  /** The slot d steps after home, going round at the end of the table. */
  function Slot(home: nat, d: nat, len: nat): nat
    requires home < len && d <= len
  {
    if home + d < len then home + d else home + d - len
  }

  /** Table t of bucket b holds exactly the entries of that bucket among the
      first n. owner[s] is the index of the entry in slot s (-1 for a free
      slot), dist[j] the number of steps from entry j's home to its slot; every
      slot passed over on the way holds an older entry. */
  ghost predicate TableOf(t: seq<Hp>, owner: seq<int>, dist: seq<nat>, es: seq<Hp>, b: nat, n: nat) {
    && |owner| == |t| && |dist| == |es| && n <= |es|
    && (forall s {:trigger owner[s]} | 0 <= s < |t| ::
          -1 <= owner[s] < n
          && (owner[s] == -1 ==> t[s] == Hp(0, 0))
          && (owner[s] >= 0 ==> t[s] == es[owner[s]] && Bucket(t[s]) == b
                                && dist[owner[s]] < |t| && s == Slot(Home(t[s].h, |t|), dist[owner[s]], |t|)))
    && (forall j {:trigger es[j]} | 0 <= j < n && Bucket(es[j]) == b :: Placed(t, owner, dist, es, j))
  }

  ghost predicate Placed(t: seq<Hp>, owner: seq<int>, dist: seq<nat>, es: seq<Hp>, j: nat)
    requires |owner| == |t| && |dist| == |es| && j < |es|
  {
    && dist[j] < |t|
    && owner[Slot(Home(es[j].h, |t|), dist[j], |t|)] == j
    && (forall d | 0 <= d < dist[j] :: 0 <= owner[Slot(Home(es[j].h, |t|), d, |t|)] < j)
  }

  function SlotBytes(e: Hp): (s: seq<byte>)
    ensures |s| == 8
  {
    Pack(e.h) + Pack(e.p)
  }

  /** The slots of t lie one after the other in f, from position p on. */
  ghost predicate TableAt(f: seq<byte>, p: nat, t: seq<Hp>) {
    && p + 8 * |t| <= |f|
    && (forall s {:trigger t[s]} | 0 <= s < |t| :: f[p + 8 * s..p + 8 * s + 8] == SlotBytes(t[s]))
  }

  ghost predicate RecordAt(f: seq<byte>, p: nat, r: Record) {
    p + |RecordBytes(r)| <= |f| && f[p..p + |RecordBytes(r)|] == RecordBytes(r)
  }

  /** How the records were laid out: for each bucket its table, the table's
      position and the owners of its slots; for each record its probe distance. */
  datatype Layout = Layout(tables: seq<seq<Hp>>, hpos: seq<uint32>, owner: seq<seq<int>>, dist: seq<nat>)

  /** f is a constant database of exactly the records recs. */
  ghost predicate IsCdb(f: seq<byte>, recs: seq<Record>, lay: Layout) {
    && HEADER <= |f| < TWO32 && Storable(recs)
    && |lay.tables| == |lay.hpos| == |lay.owner| == BUCKETS
    && (forall j {:trigger recs[j]} | 0 <= j < |recs| :: RecordAt(f, EntriesOf(recs)[j].p, recs[j]))
    && (forall b {:trigger lay.tables[b]} | 0 <= b < BUCKETS ::
          && TableOf(lay.tables[b], lay.owner[b], lay.dist, EntriesOf(recs), b, |recs|)
          && TableAt(f, lay.hpos[b], lay.tables[b])
          && f[8 * b..8 * b + 8] == Pack(lay.hpos[b]) + Pack(|lay.tables[b]|))
  }
}
