/** The byte cipher of safe.c: sixteen rounds through a 256-byte permutation, a key table
    of 1024 bytes, and a seed that is chained from byte to byte. */
module Safe {

  const KEYSIZE := 0x400
  const INT_MAX := 0x7fff_ffff
  const CHUNK := 1000

  // No property below depends on the entries of the key table.
  type Key = k: seq<bv8> | |k| == KEYSIZE witness seq(KEYSIZE, _ => 0)

  // ---------- the permutation ----------

  /** Byte k of a row of sixteen, the leftmost one first. */
  function Entry(row: bv128, k: bv8): bv8
    requires k < 16
  {
    ((row >> ((0x0f - k) << 3)) & 0xff) as bv8
  }

  function BoxRow(r: bv8): bv128 {
    if r < 8 then
      if r < 4 then
        if r < 2 then
          if r == 0 then 0x4685f04d_5812f457_df4c2087_b16a9d68 else 0x1796cdc5_a7bda226_49a86c0c_8406bc13
        else
          if r == 2 then 0xd65b2efe_b9920df7_6b281d05_987934ed else 0x749bf55c_56a037fc_35a3f86f_19fd10cc
      else
        if r < 6 then
          if r == 4 then 0x0a619f9c_e39a36d5_83397363_bffbe497 else 0xbe0bb6a1_08e99e75_da9509b7_c70080ce
        else
          if r == 6 then 0x5fac29d4_3f5981e2_315d82c6_b3dd302b else 0x1447c8a9_53c4e199_16ff18ae_33c02d60
    else
      if r < 12 then
        if r < 10 then
          if r == 8 then 0x8654403e_270f8cdb_aaee5515_de76f945 else 0x658fe889_1cba6664_8e0efa67_02931b90
        else
          if r == 10 then 0x94eff144_2c773203_f6253a01_c10704c2 else 0x1a8df21e_ab50af4f_6e24f372_6d52912f
      else
        if r < 14 then
          if r == 12 then 0xc9e542ad_5171d7d2_1f5abb11_ebea6938 else 0x22a5b8a6_2a703d8a_dce7623c_d33b2123
        else
          if r == 14 then 0x7f5ee07e_4aeca4b4_7ad94b7c_b27b4e48 else 0xb541cf7d_e6b08b88_d0d1cbd8_4378cac3
  }

  /** The table `box`. */
  function Box(x: bv8): bv8 {
    Entry(BoxRow(x >> 4), x & 0x0f)
  }

  ghost function UnboxRow(r: bv8): bv128 {
    if r < 8 then
      if r < 4 then
        if r < 2 then
          if r == 0 then 0x5dab9ca7_ae2b1dad_545a4051_1b269985 else 0x3ecb051f_708b7810_7a3cb09e_942ab3c8
        else
          if r == 2 then 0x0aded0df_b9a91784_2962d46f_a47e22bf else 0x6e68a67c_2e384636_cf49aadd_dbd68364
      else
        if r < 6 then
          if r == 4 then 0x82f1c2fc_a38f0071_ef18e4ea_0903eeb7 else 0xb5c4bd74_818a3407_0465c921_3369e160
        else
          if r == 6 then 0x7f41da4b_9790969b_0fce0d28_1abcb83b else 0xd5c5bb4a_30578da5_fd2de8ed_ebf3e3e0
    else
      if r < 12 then
        if r < 10 then
          if r == 8 then 0x5e666a48_1c01800b_f793d7f6_86b19891 else 0x9fbe259d_a059114f_2c774531_430e5642
        else
          if r == 10 then 0x35531639_e6d1d314_197388b4_61c37bb6 else 0xf50cec6c_e7f0525b_d22495ca_1e15504c
      else
        if r < 14 then
          if r == 12 then 0x7dacafff_75136b5c_72c0fefa_3f125ff2 else 0xf8f9c7dc_634720c6_fbe95887_d86d8c08
        else
          if r == 14 then 0xe2766744_4ec1f4d9_9255cdcc_e52f89a1 else 0x02a2b2ba_0632a827_3a8e9a4d_373d2379
  }

  /** Where each byte stands in the table `box`. */
  ghost function Unbox(x: bv8): bv8 {
    Entry(UnboxRow(x >> 4), x & 0x0f)
  }

  lemma BoxThenUnbox(x: bv8)
    ensures Unbox(Box(x)) == x
  {
  }

  lemma UnboxThenBox(x: bv8)
    ensures Box(Unbox(x)) == x
  {
  }

  /** `box` is a permutation of the bytes: every byte stands in it, at exactly one place. */
  lemma Permutation(x: bv8)
    ensures Unbox(Box(x)) == x && Box(Unbox(x)) == x
    ensures forall y :: Box(y) == x <==> y == Unbox(x)
  {
    hide Box;
    hide Unbox;
    UnboxThenBox(x);
    forall y: bv8 ensures Unbox(Box(y)) == y {
      BoxThenUnbox(y);
    }
  }

  /** The byte i, as an index of the search. */
  function AsByte(i: nat): bv8
    requires i < 256
  {
    i as bv8
  }

  /** The place of b, as a number. */
  lemma PlaceOf(b: bv8) returns (e: nat)
    ensures e < 256 && AsByte(e) == Unbox(b) && Box(AsByte(e)) == b
  {
    hide Box;
    hide Unbox;
    UnboxThenBox(b);
    e := Unbox(b) as int;
  }

  /** The search through `box` always stops inside the table. The C function returns a
      signed char; only its low eight bits reach the caller's unsigned byte. */
  method BackBox(b: bv8) returns (r: bv8)
    ensures Box(r) == b && r == Unbox(b)
  {
    hide Box;
    hide Unbox;
    hide AsByte;
    ghost var e := PlaceOf(b);
    var i := 0;
    while Box(AsByte(i)) != b
      invariant 0 <= i <= e
      decreases e - i
    {
      i := i + 1;
    }
    r := AsByte(i);
    BoxThenUnbox(r);
  }

  // ---------- what a message is turned into ----------

  /** The messages on which i * (round | round << 4) never leaves the range of an int. */
  predicate Fits(n: nat) {
    n == 0 || (n - 1) * 255 <= INT_MAX
  }

  function Spread(round: nat): (m: int)
    requires round < 16
    ensures 0 <= m < 256
  {
    ((round as bv8) | ((round as bv8) << 4)) as int
  }

  function KeyAt(key: Key, i: nat, round: nat): bv8
    requires round < 16
  {
    key[i * Spread(round) % KEYSIZE]
  }

  function NextSeed(key: Key, i: nat, seed: bv8): bv8 {
    var k := key[i % KEYSIZE];
    Box(seed ^ k) ^ k
  }

  /** The seed used for byte i - 1; 0x42 before the first byte. */
  function Seed(key: Key, i: nat): bv8 {
    if i == 0 then 0x42
    else NextSeed(key, i - 1, Seed(key, i - 1))
  }

  /** Byte b at position i after the first `rounds` rounds of encryption. */
  function Mixed(key: Key, i: nat, b: bv8, rounds: nat): bv8
    requires rounds <= 16
  {
    if rounds == 0 then b
    else Box(Seed(key, i + 1) ^ Mixed(key, i, b, rounds - 1) ^ KeyAt(key, i, rounds - 1))
  }

  /** Byte c at position i after undoing rounds 15 down to `rounds`. */
  ghost function Unmixed(key: Key, i: nat, c: bv8, rounds: nat): bv8
    requires rounds <= 16
    decreases 16 - rounds
  {
    if rounds == 16 then c
    else Unbox(Unmixed(key, i, c, rounds + 1)) ^ Seed(key, i + 1) ^ KeyAt(key, i, rounds)
  }

  ghost function Encrypted(key: Key, m: seq<bv8>): seq<bv8> {
    seq(|m|, i requires 0 <= i < |m| => Mixed(key, i, m[i], 16))
  }

  ghost function Decrypted(key: Key, c: seq<bv8>): seq<bv8> {
    seq(|c|, i requires 0 <= i < |c| => Unmixed(key, i, c[i], 0))
  }

  // ---------- the two loops ----------

  /** The index computed in round `round` for byte i of n stays inside an int. */
  lemma IndexFits(i: nat, n: nat, round: nat)
    requires i < n && Fits(n) && round < 16
    ensures 0 <= i * Spread(round) <= INT_MAX
  {
    var s := Spread(round);
    hide Spread;
    assert i * s <= i * 255 <= (n - 1) * 255;
  }

  method EncryptByte(key: Key, i: nat, n: nat, seed: bv8, b0: bv8) returns (b: bv8)
    requires i < n && Fits(n) && seed == Seed(key, i + 1)
    ensures b == Mixed(key, i, b0, 16)
  {
    hide Box;
    hide Seed;
    hide KeyAt;
    b := b0;
    for round := 0 to 16
      invariant b == Mixed(key, i, b0, round)
    {
      IndexFits(i, n, round);
      b := Box(seed ^ b ^ KeyAt(key, i, round));
    }
  }

  /** Writes the encryption of the first len bytes of `from` to `to`, which may be the same array. */
  method Encrypt(key: Key, from: array<bv8>, to: array<bv8>, len: nat)
    requires len <= from.Length && len <= to.Length && Fits(len)
    modifies to
    ensures to[..len] == Encrypted(key, old(from[..len]))
    ensures forall k :: len <= k < to.Length ==> to[k] == old(to[k])
  {
    hide NextSeed;
    hide Fits;
    hide Mixed;
    ghost var m := from[..len];
    var seed: bv8 := 0x42;
    for i := 0 to len
      invariant seed == Seed(key, i)
      invariant forall k :: 0 <= k < i ==> to[k] == Mixed(key, k, m[k], 16)
      invariant forall k :: i <= k < len ==> from[k] == m[k]
      invariant forall k :: len <= k < to.Length ==> to[k] == old(to[k])
    {
      seed := NextSeed(key, i, seed);
      to[i] := EncryptByte(key, i, len, seed, from[i]);
    }
  }

  method DecryptByte(key: Key, i: nat, n: nat, seed: bv8, c: bv8) returns (b: bv8)
    requires i < n && Fits(n) && seed == Seed(key, i + 1)
    ensures b == Unmixed(key, i, c, 0)
  {
    hide Unbox;
    hide Seed;
    hide KeyAt;
    b := c;
    for round := 16 downto 0
      invariant b == Unmixed(key, i, c, round)
    {
      IndexFits(i, n, round);
      b := BackBox(b);
      b := b ^ seed ^ KeyAt(key, i, round);
    }
  }

  /** Writes the decryption of the first len bytes of `from` to `to`, which may be the same array. */
  method Decrypt(key: Key, from: array<bv8>, to: array<bv8>, len: nat)
    requires len <= from.Length && len <= to.Length && Fits(len)
    modifies to
    ensures to[..len] == Decrypted(key, old(from[..len]))
    ensures forall k :: len <= k < to.Length ==> to[k] == old(to[k])
  {
    hide NextSeed;
    hide Fits;
    hide Unmixed;
    ghost var m := from[..len];
    var seed: bv8 := 0x42;
    for i := 0 to len
      invariant seed == Seed(key, i)
      invariant forall k :: 0 <= k < i ==> to[k] == Unmixed(key, k, m[k], 0)
      invariant forall k :: i <= k < len ==> from[k] == m[k]
      invariant forall k :: len <= k < to.Length ==> to[k] == old(to[k])
    {
      seed := NextSeed(key, i, seed);
      to[i] := DecryptByte(key, i, len, seed, from[i]);
    }
  }

  // ---------- decryption inverts encryption ----------

  lemma {:induction false} UnmixMixed(key: Key, i: nat, b: bv8, rounds: nat)
    requires rounds <= 16
    ensures Unmixed(key, i, Mixed(key, i, b, 16), rounds) == Mixed(key, i, b, rounds)
    decreases 16 - rounds
  {
    hide Box;
    hide Unbox;
    hide Seed;
    hide KeyAt;
    if rounds < 16 {
      UnmixMixed(key, i, b, rounds + 1);
      var x := Seed(key, i + 1) ^ Mixed(key, i, b, rounds) ^ KeyAt(key, i, rounds);
      Permutation(x);
      assert Mixed(key, i, b, rounds + 1) == Box(x);
    }
  }

  lemma {:induction false} MixUnmixed(key: Key, i: nat, c: bv8, rounds: nat)
    requires rounds <= 16
    ensures Mixed(key, i, Unmixed(key, i, c, 0), rounds) == Unmixed(key, i, c, rounds)
  {
    hide Box;
    hide Unbox;
    hide Seed;
    hide KeyAt;
    if rounds > 0 {
      MixUnmixed(key, i, c, rounds - 1);
      Permutation(Unmixed(key, i, c, rounds));
    }
  }

  /** Decryption inverts encryption and encryption inverts decryption, on messages of every length. */
  lemma RoundTrip(key: Key, m: seq<bv8>)
    ensures Decrypted(key, Encrypted(key, m)) == m
    ensures Encrypted(key, Decrypted(key, m)) == m
  {
    hide Mixed;
    hide Unmixed;
    forall i: nat, b: bv8
      ensures Unmixed(key, i, Mixed(key, i, b, 16), 0) == b && Mixed(key, i, Unmixed(key, i, b, 0), 16) == b
    {
      EndOfRounds(key, i, b);
      UnmixMixed(key, i, b, 0);
      MixUnmixed(key, i, b, 16);
    }
  }

  lemma EndOfRounds(key: Key, i: nat, b: bv8)
    ensures Mixed(key, i, b, 0) == b == Unmixed(key, i, b, 16)
  {
  }

  // ---------- the filter ----------

  method Fetch(b: seq<bv8>, input: array<bv8>)
    requires |b| <= input.Length
    modifies input
    ensures input[..|b|] == b
  {
    forall i | 0 <= i < |b| {
      input[i] := b[i];
    }
  }

  ghost function Turned(key: Key, b: seq<bv8>, encrypting: bool): seq<bv8> {
    if encrypting then Encrypted(key, b) else Decrypted(key, b)
  }

  /** The main loop: each block of at most 1000 bytes that one read delivers is encrypted
      or decrypted on its own, starting from the first seed. */
  method Filter(key: Key, blocks: seq<seq<bv8>>, encrypting: bool) returns (out: seq<seq<bv8>>)
    requires forall b <- blocks :: 0 < |b| <= CHUNK
    ensures |out| == |blocks|
    ensures forall k :: 0 <= k < |out| ==> out[k] == Turned(key, blocks[k], encrypting)
  {
    hide Encrypted;
    hide Decrypted;
    var input, output := new bv8[CHUNK], new bv8[CHUNK];
    out := [];
    for k := 0 to |blocks|
      invariant |out| == k
      invariant forall j :: 0 <= j < k ==> out[j] == Turned(key, blocks[j], encrypting)
    {
      var b := blocks[k];
      assert b in blocks;
      Fetch(b, input);
      if encrypting {
        Encrypt(key, input, output, |b|);
      } else {
        Decrypt(key, input, output, |b|);
      }
      out := out + [output[..|b|]];
    }
  }

  /** Whatever reads a stream arrived in, decrypting it in blocks of the same sizes gives it back. */
  method EncryptThenDecrypt(key: Key, blocks: seq<seq<bv8>>) returns (secret: seq<seq<bv8>>, plain: seq<seq<bv8>>)
    requires forall b <- blocks :: 0 < |b| <= CHUNK
    ensures |secret| == |blocks| && forall k :: 0 <= k < |blocks| ==> |secret[k]| == |blocks[k]|
    ensures plain == blocks
  {
    secret := Filter(key, blocks, true);
    plain := Filter(key, secret, false);
    forall k | 0 <= k < |blocks| ensures plain[k] == blocks[k] {
      RoundTrip(key, blocks[k]);
    }
  }
}
