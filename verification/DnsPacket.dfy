/** Names inside DNS packets: decompression and skipping (section 4.1.4 of RFC 1035). */
module DnsPacket {
  import opened Bytes
  import opened Wrappers
  import opened DnsDomain

  const MAXLOOP: nat := 1000

  // ---- what a compressed name means -----------------------------------------

  function Pointer(hi: byte, lo: byte): nat
    requires hi >= 192
  {
    256 * (hi as int - 192) + lo as int
  }

  /** The labels of the name at pos: labels in place until a zero byte, or until
      a pointer, behind which the name goes on elsewhere in the packet. fuel
      bounds the number of labels and pointers followed. */
  function Decompress(buf: seq<byte>, pos: nat, fuel: nat): Option<seq<Label>>
    decreases fuel
  {
    if fuel == 0 || pos >= |buf| then None
    else if buf[pos] == 0 then Some([])
    else if buf[pos] >= 192 then
      if pos + 1 >= |buf| then None else Decompress(buf, Pointer(buf[pos], buf[pos + 1]), fuel - 1)
    else if buf[pos] >= 64 || pos + 1 + buf[pos] > |buf| then None
    else
      match Decompress(buf, pos + 1 + buf[pos], fuel - 1)
      case None => None
      case Some(labels) => Some([buf[pos + 1..pos + 1 + buf[pos]]] + labels)
  }

  /** How many bytes are read for that name, not counting the second bytes of pointers. */
  function Cost(buf: seq<byte>, pos: nat, fuel: nat): nat
    decreases fuel
  {
    if fuel == 0 || pos >= |buf| || buf[pos] == 0 then 1
    else if buf[pos] >= 192 then
      if pos + 1 >= |buf| then 1 else 1 + Cost(buf, Pointer(buf[pos], buf[pos + 1]), fuel - 1)
    else if buf[pos] >= 64 then 1
    else 1 + buf[pos] as int + Cost(buf, pos + 1 + buf[pos], fuel - 1)
  }

  /** The name at pos, read with at most budget bytes. */
  function Budgeted(buf: seq<byte>, pos: nat, budget: nat): (r: Option<seq<Label>>)
    ensures r.Some? ==> forall i | 0 <= i < |r.value| :: 1 <= |r.value[i]| <= MAXLABEL
    decreases budget
  {
    if budget == 0 || pos >= |buf| then None
    else if buf[pos] == 0 then Some([])
    else if buf[pos] >= 192 then
      if pos + 1 >= |buf| then None else Budgeted(buf, Pointer(buf[pos], buf[pos + 1]), budget - 1)
    else if buf[pos] >= 64 || pos + 1 + buf[pos] > |buf| || 1 + buf[pos] as int > budget then None
    else
      match Budgeted(buf, pos + 1 + buf[pos], budget - 1 - buf[pos] as int)
      case None => None
      case Some(labels) => Some([buf[pos + 1..pos + 1 + buf[pos]]] + labels)
  }

  /** A budget cuts off exactly the names that cost more. */
  lemma {:induction false} BudgetedIs(buf: seq<byte>, pos: nat, budget: nat, fuel: nat)
    requires Decompress(buf, pos, fuel).Some?
    ensures Budgeted(buf, pos, budget) == if Cost(buf, pos, fuel) <= budget then Decompress(buf, pos, fuel) else None
    decreases fuel
  {
    if budget > 0 && buf[pos] != 0 {
      if buf[pos] >= 192 {
        BudgetedIs(buf, Pointer(buf[pos], buf[pos + 1]), budget - 1, fuel - 1);
      } else if 1 + buf[pos] as int <= budget {
        BudgetedIs(buf, pos + 1 + buf[pos], budget - 1 - buf[pos] as int, fuel - 1);
      } else {
        CostPositive(buf, pos + 1 + buf[pos], fuel - 1);
      }
    } else {
      CostPositive(buf, pos, fuel);
    }
  }

  lemma {:induction false} CostPositive(buf: seq<byte>, pos: nat, fuel: nat)
    ensures Cost(buf, pos, fuel) >= 1
  {
  }

  lemma {:induction false} BudgetedSound(buf: seq<byte>, pos: nat, budget: nat)
    requires Budgeted(buf, pos, budget).Some?
    ensures Decompress(buf, pos, budget) == Budgeted(buf, pos, budget)
    ensures Cost(buf, pos, budget) <= budget
    decreases budget
  {
    if buf[pos] != 0 {
      if buf[pos] >= 192 {
        BudgetedSound(buf, Pointer(buf[pos], buf[pos + 1]), budget - 1);
      } else {
        var rest := pos + 1 + buf[pos];
        BudgetedSound(buf, rest, budget - 1 - buf[pos] as int);
        MoreFuel(buf, rest, budget - 1 - buf[pos] as int, budget - 1);
      }
    }
  }

  /** The meaning of a name does not depend on the fuel. */
  lemma {:induction false} MoreFuel(buf: seq<byte>, pos: nat, fuel: nat, more: nat)
    requires Decompress(buf, pos, fuel).Some? && fuel <= more
    ensures Decompress(buf, pos, more) == Decompress(buf, pos, fuel)
    ensures Cost(buf, pos, more) == Cost(buf, pos, fuel)
    decreases fuel
  {
    if buf[pos] != 0 {
      MoreFuel(buf, if buf[pos] >= 192 then Pointer(buf[pos], buf[pos + 1]) else pos + 1 + buf[pos], fuel - 1, more - 1);
    }
  }

  /** The limits of dns_packet_getname: fewer than 1000 bytes read, and a name of
      at most 255 bytes. */
  function Limited(buf: seq<byte>, pos: nat): Option<seq<Label>> {
    match Budgeted(buf, pos, MAXLOOP - 1)
    case None => None
    case Some(labels) => if |Wire(labels)| <= MAXNAME then Some(labels) else None
  }

  /** What is accepted is exactly what decompresses, within the limits. */
  lemma LimitedExact(buf: seq<byte>, pos: nat, labels: seq<Label>)
    ensures Limited(buf, pos) == Some(labels) <==>
            NameOk(labels)
            && exists fuel :: Decompress(buf, pos, fuel) == Some(labels) && Cost(buf, pos, fuel) < MAXLOOP
  {
    if Limited(buf, pos) == Some(labels) {
      BudgetedSound(buf, pos, MAXLOOP - 1);
    }
    if fuel :| Decompress(buf, pos, fuel) == Some(labels) && Cost(buf, pos, fuel) < MAXLOOP {
      BudgetedIs(buf, pos, MAXLOOP - 1, fuel);
    }
  }

  // ---- skipping -------------------------------------------------------------

  /** Where the name at pos ends in place: behind its zero byte or its first pointer. */
  function NameEnd(buf: seq<byte>, pos: nat): Option<nat>
    decreases |buf| - pos
  {
    if pos >= |buf| then None
    else if buf[pos] >= 192 then Some(pos + 2)
    else if buf[pos] >= 64 then None
    else if buf[pos] == 0 then Some(pos + 1)
    else NameEnd(buf, pos + 1 + buf[pos])
  }

  /** A name that can be decompressed can be skipped. */
  lemma {:induction false} SkipSucceeds(buf: seq<byte>, pos: nat, fuel: nat)
    requires Decompress(buf, pos, fuel).Some?
    ensures NameEnd(buf, pos).Some? && pos < NameEnd(buf, pos).value <= |buf|
    decreases fuel
  {
    if 0 < buf[pos] < 64 {
      SkipSucceeds(buf, pos + 1 + buf[pos], fuel - 1);
    }
  }

  /** dns_packet_skipname: 0 for a malformed name. */
  method SkipName(buf: seq<byte>, pos0: nat) returns (r: nat)
    ensures r == match NameEnd(buf, pos0) case None => 0 case Some(e) => e
  {
    var pos := pos0;
    while true
      invariant NameEnd(buf, pos) == NameEnd(buf, pos0)
      decreases |buf| - pos
    {
      if pos >= |buf| {
        break;
      }
      var ch := buf[pos];
      pos := pos + 1;
      if ch >= 192 {
        return pos + 1;
      }
      if ch >= 64 {
        break;
      }
      if ch == 0 {
        return pos;
      }
      pos := pos + ch;
    }
    return 0;
  }

  /** dns_packet_copy: outlen bytes from pos, or 0. */
  method PacketCopy(buf: seq<byte>, pos0: nat, outlen: nat) returns (pos: nat, out: seq<byte>)
    ensures pos0 + outlen <= |buf| ==> pos == pos0 + outlen && out == buf[pos0..pos]
    ensures pos0 + outlen > |buf| && outlen > 0 ==> pos == 0
  {
    pos, out := pos0, [];
    while |out| < outlen
      invariant |out| <= outlen && pos == pos0 + |out|
      invariant pos <= |buf| ==> out == buf[pos0..pos]
      invariant out != [] ==> pos <= |buf|
    {
      if pos >= |buf| {
        return 0, out;
      }
      assert pos > pos0 ==> buf[pos0..pos + 1] == buf[pos0..pos] + [buf[pos]];
      out := out + [buf[pos]];
      pos := pos + 1;
    }
  }

  // ---- decompression --------------------------------------------------------

  /** The rest of a name, from pos on, after cost bytes have been read. */
  function Rest(buf: seq<byte>, pos: nat, cost: nat): (r: Option<seq<Label>>)
    ensures r.Some? ==> forall i | 0 <= i < |r.value| :: 1 <= |r.value[i]| <= MAXLABEL
  {
    Budgeted(buf, pos, if cost < MAXLOOP then MAXLOOP - 1 - cost else 0)
  }

  /** The rest of the name is well-formed and still fits, given n bytes stored. */
  predicate RestFits(buf: seq<byte>, pos: nat, n: nat, cost: nat) {
    Rest(buf, pos, cost).Some? && n + |Wire(Rest(buf, pos, cost).value)| <= MAXNAME
  }

  lemma AtLabel(buf: seq<byte>, pos: nat, n: nat, cost: nat)
    requires pos < |buf| && 0 < buf[pos] < 64
    ensures var m := 1 + buf[pos] as int;
            RestFits(buf, pos, n, cost) <==> pos + m <= |buf| && RestFits(buf, pos + m, n + m, cost + m)
    ensures RestFits(buf, pos, n, cost) ==>
              var m := 1 + buf[pos] as int;
              Wire(Rest(buf, pos, cost).value) == buf[pos..pos + m] + Wire(Rest(buf, pos + m, cost + m).value)
  {
    var m := 1 + buf[pos] as int;
    if pos + m <= |buf| {
      assert buf[pos..pos + m] == [buf[pos]] + buf[pos + 1..pos + m];
      if Rest(buf, pos + m, cost + m).Some? && Rest(buf, pos, cost).Some? {
        var tail := Rest(buf, pos + m, cost + m).value;
        assert Rest(buf, pos, cost).value == [buf[pos + 1..pos + m]] + tail;
        assert ([buf[pos + 1..pos + m]] + tail)[1..] == tail;
      }
    }
  }

  lemma AtPointer(buf: seq<byte>, pos: nat, n: nat, cost: nat)
    requires pos < |buf| && buf[pos] >= 192 && cost + 1 < MAXLOOP
    ensures if pos + 1 < |buf| then Rest(buf, pos, cost) == Rest(buf, Pointer(buf[pos], buf[pos + 1]), cost + 1)
            else Rest(buf, pos, cost) == None
  {
  }

  /** The loop of dns_packet_getname between two bytes: state bytes of a label are
      still to come, and what has been stored and read so far leads to the result
      for the name at pos0. */
  ghost predicate OnTrack(buf: seq<byte>, pos0: nat, pos: nat, state: nat, stored: seq<byte>, loop: nat) {
    && (Limited(buf, pos0).Some? <==> pos + state <= |buf| && RestFits(buf, pos + state, |stored| + state, loop + state))
    && (Limited(buf, pos0).Some? ==>
          Wire(Limited(buf, pos0).value) ==
          stored + buf[pos..pos + state] + Wire(Rest(buf, pos + state, loop + state).value))
  }

  /** Where the name ends in place, once known (or at the current position). */
  ghost predicate EndKnown(buf: seq<byte>, pos0: nat, pos: nat, firstcompress: nat) {
    if firstcompress == 0 then NameEnd(buf, pos0) == NameEnd(buf, pos) else NameEnd(buf, pos0) == Some(firstcompress)
  }

  lemma Begin(buf: seq<byte>, pos0: nat)
    ensures pos0 <= |buf| ==> OnTrack(buf, pos0, pos0, 0, [], 0)
    ensures pos0 >= |buf| ==> Limited(buf, pos0) == None
  {
    if pos0 <= |buf| && Limited(buf, pos0).Some? {
      assert [] + buf[pos0..pos0] + Wire(Limited(buf, pos0).value) == Wire(Limited(buf, pos0).value);
    }
  }

  /** One byte inside a label. */
  lemma LabelByte(buf: seq<byte>, pos0: nat, pos: nat, state: nat, stored: seq<byte>, loop: nat)
    requires OnTrack(buf, pos0, pos, state, stored, loop) && state > 0
    ensures pos >= |buf| || loop + 1 >= MAXLOOP || |stored| + 1 > MAXNAME ==> Limited(buf, pos0) == None
    ensures pos < |buf| ==> OnTrack(buf, pos0, pos + 1, state - 1, stored + [buf[pos]], loop + 1)
  {
    if pos < |buf| && Limited(buf, pos0).Some? {
      assert buf[pos..pos + state] == [buf[pos]] + buf[pos + 1..pos + state];
      assert stored + [buf[pos]] + buf[pos + 1..pos + state] == stored + ([buf[pos]] + buf[pos + 1..pos + state]);
    }
  }

  /** A zero byte ends the name; a byte from 64 to 191 spoils it. */
  lemma EndByte(buf: seq<byte>, pos0: nat, pos: nat, stored: seq<byte>, loop: nat)
    requires OnTrack(buf, pos0, pos, 0, stored, loop) && pos < |buf| && (buf[pos] == 0 || 64 <= buf[pos] < 192)
    ensures Limited(buf, pos0).Some? <==> buf[pos] == 0 && loop + 1 < MAXLOOP && |stored| + 1 <= MAXNAME
    ensures Limited(buf, pos0).Some? ==> Wire(Limited(buf, pos0).value) == stored + [0]
  {
    assert stored + buf[pos..pos] == stored;
  }

  /** A length byte. */
  lemma LengthByte(buf: seq<byte>, pos0: nat, pos: nat, stored: seq<byte>, loop: nat)
    requires OnTrack(buf, pos0, pos, 0, stored, loop) && pos < |buf| && 0 < buf[pos] < 64
    ensures loop + 1 >= MAXLOOP || |stored| + 1 > MAXNAME ==> Limited(buf, pos0) == None
    ensures OnTrack(buf, pos0, pos + 1, buf[pos], stored + [buf[pos]], loop + 1)
  {
    hide Limited;
    hide Budgeted;
    hide Wire;
    assert stored + buf[pos..pos] == stored;
    AtLabel(buf, pos, |stored|, loop);
    var m := 1 + buf[pos] as int;
    NeedsRoom(buf, pos, |stored|, loop);
    if pos + m <= |buf| && Limited(buf, pos0).Some? {
      assert buf[pos..pos + m] == [buf[pos]] + buf[pos + 1..pos + m];
      var tail := Wire(Rest(buf, pos + m, loop + m).value);
      assert stored + ([buf[pos]] + buf[pos + 1..pos + m] + tail) == stored + [buf[pos]] + buf[pos + 1..pos + m] + tail;
    }
  }

  lemma NeedsRoom(buf: seq<byte>, pos: nat, n: nat, cost: nat)
    ensures n + 1 > MAXNAME || cost + 1 >= MAXLOOP ==> !RestFits(buf, pos, n, cost)
  {
  }

  /** Two pointer bytes. */
  lemma PointerBytes(buf: seq<byte>, pos0: nat, pos: nat, stored: seq<byte>, loop: nat)
    requires OnTrack(buf, pos0, pos, 0, stored, loop) && pos < |buf| && buf[pos] >= 192
    ensures pos + 1 >= |buf| || loop + 1 >= MAXLOOP ==> Limited(buf, pos0) == None
    ensures pos + 1 < |buf| && loop + 1 < MAXLOOP ==>
              var target := Pointer(buf[pos], buf[pos + 1]);
              if target >= |buf| then Limited(buf, pos0) == None else OnTrack(buf, pos0, target, 0, stored, loop + 1)
  {
    assert buf[pos..pos] == [];
    if loop + 1 < MAXLOOP {
      AtPointer(buf, pos, |stored|, loop);
      if pos + 1 < |buf| && Pointer(buf[pos], buf[pos + 1]) <= |buf| {
        assert buf[Pointer(buf[pos], buf[pos + 1])..Pointer(buf[pos], buf[pos + 1])] == [];
      }
    }
  }

  /** The read limit. */
  lemma TooMany(buf: seq<byte>, pos0: nat, pos: nat, stored: seq<byte>, loop: nat)
    requires OnTrack(buf, pos0, pos, 0, stored, loop) && loop + 1 >= MAXLOOP
    ensures Limited(buf, pos0) == None
  {
  }

  lemma TooFar(buf: seq<byte>, pos0: nat, pos: nat, stored: seq<byte>, loop: nat)
    requires OnTrack(buf, pos0, pos, 0, stored, loop) && pos >= |buf|
    ensures Limited(buf, pos0) == None
  {
  }

  lemma LimitedLabels(buf: seq<byte>, pos: nat)
    ensures Limited(buf, pos).Some? ==> NameOk(Limited(buf, pos).value)
  {
  }

  lemma EndStep(buf: seq<byte>, pos: nat)
    ensures pos < |buf| && buf[pos] >= 192 ==> NameEnd(buf, pos) == Some(pos + 2)
    ensures pos < |buf| && buf[pos] == 0 ==> NameEnd(buf, pos) == Some(pos + 1)
    ensures pos < |buf| && 0 < buf[pos] < 64 ==> NameEnd(buf, pos) == NameEnd(buf, pos + 1 + buf[pos])
  {
  }

  /** The inner loop of dns_packet_getname: go where the pointers lead, up to the first
      byte that is none. */
  method FollowPointers(buf: seq<byte>, ghost pos0: nat, ghost stored: seq<byte>, ch0: byte, start: nat, loop0: nat,
                        first: nat)
    returns (ok: bool, ch: byte, pos: nat, loop: nat, firstcompress: nat)
    requires 0 < start <= |buf| && 0 < loop0 < MAXLOOP && ch0 == buf[start - 1]
    requires OnTrack(buf, pos0, start - 1, 0, stored, loop0 - 1) && EndKnown(buf, pos0, start - 1, first)
    ensures !ok ==> Limited(buf, pos0) == None
    ensures ok ==> ch < 192 && 0 < pos <= |buf| && loop0 <= loop < MAXLOOP && ch == buf[pos - 1]
    ensures ok ==> OnTrack(buf, pos0, pos - 1, 0, stored, loop - 1) && EndKnown(buf, pos0, pos - 1, firstcompress)
  {
    hide OnTrack;
    hide Limited;
    hide NameEnd;
    ok, ch, pos, loop, firstcompress := false, ch0, start, loop0, first;
    while ch >= 192
      invariant 0 < pos <= |buf| && loop0 <= loop < MAXLOOP && ch == buf[pos - 1]
      invariant OnTrack(buf, pos0, pos - 1, 0, stored, loop - 1)
      invariant EndKnown(buf, pos0, pos - 1, firstcompress)
      decreases MAXLOOP - loop
    {
      PointerBytes(buf, pos0, pos - 1, stored, loop - 1);
      EndStep(buf, pos - 1);
      var where := (ch - 192) as int * 256;
      if pos >= |buf| { return; }
      ch := buf[pos];
      pos := pos + 1;
      if firstcompress == 0 {
        firstcompress := pos;
      }
      pos := where + ch;
      if pos >= |buf| { return; }
      ch := buf[pos];
      pos := pos + 1;
      loop := loop + 1;
      if loop >= MAXLOOP {
        TooMany(buf, pos0, pos - 1, stored, loop - 1);
        return;
      }
    }
    ok := true;
  }

  /** name[namelen] = ch. */
  method Append(name: array<byte>, namelen: nat, ch: byte)
    requires namelen < name.Length
    modifies name
    ensures name[..namelen + 1] == old(name[..namelen]) + [ch]
  {
    name[namelen] := ch;
  }

  /** dns_packet_getname: succeeds exactly on the names that decompress within the
      limits; d is then the decompressed name, and the result the position at
      which skipping the name would end. */
  method GetName(buf: seq<byte>, pos0: nat) returns (r: nat, d: seq<byte>)
    ensures r != 0 <==> Limited(buf, pos0).Some?
    ensures r != 0 ==> d == Wire(Limited(buf, pos0).value) && NameEnd(buf, pos0) == Some(r)
  {
    hide OnTrack;
    hide Limited;
    hide NameEnd;
    d := [];
    var pos: nat, loop: nat, state: nat, firstcompress: nat, namelen: nat := pos0, 0, 0, 0, 0;
    var name := new byte[MAXNAME](_ => 0);
    Begin(buf, pos0);
    if pos >= |buf| {
      return 0, d;
    }
    while true
      invariant pos <= |buf| && loop < MAXLOOP && namelen <= MAXNAME && state <= MAXLABEL
      invariant OnTrack(buf, pos0, pos, state, name[..namelen], loop)
      invariant EndKnown(buf, pos0, pos + state, firstcompress)
      decreases MAXLOOP - loop
    {
      if state > 0 {
        LabelByte(buf, pos0, pos, state, name[..namelen], loop);
        if pos >= |buf| { return 0, d; }
        var ch := buf[pos];
        pos := pos + 1;
        loop := loop + 1;
        if loop >= MAXLOOP { return 0, d; }
        if namelen + 1 > name.Length { return 0, d; }
        Append(name, namelen, ch);
        namelen := namelen + 1;
        state := state - 1;
      } else {
        if pos >= |buf| {
          TooFar(buf, pos0, pos, name[..namelen], loop);
          return 0, d;
        }
        var ch := buf[pos];
        pos := pos + 1;
        loop := loop + 1;
        if loop >= MAXLOOP {
          TooMany(buf, pos0, pos - 1, name[..namelen], loop - 1);
          return 0, d;
        }
        var ok;
        ok, ch, pos, loop, firstcompress := FollowPointers(buf, pos0, name[..namelen], ch, pos, loop, firstcompress);
        if !ok { return 0, d; }
        if ch == 0 || ch >= 64 {
          EndByte(buf, pos0, pos - 1, name[..namelen], loop - 1);
        } else {
          LengthByte(buf, pos0, pos - 1, name[..namelen], loop - 1);
        }
        EndStep(buf, pos - 1);
        if ch >= 64 { return 0, d; }
        if namelen + 1 > name.Length { return 0, d; }
        Append(name, namelen, ch);
        namelen := namelen + 1;
        if ch == 0 {
          break;
        }
        state := ch;
      }
    }
    ghost var labels := Limited(buf, pos0).value;
    LimitedLabels(buf, pos0);
    assert Wire(labels) <= name[..];
    var len := DomainLength(name[..], labels);
    d := name[..len];
    return if firstcompress != 0 then firstcompress else pos, d;
  }
}
