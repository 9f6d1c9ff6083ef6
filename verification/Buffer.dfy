/** Buffered input and output over system calls that may transfer less than asked
    for, be interrupted or fail. */
module Buffer {
  import opened Bytes

  const OUTSIZE: nat := 8192

  /** How a call goes: it transfers up to n bytes, at least one, is interrupted, or fails. */
  datatype Outcome = Transfers(n: nat) | IsInterrupted | Fails

  /** What is left of the script, and whether a call has failed, after some calls: calls use
      up the script from the front, and the only failures are those of the script. */
  ghost predicate Went(script0: seq<Outcome>, failed0: bool, script: seq<Outcome>, failed: bool) {
    && |script| <= |script0|
    && var k := |script0| - |script|;
       script == script0[k..] && (failed <==> failed0 || Fails in script0[..k])
  }

  lemma NoneWent(s: seq<Outcome>, f: bool)
    ensures Went(s, f, s, f)
  {
  }

  lemma WentOn(s0: seq<Outcome>, f0: bool, s1: seq<Outcome>, f1: bool, s2: seq<Outcome>, f2: bool)
    requires Went(s0, f0, s1, f1) && Went(s1, f1, s2, f2)
    ensures Went(s0, f0, s2, f2) && |s2| <= |s1| <= |s0|
  {
    var j, k := |s0| - |s1|, |s0| - |s2|;
    assert s0[..k] == s0[..j] + s1[..k - j];
  }

  /** One end of a connection: what can still be read from it, how the next calls go
      (all others transfer what they can), what has been read and written, and
      whether a call has failed. */
  class Device {
    var input: seq<byte>
    var script: seq<Outcome>
    ghost var taken: seq<byte>
    ghost var written: seq<byte>
    ghost var failed: bool

    constructor (input_: seq<byte>, script_: seq<Outcome>)
      ensures input == input_ && script == script_ && taken == [] && written == [] && !failed
    {
      input, script, taken, written, failed := input_, script_, [], [], false;
    }

    /** The outcome of the next call that may transfer at most len bytes. */
    method Next(len: nat) returns (o: Outcome)
      requires len > 0
      modifies this`script
      ensures if old(script) == [] then script == [] && o == Transfers(len) else script == old(script)[1..]
      ensures if o.Transfers? then 0 < o.n <= len && (old(script) != [] ==> old(script)[0].Transfers?)
              else old(script) != [] && o == old(script)[0]
    {
      if script == [] {
        return Transfers(len);
      }
      o := script[0];
      script := script[1..];
      if o.Transfers? {
        o := Transfers(if o.n == 0 then 1 else if o.n < len then o.n else len);
      }
    }

    /** write: some of the bytes, or -1. */
    method Write(buf: seq<byte>) returns (w: int, interrupted: bool)
      requires buf != []
      modifies this
      ensures input == old(input) && taken == old(taken)
      ensures w == -1 || 0 < w <= |buf|
      ensures written == old(written) + if w == -1 then [] else buf[..w]
      ensures w == -1 && interrupted ==> |script| < |old(script)|
      ensures failed == (old(failed) || (w == -1 && !interrupted))
      ensures Went(old(script), old(failed), script, failed)
      ensures if old(script) == [] then w == |buf| else |script| < |old(script)|
    {
      var o := Next(|buf|);
      interrupted := o.IsInterrupted?;
      failed := failed || o.Fails?;
      w := if o.Transfers? then o.n else -1;
      written := written + if w == -1 then [] else buf[..w];
    }

    /** read: at most len bytes, 0 at the end, or -1. */
    method Read(len: nat) returns (r: int, data: seq<byte>, interrupted: bool)
      requires len > 0
      modifies this
      ensures written == old(written)
      ensures -1 <= r <= len && |data| == if r == -1 then 0 else r
      ensures data + input == old(input) && taken == old(taken) + data
      ensures r == 0 ==> input == []
      ensures r == -1 && interrupted ==> |script| < |old(script)|
      ensures failed == (old(failed) || (r == -1 && !interrupted))
      ensures Went(old(script), old(failed), script, failed)
      ensures old(script) == [] ==> r == if len < |old(input)| then len else |old(input)|
    {
      var o := Next(len);
      interrupted := o.IsInterrupted?;
      failed := failed || o.Fails?;
      if o.Transfers? {
        r := if o.n <= |input| then o.n else |input|;
        data := input[..r];
        input := input[r..];
        taken := taken + data;
      } else {
        r, data := -1, [];
      }
    }
  }

  lemma PrefixGrows(head: seq<byte>, s: seq<byte>, i: nat, k: nat)
    requires i + k <= |s|
    ensures head + s[..i] + s[i..][..k] == head + s[..i + k]
  {
  }

  lemma SplitBehind(head: seq<byte>, s: seq<byte>, m: nat)
    requires m <= |s|
    ensures head + s[..m] + s[m..] == head + s
  {
  }

  /** struct buffer. As an output buffer x[..p] is waiting to be written and n is
      the size of x; as an input buffer x[n..n + p] is waiting to be used. */
  class Buf {
    const x: array<byte>
    const dev: Device
    var p: nat
    var n: nat

    constructor (size: nat, device: Device)
      requires size > 0
      ensures fresh(x) && x.Length == size == n && dev == device && p == 0
    {
      x := new byte[size](_ => 0);
      dev := device;
      p, n := 0, size;
    }

    // ---- output -------------------------------------------------------------

    predicate Output()
      reads this
    {
      p <= n == x.Length && n > 0
    }

    /** Everything put so far, in order, written or not. */
    ghost function Stream(): seq<byte>
      requires Output()
      reads this, x, dev
    {
      dev.written + x[..p]
    }

    /** allwrite: keep writing until everything is written or an error occurs. */
    method AllWrite(buf: seq<byte>) returns (ok: bool)
      modifies dev
      ensures buf != [] && old(dev.script) != [] ==> |dev.script| < |old(dev.script)|
      ensures buf == [] ==> dev.script == old(dev.script)
      ensures old(dev.script) == [] ==> ok
      ensures ok <==> dev.written == old(dev.written) + buf
      ensures old(dev.written) <= dev.written <= old(dev.written) + buf
      ensures dev.input == old(dev.input) && dev.taken == old(dev.taken)
      ensures dev.failed == (old(dev.failed) || !ok)
      ensures Went(old(dev.script), old(dev.failed), dev.script, dev.failed)
    {
      hide Went;
      var done := 0;
      ghost var s0, f0 := dev.script, dev.failed;
      NoneWent(s0, f0);
      while done < |buf|
        invariant done <= |buf| && dev.written == old(dev.written) + buf[..done]
        invariant Went(s0, f0, dev.script, dev.failed) && |dev.script| <= |s0|
        invariant (done > 0 && s0 != [] ==> |dev.script| < |s0|) && (buf == [] ==> dev.script == s0)
        invariant s0 == [] ==> dev.script == []
        invariant dev.input == old(dev.input) && dev.taken == old(dev.taken) && dev.failed == old(dev.failed)
        decreases |buf| - done, |dev.script|
      {
        ghost var s1, f1 := dev.script, dev.failed;
        var w, interrupted := dev.Write(buf[done..]);
        WentOn(s0, f0, s1, f1, dev.script, dev.failed);
        if w == -1 {
          if interrupted {
            continue;
          }
          return false;
        }
        PrefixGrows(old(dev.written), buf, done, w);
        done := done + w;
      }
      return true;
    }

    /** buffer_flush: write out what is waiting. */
    method Flush() returns (ok: bool)
      requires Output()
      modifies this`p, dev
      ensures Output() && p == 0 && x[..] == old(x[..])
      ensures old(p) > 0 && old(dev.script) != [] ==> |dev.script| < |old(dev.script)|
      ensures old(p) == 0 ==> ok && dev.script == old(dev.script)
      ensures old(dev.script) == [] ==> ok
      ensures ok <==> dev.written == old(Stream())
      ensures old(dev.written) <= dev.written <= old(Stream())
      ensures dev.input == old(dev.input) && dev.taken == old(dev.taken)
      ensures dev.failed == (old(dev.failed) || !ok)
      ensures Went(old(dev.script), old(dev.failed), dev.script, dev.failed)
    {
      hide Went;
      NoneWent(dev.script, dev.failed);
      var len := p;
      if len == 0 {
        return true;
      }
      p := 0;
      ok := AllWrite(x[..len]);
    }

    /** byte_copy(x + p, |s|, s). */
    method Store(s: seq<byte>)
      requires Output() && p + |s| <= n
      modifies this`p, x
      ensures Output() && p == old(p) + |s| && x[..p] == old(x[..p]) + s
    {
      for i := 0 to |s|
        invariant p == old(p) && n == old(n) && x[..p + i] == old(x[..p]) + s[..i]
      {
        x[p + i] := s[i];
      }
      p := p + |s|;
    }

    /** buffer_putalign: fill the buffer completely before each write. */
    method PutAlign(s0: seq<byte>) returns (ok: bool)
      requires Output()
      modifies this`p, x, dev
      ensures Output()
      ensures ok <==> Stream() == old(Stream()) + s0
      ensures !ok ==> |Stream()| < |old(Stream())| + |s0|
      ensures old(dev.written) <= dev.written <= old(Stream()) + s0
      ensures dev.input == old(dev.input) && dev.taken == old(dev.taken)
      ensures dev.failed == (old(dev.failed) || !ok)
      ensures Went(old(dev.script), old(dev.failed), dev.script, dev.failed)
    {
      hide Went;
      var s := s0;
      ghost var sc, fl := dev.script, dev.failed;
      NoneWent(sc, fl);
      while |s| > n - p
        invariant Went(sc, fl, dev.script, dev.failed)
        invariant Output() && Stream() + s == old(Stream()) + s0 && old(dev.written) <= dev.written
        invariant dev.input == old(dev.input) && dev.taken == old(dev.taken) && dev.failed == old(dev.failed)
        decreases |s|, p
      {
        ghost var s1, f1 := dev.script, dev.failed;
        ok, s := FillUp(s);
        WentOn(sc, fl, s1, f1, dev.script, dev.failed);
        if !ok {
          return;
        }
      }
      Store(s);
      return true;
    }

    /** One round of buffer_putalign: fill the buffer and write it. */
    method FillUp(s0: seq<byte>) returns (ok: bool, s: seq<byte>)
      requires Output() && |s0| > n - p
      modifies this`p, x, dev
      ensures Output() && p == 0 && s == s0[n - old(p)..]
      ensures ok ==> Stream() + s == old(Stream()) + s0
      ensures !ok ==> |Stream()| < |old(Stream())| + |s0|
      ensures old(dev.written) <= dev.written <= old(Stream()) + s0
      ensures dev.input == old(dev.input) && dev.taken == old(dev.taken)
      ensures dev.failed == (old(dev.failed) || !ok)
      ensures Went(old(dev.script), old(dev.failed), dev.script, dev.failed)
    {
      hide Went;
      var m := n - p;
      SplitBehind(Stream(), s0, m);
      Store(s0[..m]);
      s := s0[m..];
      ok := Flush();
      assert x[..p] == [] && Stream() == dev.written;
    }

    /** The loop of buffer_put: write pieces of m bytes until the rest fits the buffer. */
    method WriteLarge(s0: seq<byte>, m0: nat) returns (ok: bool, s: seq<byte>)
      requires Output() && p == 0 && m0 >= n
      modifies dev
      ensures ok ==> |s| <= n && dev.written + s == old(dev.written) + s0
      ensures !ok ==> |dev.written| < |old(dev.written)| + |s0|
      ensures old(dev.written) <= dev.written <= old(dev.written) + s0
      ensures dev.input == old(dev.input) && dev.taken == old(dev.taken)
      ensures dev.failed == (old(dev.failed) || !ok)
      ensures Went(old(dev.script), old(dev.failed), dev.script, dev.failed)
    {
      hide Went;
      var m := m0;
      s := s0;
      ghost var sc, fl := dev.script, dev.failed;
      NoneWent(sc, fl);
      while |s| > n
        invariant Went(sc, fl, dev.script, dev.failed)
        invariant m >= n && dev.written + s == old(dev.written) + s0 && old(dev.written) <= dev.written
        invariant dev.input == old(dev.input) && dev.taken == old(dev.taken) && dev.failed == old(dev.failed)
        decreases |s|
      {
        if m > |s| {
          m := |s|;
        }
        assert s == s[..m] + s[m..];
        ghost var s1, f1 := dev.script, dev.failed;
        ok := AllWrite(s[..m]);
        WentOn(sc, fl, s1, f1, dev.script, dev.failed);
        if !ok {
          return;
        }
        s := s[m..];
      }
      ok := true;
    }

    /** buffer_put: flush first, and write large pieces directly. */
    method Put(s0: seq<byte>) returns (ok: bool)
      requires Output()
      modifies this`p, x, dev
      ensures Output()
      ensures |s0| > n - old(p) && old(p) > 0 && old(dev.script) != [] ==> |dev.script| < |old(dev.script)|
      ensures ok <==> Stream() == old(Stream()) + s0
      ensures !ok ==> |Stream()| < |old(Stream())| + |s0|
      ensures old(dev.written) <= dev.written <= old(Stream()) + s0
      ensures dev.input == old(dev.input) && dev.taken == old(dev.taken)
      ensures dev.failed == (old(dev.failed) || !ok)
      ensures Went(old(dev.script), old(dev.failed), dev.script, dev.failed)
    {
      hide Went;
      NoneWent(dev.script, dev.failed);
      var s := s0;
      ok := true;
      if |s| > n - p {
        ok, s := MakeRoom(s);
        if !ok {
          return;
        }
      }
      Store(s);
    }

    /** The flush of buffer_put, and the large pieces it writes directly. */
    method MakeRoom(s0: seq<byte>) returns (ok: bool, s: seq<byte>)
      requires Output() && |s0| > n - p
      modifies this`p, dev
      ensures Output() && p == 0
      ensures old(p) > 0 && old(dev.script) != [] ==> |dev.script| < |old(dev.script)|
      ensures ok ==> |s| <= n && Stream() + s == old(Stream()) + s0
      ensures !ok ==> |Stream()| < |old(Stream())| + |s0|
      ensures old(dev.written) <= dev.written <= old(Stream()) + s0
      ensures dev.input == old(dev.input) && dev.taken == old(dev.taken)
      ensures dev.failed == (old(dev.failed) || !ok)
      ensures Went(old(dev.script), old(dev.failed), dev.script, dev.failed)
    {
      hide Went;
      s := s0;
      var m := n;
      ghost var sc, fl, all := dev.script, dev.failed, Stream();
      ok := Flush();
      ghost var s1, f1 := dev.script, dev.failed;
      assert x[..p] == [] && Stream() == dev.written;
      if !ok {
        return;
      }
      if m < OUTSIZE {
        m := OUTSIZE;
      }
      ok, s := WriteLarge(s, m);
      WentOn(sc, fl, s1, f1, dev.script, dev.failed);
      assert x[..p] == [] && Stream() == dev.written;
    }

    /** buffer_putflush: write out what is waiting and then s. */
    method PutFlush(s: seq<byte>) returns (ok: bool)
      requires Output()
      modifies this`p, x, dev
      ensures Output()
      ensures p == 0 && (ok <==> dev.written == old(Stream()) + s)
      ensures old(dev.written) <= dev.written <= old(Stream()) + s
      ensures dev.failed == (old(dev.failed) || !ok)
      ensures Went(old(dev.script), old(dev.failed), dev.script, dev.failed)
    {
      hide Went;
      ghost var sc, fl := dev.script, dev.failed;
      ok := Flush();
      if !ok {
        return;
      }
      ghost var s1, f1 := dev.script, dev.failed;
      ok := AllWrite(s);
      WentOn(sc, fl, s1, f1, dev.script, dev.failed);
    }

    /** buffer_PUTC. */
    method PutC(c: byte) returns (ok: bool)
      requires Output()
      modifies this`p, x, dev
      ensures Output()
      ensures old(p) < n ==> ok && p == old(p) + 1 && dev.script == old(dev.script)
      ensures old(p) == n && old(dev.script) != [] ==> |dev.script| < |old(dev.script)|
      ensures ok <==> Stream() == old(Stream()) + [c]
      ensures !ok ==> |Stream()| < |old(Stream())| + 1
      ensures old(dev.written) <= dev.written <= old(Stream()) + [c]
      ensures dev.input == old(dev.input) && dev.taken == old(dev.taken)
      ensures dev.failed == (old(dev.failed) || !ok)
      ensures Went(old(dev.script), old(dev.failed), dev.script, dev.failed)
    {
      hide Went;
      NoneWent(dev.script, dev.failed);
      if n != p {
        Store([c]);
        ok := true;
      } else {
        ok := Put([c]);
      }
    }

    // ---- input --------------------------------------------------------------

    predicate Input()
      reads this
    {
      n + p == x.Length && x.Length > 0
    }

    /** What has been read and not yet used. */
    ghost function Waiting(): seq<byte>
      requires Input()
      reads this, x
    {
      x[n..n + p]
    }

    /** oneread: read again after an interruption. */
    method OneRead(len: nat) returns (r: int, data: seq<byte>)
      requires len > 0
      modifies dev
      ensures old(dev.script) == [] ==> r == if len < |old(dev.input)| then len else |old(dev.input)|
      ensures -1 <= r <= len && |data| == if r == -1 then 0 else r
      ensures data + dev.input == old(dev.input) && dev.taken == old(dev.taken) + data
      ensures r == 0 ==> dev.input == []
      ensures dev.written == old(dev.written)
      ensures dev.failed == (old(dev.failed) || r == -1)
      ensures Went(old(dev.script), old(dev.failed), dev.script, dev.failed)
    {
      hide Went;
      ghost var sc, fl := dev.script, dev.failed;
      NoneWent(sc, fl);
      while true
        invariant Went(sc, fl, dev.script, dev.failed)
        invariant sc == [] ==> dev.script == []
        invariant dev.input == old(dev.input) && dev.taken == old(dev.taken) && dev.written == old(dev.written)
        invariant dev.failed == old(dev.failed)
        decreases |dev.script|
      {
        var interrupted;
        ghost var s1, f1 := dev.script, dev.failed;
        r, data, interrupted := dev.Read(len);
        WentOn(sc, fl, s1, f1, dev.script, dev.failed);
        if r == -1 && interrupted {
          continue;
        }
        return;
      }
    }

    /** byte_copyr(x + to, len, x): move the first len bytes up, last byte first, so
        that overlapping does no harm. */
    method CopyUp(to: nat, len: nat)
      requires to + len <= x.Length
      modifies x
      ensures x[to..to + len] == old(x[..len])
    {
      var k := len;
      while k > 0
        invariant 0 <= k <= len
        invariant forall i | 0 <= i < k :: x[i] == old(x[i])
        invariant forall i | to + k <= i < to + len :: x[i] == old(x[i - to])
      {
        k := k - 1;
        x[to + k] := x[k];
      }
    }

    /** buffer_feed: make sure that something is waiting, unless the input is over (0)
        or fails (-1). What was read stands at the end of x. */
    method Feed() returns (r: int)
      requires Input()
      modifies this`p, this`n, x, dev
      ensures Input() && -1 <= r
      ensures old(dev.taken) <= dev.taken && dev.taken[|old(dev.taken)|..] + dev.input == old(dev.input)
      ensures Waiting() == old(Waiting()) + dev.taken[|old(dev.taken)|..]
      ensures r > 0 ==> r == p
      ensures r <= 0 ==> p == 0 && dev.taken == old(dev.taken)
      ensures old(p) == 0 && old(dev.script) == [] ==> r == if old(n) < |old(dev.input)| then old(n) else |old(dev.input)|
      ensures r == 0 ==> dev.input == []
      ensures dev.written == old(dev.written)
      ensures dev.failed == (old(dev.failed) || r == -1)
      ensures Went(old(dev.script), old(dev.failed), dev.script, dev.failed)
    {
      hide Went;
      NoneWent(dev.script, dev.failed);
      if p > 0 {
        assert dev.taken[|dev.taken|..] == [];
        return p;
      }
      var data;
      r, data := OneRead(n);
      assert dev.taken[|old(dev.taken)|..] == data;
      if r <= 0 {
        return;
      }
      p := r;
      n := n - r;
      Place(data);
    }

    /** What was read comes to stand at the end of x. */
    method Place(data: seq<byte>)
      requires n + |data| == x.Length
      modifies x
      ensures x[n..n + |data|] == data
    {
      for i := 0 to |data|
        invariant x[..i] == data[..i]
      {
        x[i] := data[i];
      }
      assert data[..|data|] == data;
      if n > 0 {
        CopyUp(n, |data|);
      }
    }

    /** getthis: hand over up to len waiting bytes. */
    method GetThis(len0: nat) returns (r: int, data: seq<byte>)
      requires Input()
      modifies this`p, this`n
      ensures Input() && data + Waiting() == old(Waiting())
      ensures r == |data| == if len0 > old(p) then old(p) else len0
    {
      var len := if len0 > p then p else len0;
      p := p - len;
      data := x[n..n + len];
      n := n + len;
      r := len;
    }

    /** buffer_get and, with block, buffer_bget: up to len bytes, from what is waiting
        or else from the device. Nothing is lost, repeated or reordered. */
    method Get(len: nat, block: bool) returns (r: int, data: seq<byte>)
      requires Input()
      modifies this`p, this`n, x, dev
      ensures Input() && -1 <= r <= len && |data| == if r == -1 then 0 else r
      ensures old(dev.taken) <= dev.taken
      ensures data + Waiting() == old(Waiting()) + dev.taken[|old(dev.taken)|..]
      ensures r == 0 ==> len == 0 || (dev.input == [] && p == 0)
      ensures dev.taken[|old(dev.taken)|..] + dev.input == old(dev.input)
      ensures dev.failed == (old(dev.failed) || r == -1)
      ensures Went(old(dev.script), old(dev.failed), dev.script, dev.failed)
    {
      hide Went;
      NoneWent(dev.script, dev.failed);
      ghost var t := |dev.taken|;
      assert dev.taken[t..] == [];
      if p > 0 {
        r, data := GetThis(len);
        return;
      }
      if n <= len {
        r, data := OneRead(if block then n else len);
        assert dev.taken[t..] == data;
        return;
      }
      r := Feed();
      if r <= 0 {
        data := [];
        return;
      }
      r, data := GetThis(len);
    }

    /** buffer_peek and buffer_seek: use len waiting bytes where they stand. */
    method Seek(len: nat) returns (data: seq<byte>)
      requires Input() && len <= p
      modifies this`p, this`n
      ensures Input() && data == old(Waiting())[..len] && Waiting() == old(Waiting())[len..]
    {
      data := x[n..n + len];
      assert Waiting() == data + x[n + len..n + p];
      n := n + len;
      p := p - len;
    }
  }

  // ---- whole runs -----------------------------------------------------------

  datatype Op = OpPut(s: seq<byte>) | OpPutAlign(s: seq<byte>) | OpPutC(c: byte) | OpPutFlush(s: seq<byte>) | OpFlush {
    function Bytes(): seq<byte> {
      match this
      case OpPut(s) => s
      case OpPutAlign(s) => s
      case OpPutC(c) => [c]
      case OpPutFlush(s) => s
      case OpFlush => []
    }
  }

  /** The bytes a sequence of operations puts. */
  function Sent(ops: seq<Op>): seq<byte> {
    if ops == [] then [] else Sent(ops[..|ops| - 1]) + ops[|ops| - 1].Bytes()
  }

  method RunOp(b: Buf, op: Op) returns (ok: bool)
    requires b.Output()
    modifies b, b.x, b.dev
    ensures b.Output()
    ensures ok <==> b.Stream() == old(b.Stream()) + op.Bytes()
    ensures b.dev.written <= old(b.Stream()) + op.Bytes()
    ensures b.dev.failed == (old(b.dev.failed) || !ok)
  {
    match op {
      case OpPut(s) => ok := b.Put(s);
      case OpPutAlign(s) => ok := b.PutAlign(s);
      case OpPutC(c) => ok := b.PutC(c);
      case OpPutFlush(s) => ok := b.PutFlush(s); assert b.x[..0] == [];
      case OpFlush => ok := b.Flush(); assert b.x[..0] == [];
    }
  }

  /** Any mix of output operations: without an error, what has been written followed
      by what is waiting is everything put, in order; and even then what has been
      written is never anything else than a beginning of it. */
  method RunOutput(b: Buf, ops: seq<Op>) returns (ok: bool)
    requires b.Output() && b.p == 0
    modifies b, b.x, b.dev
    ensures b.Output()
    ensures ok ==> b.dev.written + b.x[..b.p] == old(b.dev.written) + Sent(ops)
    ensures b.dev.written <= old(b.dev.written) + Sent(ops)
    ensures b.dev.failed == (old(b.dev.failed) || !ok)
  {
    hide Sent;
    ok := true;
    var i := 0;
    assert b.x[..0] == [];
    NothingSent(ops);
    while i < |ops| && ok
      invariant i <= |ops| && b.Output()
      invariant ok ==> b.Stream() == old(b.dev.written) + Sent(ops[..i])
      invariant b.dev.written <= old(b.dev.written) + Sent(ops[..i])
      invariant b.dev.failed == (old(b.dev.failed) || !ok)
    {
      SentNext(ops, i);
      ok := RunOp(b, ops[i]);
      i := i + 1;
    }
    SentGrows(ops, i);
    assert ops[..|ops|] == ops;
  }

  datatype InOp = OpGet(len: nat) | OpBGet(len: nat) | OpFeed | OpSeek(len: nat)

  /** One input operation, and the bytes it delivers. Only waiting bytes can be passed over. */
  method RunInOp(b: Buf, op: InOp) returns (data: seq<byte>)
    requires b.Input()
    modifies b, b.x, b.dev
    ensures b.Input() && old(b.dev.taken) <= b.dev.taken
    ensures data + b.Waiting() == old(b.Waiting()) + b.dev.taken[|old(b.dev.taken)|..]
    ensures b.dev.taken[|old(b.dev.taken)|..] + b.dev.input == old(b.dev.input)
  {
    var r;
    ghost var w := b.Waiting();
    assert b.dev.taken[|b.dev.taken|..] == [];
    match op {
      case OpGet(len) => r, data := b.Get(len, false);
      case OpBGet(len) => r, data := b.Get(len, true);
      case OpFeed =>
        r := b.Feed();
        data := [];
      case OpSeek(len) =>
        data := b.Seek(if len < b.p then len else b.p);
        assert data + b.Waiting() == w;
    }
  }

  /** Any mix of input operations: bytes delivered followed by bytes waiting are all bytes taken
      from the device, in order, which are the beginning of its input. */
  method RunInput(b: Buf, ops: seq<InOp>) returns (delivered: seq<byte>)
    requires b.Input() && b.p == 0
    modifies b, b.x, b.dev
    ensures b.Input() && old(b.dev.taken) <= b.dev.taken
    ensures delivered + b.Waiting() == b.dev.taken[|old(b.dev.taken)|..]
    ensures b.dev.taken[|old(b.dev.taken)|..] + b.dev.input == old(b.dev.input)
  {
    delivered := [];
    ghost var t, input := |b.dev.taken|, b.dev.input;
    assert b.Waiting() == [] && b.dev.taken[t..] == [];
    for i := 0 to |ops|
      invariant b.Input() && old(b.dev.taken) <= b.dev.taken
      invariant delivered + b.Waiting() == b.dev.taken[t..]
      invariant b.dev.taken[t..] + b.dev.input == input
    {
      ghost var taken, w := b.dev.taken, b.Waiting();
      var data := RunInOp(b, ops[i]);
      Lengthened(taken, b.dev.taken, t);
      ghost var new_ := b.dev.taken[|taken|..];
      assert delivered + (data + b.Waiting()) == delivered + data + b.Waiting();
      assert delivered + (w + new_) == delivered + w + new_;
      assert taken[t..] + (new_ + b.dev.input) == taken[t..] + new_ + b.dev.input;
      delivered := delivered + data;
    }
  }

  lemma Lengthened(a: seq<byte>, b: seq<byte>, t: nat)
    requires t <= |a| && a <= b
    ensures b[t..] == a[t..] + b[|a|..]
  {
  }

  lemma NothingSent(ops: seq<Op>)
    ensures Sent(ops[..0]) == []
  {
  }

  lemma SentNext(ops: seq<Op>, i: nat)
    requires i < |ops|
    ensures Sent(ops[..i + 1]) == Sent(ops[..i]) + ops[i].Bytes()
  {
    assert ops[..i + 1][..i] == ops[..i];
  }

  lemma {:induction false} SentGrows(ops: seq<Op>, i: nat)
    requires i <= |ops|
    ensures Sent(ops[..i]) <= Sent(ops)
    decreases |ops| - i
  {
    if i < |ops| {
      SentNext(ops, i);
      SentGrows(ops, i + 1);
    } else {
      assert ops[..i] == ops;
    }
  }
}
