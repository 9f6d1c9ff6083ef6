/** The carriage-return filters addcr, delcr and fixcrio. */
module CrFilters {
  import opened Bytes
  import opened Buffer

  const LF: byte := 10
  const CR: byte := 13

  // ---- the filters as functions ---------------------------------------------

  /** addcr: a CR before every LF. */
  function AddCr(s: seq<byte>): seq<byte> {
    if s == [] then []
    else AddCr(s[..|s| - 1]) + if s[|s| - 1] == LF then [CR, LF] else [s[|s| - 1]]
  }

  /** delcr after some input: what it has put out, and whether it holds back a CR. */
  function DelState(s: seq<byte>): (seq<byte>, bool) {
    if s == [] then ([], false)
    else
      var (out, flag) := DelState(s[..|s| - 1]);
      var c := s[|s| - 1];
      if !flag then (if c == CR then (out, true) else (out + [c], false))
      else if c == LF then (out + [LF], false)
      else if c == CR then (out + [CR], true)
      else (out + [CR, c], false)
  }

  function DelCr(s: seq<byte>): seq<byte> {
    DelState(s).0 + if DelState(s).1 then [CR] else []
  }

  /** fixcrio after some input: what it has put out, and whether the last byte was a CR. */
  function FixState(s: seq<byte>): (seq<byte>, bool) {
    if s == [] then ([], false)
    else
      var (out, flag) := FixState(s[..|s| - 1]);
      var c := s[|s| - 1];
      (out + (if c == LF && !flag then [CR, LF] else [c]), c == CR)
  }

  function Fix(s: seq<byte>): seq<byte> { FixState(s).0 }

  /** Text without the CRs that stand directly before an LF. */
  function Unpair(s: seq<byte>): seq<byte> {
    if s == [] then []
    else if |s| >= 2 && s[0] == CR && s[1] == LF then [LF] + Unpair(s[2..])
    else [s[0]] + Unpair(s[1..])
  }

  // ---- their laws -----------------------------------------------------------

  lemma DelStep(s: seq<byte>, c: byte)
    ensures DelState(s + [c]) ==
            var (out, flag) := DelState(s);
            if !flag then (if c == CR then (out, true) else (out + [c], false))
            else if c == LF then (out + [LF], false)
            else if c == CR then (out + [CR], true)
            else (out + [CR, c], false)
  {
    assert (s + [c])[..|s|] == s;
  }

  lemma FixStep(s: seq<byte>, c: byte)
    ensures FixState(s + [c]) ==
            (FixState(s).0 + (if c == LF && !FixState(s).1 then [CR, LF] else [c]), c == CR)
  {
    assert (s + [c])[..|s|] == s;
  }

  /** delcr undoes addcr, even when the text contains CRs of its own. */
  lemma {:induction false} DelAddState(s: seq<byte>)
    ensures DelState(AddCr(s)) ==
            if s != [] && s[|s| - 1] == CR then (s[..|s| - 1], true) else (s, false)
  {
    hide DelState;
    hide AddCr;
    if s == [] {
      DelNothing();
      AddNothing();
    } else {
      var init, c := s[..|s| - 1], s[|s| - 1];
      DelAddState(init);
      assert s == init + [c];
      AddStep(init, c);
      if init != [] && init[|init| - 1] == CR {
        var o := init[..|init| - 1];
        assert init == o + [CR] && o + [CR, c] == s;
      }
      if c == LF {
        assert AddCr(s) == AddCr(init) + [CR] + [LF];
        DelStep(AddCr(init), CR);
        DelStep(AddCr(init) + [CR], LF);
      } else {
        DelStep(AddCr(init), c);
      }
    }
  }

  lemma DelNothing()
    ensures DelState([]) == ([], false)
  {
  }

  lemma DelAdd(s: seq<byte>)
    ensures DelCr(AddCr(s)) == s
  {
    DelAddState(s);
  }

  /** Every LF comes directly after a CR. */
  predicate Paired(s: seq<byte>) { forall i | 0 <= i < |s| && s[i] == LF :: i > 0 && s[i - 1] == CR }

  lemma {:induction false} FixPairs(s: seq<byte>)
    ensures Paired(Fix(s)) && (FixState(s).1 <==> Fix(s) != [] && Fix(s)[|Fix(s)| - 1] == CR)
    ensures |s| <= |Fix(s)| <= 2 * |s|
  {
    if s != [] {
      FixPairs(s[..|s| - 1]);
    }
  }

  /** Text that is already paired passes unchanged, so fixing twice is fixing once. */
  lemma {:induction false} FixPaired(s: seq<byte>)
    requires Paired(s)
    ensures Fix(s) == s && (FixState(s).1 <==> s != [] && s[|s| - 1] == CR)
  {
    hide FixState;
    if s == [] {
      FixNothing();
    } else {
      var init, c := s[..|s| - 1], s[|s| - 1];
      forall i | 0 <= i < |init| && init[i] == LF ensures i > 0 && init[i - 1] == CR {
        assert s[i] == LF;
      }
      FixPaired(init);
      assert s == init + [c];
      FixStep(init, c);
      assert c == LF ==> s[|s| - 1 - 1] == CR;
    }
  }

  lemma FixNothing()
    ensures FixState([]) == ([], false)
  {
  }

  lemma FixTwice(s: seq<byte>)
    ensures Fix(Fix(s)) == Fix(s)
  {
    FixPairs(s);
    FixPaired(Fix(s));
  }

  /** delcr sees no difference between a text and its fixed form. */
  lemma {:induction false} DelFix(s: seq<byte>)
    ensures DelState(Fix(s)) == DelState(s)
    ensures DelState(s).1 <==> FixState(s).1
  {
    if s != [] {
      var init, c := s[..|s| - 1], s[|s| - 1];
      DelFix(init);
      assert s == init + [c];
      if c == LF && !FixState(init).1 {
        assert Fix(s) == Fix(init) + [CR] + [LF];
        DelStep(Fix(init), CR);
        DelStep(Fix(init) + [CR], LF);
      } else {
        DelStep(Fix(init), c);
      }
    }
  }

  lemma UnpairStep(c: byte, t: seq<byte>)
    ensures Unpair([c] + t) ==
            if c == CR && t != [] && t[0] == LF then [LF] + Unpair(t[1..]) else [c] + Unpair(t)
  {
    assert ([c] + t)[1..] == t;
    assert t != [] ==> ([c] + t)[2..] == t[1..];
  }

  /** What delcr will have put out when the rest of its input is t. */
  function After(state: (seq<byte>, bool), t: seq<byte>): seq<byte> {
    state.0 + if state.1 then Unpair([CR] + t) else Unpair(t)
  }

  lemma AfterStep(out: seq<byte>, flag: bool, c: byte, rest: seq<byte>)
    ensures After((out, flag), [c] + rest) ==
            if !flag then (if c == CR then After((out, true), rest) else After((out + [c], false), rest))
            else if c == LF then After((out + [LF], false), rest)
            else if c == CR then After((out + [CR], true), rest)
            else After((out + [CR, c], false), rest)
  {
    hide Unpair;
    UnpairStep(c, rest);
    if flag {
      UnpairStep(CR, [c] + rest);
      assert ([c] + rest)[1..] == rest;
      if c != LF && c != CR {
        assert out + [CR, c] + Unpair(rest) == out + ([CR] + ([c] + Unpair(rest)));
      }
    }
  }

  /** What delcr does to a text, said without its state: drop the CRs before LFs. */
  lemma {:induction false} DelIsUnpair(s: seq<byte>, t: seq<byte>)
    ensures DelCr(s + t) == After(DelState(s), t)
    decreases |t|
  {
    hide DelState;
    hide Unpair;
    if t == [] {
      assert s + t == s && [CR] + t == [CR] + [];
      UnpairStep(CR, []);
      UnpairNothing();
    } else {
      assert s + t == s + [t[0]] + t[1..] && t == [t[0]] + t[1..];
      DelIsUnpair(s + [t[0]], t[1..]);
      DelStep(s, t[0]);
      AfterStep(DelState(s).0, DelState(s).1, t[0], t[1..]);
    }
  }

  lemma UnpairNothing()
    ensures Unpair([]) == []
  {
  }

  lemma DelCrMeans(s: seq<byte>)
    ensures DelCr(s) == Unpair(s)
  {
    hide Unpair;
    hide DelState;
    DelNothing();
    DelIsUnpair([], s);
    assert [] + s == s && [] + Unpair(s) == Unpair(s);
  }

  // ---- addcr and delcr ------------------------------------------------------

  /** Two buffers that share nothing. */
  ghost predicate Apart(inb: Buf, out: Buf)
    reads inb, out
  {
    && inb != out && inb.x != out.x && inb.dev != out.dev && inb.Input() && out.Output()
  }

  function Smaller(a: nat, b: nat): nat { if a < b then a else b }

  /** Once the script is used up, no call fails. */
  lemma ScriptOver(s0: seq<Outcome>, f0: bool, s: seq<Outcome>, f: bool)
    ensures Went(s0, f0, s, f) && s0 == [] ==> s == [] && f == f0
  {
  }

  /** When the one failure of a script has been met, a call has failed. */
  lemma WentOnce(f0: bool, s: seq<Outcome>, f: bool)
    ensures Went([Fails], f0, s, f) && |s| < 1 ==> s == [] && f
  {
    if Went([Fails], f0, s, f) && |s| < 1 {
      assert [Fails][..1] == [Fails];
    }
  }

  /** buffer_feed on buffer_0, whose read operation first flushes buffer_1. */
  method Feed0(inb: Buf, out: Buf) returns (r: int)
    requires Apart(inb, out) && inb.p == 0
    modifies inb`p, inb`n, inb.x, inb.dev, out`p, out.dev
    ensures Apart(inb, out) && -1 <= r
    ensures r >= 0 ==> out.p == 0 && out.dev.written == out.Stream() == old(out.Stream()) && r == inb.p
    ensures r >= 0 ==> inb.Waiting() + inb.dev.input == old(inb.dev.input)
    ensures r == 0 ==> inb.dev.input == []
    ensures r < 0 ==> inb.dev.failed || out.dev.failed
    ensures r >= 0 ==> inb.dev.failed == old(inb.dev.failed) && out.dev.failed == old(out.dev.failed)
    ensures old(inb.dev.script) == [] && (old(out.p) == 0 || old(out.dev.script) == []) ==>
              && r == Smaller(old(inb.n), |old(inb.dev.input)|)
              && inb.dev.script == [] && out.dev.script == old(out.dev.script)
  {
    hide Went;
    ghost var s0, f0, s1, f1 := out.dev.script, out.dev.failed, inb.dev.script, inb.dev.failed;
    var ok := out.Flush();
    ScriptOver(s0, f0, out.dev.script, out.dev.failed);
    assert out.x[..0] == [];
    if !ok {
      return -1;
    }
    assert inb.Waiting() == [];
    r := inb.Feed();
    ScriptOver(s1, f1, inb.dev.script, inb.dev.failed);
  }

  /** One chunk of input: buffer_feed, and all that is waiting passed over at once. */
  method ReadChunk(inb: Buf, out: Buf) returns (r: int, chunk: seq<byte>)
    requires Apart(inb, out) && inb.p == 0
    modifies inb`p, inb`n, inb.x, inb.dev, out`p, out.dev
    ensures Apart(inb, out) && -1 <= r
    ensures r >= 0 ==> out.p == 0 && out.dev.written == out.Stream() == old(out.Stream())
    ensures r >= 0 ==> inb.p == 0 && |chunk| == r && chunk + inb.dev.input == old(inb.dev.input)
    ensures r == 0 ==> inb.dev.input == [] == old(inb.dev.input)
    ensures r < 0 ==> inb.dev.failed || out.dev.failed
    ensures r >= 0 ==> inb.dev.failed == old(inb.dev.failed) && out.dev.failed == old(out.dev.failed)
    ensures old(inb.dev.script) == [] && (old(out.p) == 0 || old(out.dev.script) == []) ==>
              && r >= 0 && chunk == FirstChunk(old(inb.dev.input), inb.x.Length)
              && inb.dev.script == [] && out.dev.script == old(out.dev.script)
  {
    ghost var input := inb.dev.input;
    r := Feed0(inb, out);
    chunk := [];
    if r >= 0 {
      chunk := inb.Seek(r);
      assert inb.Waiting() == [];
      assert chunk + [] == chunk && chunk == (chunk + inb.dev.input)[..r];
    }
  }

  /** What a read that transfers all it can delivers. */
  function FirstChunk(input: seq<byte>, size: nat): seq<byte> { input[..Smaller(size, |input|)] }

  /** Everything wanted has been put, or less if a call has failed. */
  ghost predicate PutSoFar(out: Buf, wanted: seq<byte>)
    requires out.Output()
    reads out, out.x, out.dev
  {
    Complete(out.Stream(), out.dev.failed, wanted)
  }

  ghost predicate Complete(stream: seq<byte>, failed: bool, wanted: seq<byte>) {
    if failed then |stream| < |wanted| else stream == wanted
  }

  /** buffer_PUTC with its result ignored. While no write call is made, the buffer takes the byte. */
  method PutByte(out: Buf, c: byte, ghost wanted: seq<byte>)
    requires out.Output() && PutSoFar(out, wanted)
    modifies out`p, out.x, out.dev
    ensures out.Output() && out.dev.input == old(out.dev.input) && PutSoFar(out, wanted + [c])
    ensures Went(old(out.dev.script), old(out.dev.failed), out.dev.script, out.dev.failed)
    ensures |out.dev.script| == |old(out.dev.script)| > 0 || old(out.p) < out.n ==>
              out.p == old(out.p) + 1 && out.dev.script == old(out.dev.script)
  {
    hide Went;
    var _ := out.PutC(c);
  }

  // ---- addcr ----------------------------------------------------------------

  lemma AddStep(s: seq<byte>, c: byte)
    ensures AddCr(s + [c]) == AddCr(s) + if c == LF then [CR, LF] else [c]
  {
    assert (s + [c])[..|s|] == s;
  }

  lemma AddNothing()
    ensures AddCr([]) == []
  {
  }

  /** addcr: copy standard input to standard output with a CR before every LF.
      Results of the single-byte writes are ignored, as in the program. When it exits
      with 0, everything has been written if and only if no write has failed; and it
      does exit with 0 when only the first write fails and that happens while the
      output of the first chunk is put. */
  method Addcr(inb: Buf, out: Buf) returns (status: nat)
    requires Apart(inb, out) && inb.p == 0 && out.p == 0 && out.dev.written == []
    requires !inb.dev.failed && !out.dev.failed
    modifies inb, inb.x, inb.dev, out, out.x, out.dev
    ensures status == 0 || (status == 111 && (inb.dev.failed || out.dev.failed))
    ensures status == 0 ==> (out.dev.written == AddCr(old(inb.dev.input)) <==> !out.dev.failed)
    ensures old(inb.dev.script) == [] && old(out.dev.script) == [Fails]
            && |AddCr(FirstChunk(old(inb.dev.input), inb.x.Length))| > out.x.Length ==>
              status == 0 && out.dev.failed
  {
    hide AddCr;
    hide Went;
    hide Complete;
    ghost var done: seq<byte>, total := [], inb.dev.input;
    ghost var first := FirstChunk(total, inb.x.Length);
    ghost var loses := inb.dev.script == [] && out.dev.script == [Fails] && |AddCr(first)| > out.x.Length;
    assert out.Stream() == [] && done + total == total;
    AddNothing();
    NothingPut();
    while true
      invariant Apart(inb, out) && inb.p == 0 && done + inb.dev.input == total
      invariant PutSoFar(out, AddCr(done))
      invariant loses ==> inb.dev.script == []
      invariant loses ==> if done == [] then out.dev.script == [Fails] && out.p == 0
                          else out.dev.script == [] && out.dev.failed
      decreases |inb.dev.input|
    {
      assert done == [] ==> inb.dev.input == total;
      var r, chunk := ReadChunk(inb, out);
      if r < 0 {
        return 111;
      }
      if r == 0 {
        assert done == total;
        AllPut(out.dev.written, out.dev.failed, AddCr(done));
        return 0;
      }
      assert loses && done == [] ==> chunk == first;
      AddChunk(out, chunk, done);
      Associates(done, chunk, inb.dev.input);
      done := done + chunk;
    }
  }

  lemma Associates(a: seq<byte>, b: seq<byte>, c: seq<byte>)
    ensures a + b + c == a + (b + c)
  {
  }

  lemma NothingPut()
    ensures Complete([], false, [])
  {
  }

  lemma AllPut(stream: seq<byte>, failed: bool, wanted: seq<byte>)
    requires Complete(stream, failed, wanted)
    ensures stream == wanted <==> !failed
  {
  }

  /** One byte of addcr's input. */
  method AddByte(out: Buf, ch: byte, ghost done: seq<byte>)
    requires out.Output() && PutSoFar(out, AddCr(done))
    modifies out`p, out.x, out.dev
    ensures out.Output() && out.dev.input == old(out.dev.input) && PutSoFar(out, AddCr(done + [ch]))
    ensures Went(old(out.dev.script), old(out.dev.failed), out.dev.script, out.dev.failed)
    ensures |out.dev.script| == |old(out.dev.script)| > 0 ==> out.p == old(out.p) + if ch == LF then 2 else 1
  {
    hide AddCr;
    hide Went;
    hide Complete;
    AddStep(done, ch);
    ghost var s0, f0 := out.dev.script, out.dev.failed;
    NoneWent(s0, f0);
    if ch == LF {
      PutByte(out, CR, AddCr(done));
      assert AddCr(done) + [CR] + [LF] == AddCr(done) + [CR, LF];
    }
    ghost var s1, f1 := out.dev.script, out.dev.failed;
    assert AddCr(done) + [] == AddCr(done);
    PutByte(out, ch, AddCr(done) + if ch == LF then [CR] else []);
    assert AddCr(done) + [] + [ch] == AddCr(done) + [ch];
    WentOn(s0, f0, s1, f1, out.dev.script, out.dev.failed);
  }

  /** The inner loop of addcr. Output that does not fit the buffer meets the next failure. */
  method AddChunk(out: Buf, chunk: seq<byte>, ghost done: seq<byte>)
    requires out.Output() && PutSoFar(out, AddCr(done))
    modifies out`p, out.x, out.dev
    ensures out.Output() && out.dev.input == old(out.dev.input) && PutSoFar(out, AddCr(done + chunk))
    ensures Went(old(out.dev.script), old(out.dev.failed), out.dev.script, out.dev.failed)
    ensures old(out.dev.script) == [] ==> out.dev.script == [] && out.dev.failed == old(out.dev.failed)
    ensures old(out.dev.script) == [Fails] && old(out.p) + |AddCr(chunk)| > out.n ==>
              out.dev.script == [] && out.dev.failed
  {
    hide AddCr;
    hide Went;
    hide Complete;
    ghost var s0, f0, p0 := out.dev.script, out.dev.failed, out.p;
    AddNothing();
    NoneWent(s0, f0);
    assert done + chunk[..0] == done;
    for i := 0 to |chunk|
      invariant out.Output() && out.dev.input == old(out.dev.input)
      invariant PutSoFar(out, AddCr(done + chunk[..i]))
      invariant Went(s0, f0, out.dev.script, out.dev.failed) && |out.dev.script| <= |s0|
      invariant |out.dev.script| == |s0| > 0 ==> out.p == p0 + |AddCr(chunk[..i])|
    {
      ghost var s1, f1 := out.dev.script, out.dev.failed;
      assert chunk[..i + 1] == chunk[..i] + [chunk[i]];
      assert done + chunk[..i + 1] == done + chunk[..i] + [chunk[i]];
      AddStep(chunk[..i], chunk[i]);
      AddByte(out, chunk[i], done + chunk[..i]);
      WentOn(s0, f0, s1, f1, out.dev.script, out.dev.failed);
    }
    assert chunk[..|chunk|] == chunk;
    ScriptOver(s0, f0, out.dev.script, out.dev.failed);
    WentOnce(f0, out.dev.script, out.dev.failed);
  }

  lemma {:induction false} AddLineEnds(n: nat)
    ensures |AddCr(seq(n, _ => LF))| == 2 * n
  {
    if n > 0 {
      var s := seq(n, _ => LF);
      AddLineEnds(n - 1);
      assert s[..n - 1] == seq(n - 1, _ => LF);
    }
  }

  /** A run of addcr that exits with 0 and has not written everything: 8192 LFs arrive in one
      read, and the write for the first full buffer fails. */
  method LosingAddcr() returns (status: nat, input: seq<byte>, ghost output: seq<byte>)
    ensures status == 0 && output != AddCr(input)
  {
    hide AddCr;
    input := seq(OUTSIZE, _ => LF);
    var in0 := new Device(input, []);
    var out0 := new Device([], [Fails]);
    var inb := new Buf(OUTSIZE, in0);
    var out := new Buf(OUTSIZE, out0);
    AddLineEnds(OUTSIZE);
    assert FirstChunk(input, OUTSIZE) == input;
    status := Addcr(inb, out);
    output := out0.written;
  }

  // ---- delcr ----------------------------------------------------------------

  /** One byte of delcr's input. Nothing is put for a CR that is only held back. */
  method DelByte(out: Buf, ch: byte, flagcr0: bool, ghost done: seq<byte>) returns (flagcr: bool)
    requires out.Output() && flagcr0 == DelState(done).1 && PutSoFar(out, DelState(done).0)
    modifies out`p, out.x, out.dev
    ensures out.Output() && out.dev.input == old(out.dev.input)
    ensures flagcr == DelState(done + [ch]).1 && PutSoFar(out, DelState(done + [ch]).0)
    ensures !flagcr0 && ch == CR ==> out.p == old(out.p) && out.dev.script == old(out.dev.script)
  {
    hide DelState;
    hide Went;
    hide Complete;
    DelStep(done, ch);
    ghost var put := DelState(done).0;
    flagcr := flagcr0;
    if !flagcr {
      if ch == CR {
        return true;
      }
      PutByte(out, ch, put);
      return;
    }
    if ch != LF {
      PutByte(out, CR, put);
      if ch == CR {
        return;
      }
      assert put + [CR] + [ch] == put + [CR, ch];
    }
    flagcr := false;
    assert put + [] == put;
    PutByte(out, ch, put + if ch != LF then [CR] else []);
    assert put + [] + [ch] == put + [ch];
  }

  /** The inner loop of delcr. */
  method DelChunk(out: Buf, chunk: seq<byte>, flagcr0: bool, ghost done: seq<byte>) returns (flagcr: bool)
    requires out.Output() && flagcr0 == DelState(done).1 && PutSoFar(out, DelState(done).0)
    modifies out`p, out.x, out.dev
    ensures out.Output() && out.dev.input == old(out.dev.input)
    ensures flagcr == DelState(done + chunk).1 && PutSoFar(out, DelState(done + chunk).0)
    ensures !flagcr0 && chunk == [CR] ==> out.p == old(out.p) && out.dev.script == old(out.dev.script)
  {
    hide DelState;
    hide Complete;
    flagcr := flagcr0;
    assert done + chunk[..0] == done;
    for i := 0 to |chunk|
      invariant out.Output() && out.dev.input == old(out.dev.input)
      invariant flagcr == DelState(done + chunk[..i]).1 && PutSoFar(out, DelState(done + chunk[..i]).0)
      invariant i == 0 ==> flagcr == flagcr0
      invariant !flagcr0 && chunk == [CR] ==> out.p == old(out.p) && out.dev.script == old(out.dev.script)
    {
      assert done + chunk[..i + 1] == done + chunk[..i] + [chunk[i]];
      flagcr := DelByte(out, chunk[i], flagcr, done + chunk[..i]);
    }
    assert chunk[..|chunk|] == chunk;
  }

  /** The end of delcr: a CR held back goes out, and what is waiting is written. */
  method LastCr(out: Buf, flagcr: bool, ghost done: seq<byte>)
    requires out.Output() && flagcr == DelState(done).1 && PutSoFar(out, DelState(done).0)
    modifies out`p, out.x, out.dev
    ensures out.dev.written == DelCr(done) <==> !out.dev.failed
    ensures flagcr && old(out.p) == 0 && old(out.dev.script) == [Fails] ==> out.dev.failed
  {
    hide DelState;
    hide Went;
    hide Complete;
    ghost var put := DelState(done).0;
    if flagcr {
      PutByte(out, CR, put);
    }
    assert put + [] == put;
    ghost var s1, f1, stream := out.dev.script, out.dev.failed, out.Stream();
    var _ := out.Flush();
    WentOnce(f1, out.dev.script, out.dev.failed);
    Written(stream, f1, DelCr(done), out.dev.written, out.dev.failed);
  }

  /** Flushing completes what was put, or fails. */
  lemma Written(stream: seq<byte>, failed0: bool, wanted: seq<byte>, written: seq<byte>, failed: bool)
    requires Complete(stream, failed0, wanted) && written <= stream
    requires failed == (failed0 || written != stream)
    ensures written == wanted <==> !failed
  {
  }

  /** delcr: copy standard input to standard output without the CRs before LFs; a CR
      held back at the end is put out too. When it exits with 0, everything has been
      written if and only if no write has failed; and it does exit with 0 when the
      input is one CR and its write fails. */
  method Delcr(inb: Buf, out: Buf) returns (status: nat)
    requires Apart(inb, out) && inb.p == 0 && out.p == 0 && out.dev.written == []
    requires !inb.dev.failed && !out.dev.failed
    modifies inb, inb.x, inb.dev, out, out.x, out.dev
    ensures status == 0 || (status == 111 && (inb.dev.failed || out.dev.failed))
    ensures status == 0 ==> (out.dev.written == DelCr(old(inb.dev.input)) <==> !out.dev.failed)
    ensures old(inb.dev.script) == [] && old(out.dev.script) == [Fails] && old(inb.dev.input) == [CR] ==>
              status == 0 && out.dev.failed
  {
    hide DelState;
    hide Went;
    hide Complete;
    ghost var done: seq<byte>, total := [], inb.dev.input;
    ghost var loses := inb.dev.script == [] && out.dev.script == [Fails] && total == [CR];
    var flagcr := false;
    assert out.Stream() == [] && done + total == total;
    DelNothing();
    DelStep([], CR);
    assert [] + [CR] == [CR];
    NothingPut();
    while true
      invariant Apart(inb, out) && inb.p == 0 && done + inb.dev.input == total
      invariant flagcr == DelState(done).1 && PutSoFar(out, DelState(done).0)
      invariant loses ==> inb.dev.script == [] && out.dev.script == [Fails] && out.p == 0
      decreases |inb.dev.input|
    {
      var r, chunk := ReadChunk(inb, out);
      if r < 0 {
        return 111;
      }
      if r == 0 {
        assert done == total;
        LastCr(out, flagcr, done);
        return 0;
      }
      assert loses ==> chunk == [CR] && done == [];
      flagcr := DelChunk(out, chunk, flagcr, done);
      Associates(done, chunk, inb.dev.input);
      done := done + chunk;
    }
  }

  /** A run of delcr that exits with 0 and has not written everything. */
  method LosingDelcr() returns (status: nat, input: seq<byte>, ghost output: seq<byte>)
    ensures status == 0 && output != DelCr(input)
  {
    input := [CR];
    var in0 := new Device(input, []);
    var out0 := new Device([], [Fails]);
    var inb := new Buf(OUTSIZE, in0);
    var out := new Buf(OUTSIZE, out0);
    status := Delcr(inb, out);
    output := out0.written;
  }

  // ---- fixcrio --------------------------------------------------------------

  /** One direction of fixcrio. status is 0 to read, 1 to write, -1 when closed. */
  class Pump {
    var status: int
    const buf: array<byte>
    var len: nat
    var pos: nat
    var flagcr: bool
    ghost var received: seq<byte>
    ghost var sent: seq<byte>

    /** What was sent, and then what waits in the buffer, is the fixed form of what
        was received; nothing waits unless status is 1. */
    ghost predicate Valid()
      reads this, buf
    {
      && buf.Length == 512 && pos <= len <= 512 && -1 <= status <= 1
      && sent + buf[pos..len] == Fix(received) && flagcr == FixState(received).1
      && (status != 1 ==> pos == len)
    }

    constructor ()
      ensures Valid() && status == 0 && received == [] && sent == [] && fresh(buf)
    {
      buf := new byte[512](_ => 0);
      status, len, pos, flagcr, received, sent := 0, 0, 0, false, [], [];
    }

    /** r bytes, or the end of the input, have arrived in prebuf. */
    method Readable(prebuf: seq<byte>, r: int)
      requires Valid() && status == 0 && |prebuf| == 256 && r <= 256
      modifies this, buf
      ensures Valid() && sent == old(sent)
      ensures status == if r <= 0 then -1 else 1
      ensures received == old(received) + if r <= 0 then [] else prebuf[..r]
    {
      hide FixState;
      if r <= 0 {
        status := -1;
        return;
      }
      assert buf[pos..len] == [];
      status := 1;
      pos := 0;
      len := 0;
      ghost var received0 := received;
      assert sent + buf[0..0] == sent && received0 + prebuf[..0] == received0;
      for i := 0 to r
        invariant pos == 0 && len <= 2 * i && status == 1 && sent == old(sent) && received == received0 + prebuf[..i]
        invariant sent + buf[0..len] == Fix(received) && flagcr == FixState(received).1
      {
        assert received0 + prebuf[..i + 1] == received + [prebuf[i]];
        Take(prebuf[i]);
      }
    }

    /** Append one received byte to the buffer, after a CR if need be. */
    method Take(ch: byte)
      requires buf.Length == 512 && len + 2 <= 512
      requires sent + buf[0..len] == Fix(received) && flagcr == FixState(received).1
      modifies this`len, this`flagcr, this`received, buf
      ensures old(len) < len <= old(len) + 2 && received == old(received) + [ch]
      ensures sent + buf[0..len] == Fix(received) && flagcr == FixState(received).1
    {
      hide FixState;
      FixStep(received, ch);
      ghost var before := buf[0..len];
      if ch == LF && !flagcr {
        buf[len] := CR;
        buf[len + 1] := ch;
        len := len + 2;
        assert buf[0..len] == before + [CR, ch];
        assert sent + before + [CR, ch] == sent + (before + [CR, ch]);
      } else {
        buf[len] := ch;
        len := len + 1;
        assert buf[0..len] == before + [ch];
        assert sent + before + [ch] == sent + (before + [ch]);
      }
      flagcr := ch == CR;
      received := received + [ch];
    }

    /** w bytes have been written; -1 stops the program. */
    method Writable(w: int) returns (ok: bool)
      requires Valid() && status == 1 && -1 <= w <= len - pos
      modifies this`pos, this`status, this`sent
      ensures ok <==> w != -1
      ensures Valid() && received == old(received)
      ensures old(sent) <= sent && (w > 0 ==> |sent| == |old(sent)| + w)
      ensures status == if ok && pos == len then 0 else 1
    {
      if w == -1 {
        return false;
      }
      assert buf[pos..len] == buf[pos..pos + w] + buf[pos + w..len];
      sent := sent + buf[pos..pos + w];
      pos := pos + w;
      if pos == len {
        status := 0;
      }
      ok := true;
    }
  }

  /** Whatever has been sent is a beginning of the fixed form of what was received;
      when nothing waits, in particular once the input has ended, it is all of it. */
  lemma PumpMeans(p: Pump)
    requires p.Valid()
    ensures p.sent <= Fix(p.received) && Paired(Fix(p.received))
    ensures p.status != 1 ==> p.sent == Fix(p.received)
    ensures DelCr(Fix(p.received)) == Unpair(p.received)
  {
    FixPairs(p.received);
    DelFix(p.received);
    DelCrMeans(p.received);
  }

  /** What poll may report: data (or, with none, the end of the input) to read, or room to
      write, of which a write takes w bytes; -1 is an error. */
  datatype Event = CanRead(data: seq<byte>) | CanWrite(w: int)

  /** The pump over any events. Only what its status waits for is reported to it. What has been
      sent is always a beginning of the fixed form of all that arrived, and is all of it
      when nothing waits in the buffer. */
  method RunPump(p: Pump, events: seq<Event>) returns (arrived: seq<byte>, ok: bool)
    requires p.Valid() && p.status == 0 && p.received == [] && p.sent == []
    modifies p, p.buf
    ensures p.Valid() && p.received == arrived
    ensures p.sent <= Fix(arrived) && (p.status != 1 ==> p.sent == Fix(arrived))
    ensures Paired(Fix(arrived)) && DelCr(Fix(arrived)) == Unpair(arrived)
  {
    arrived, ok := [], true;
    var i := 0;
    while i < |events| && ok
      invariant p.Valid() && p.received == arrived
    {
      match events[i] {
        case CanRead(data) =>
          if p.status == 0 {
            var r := Smaller(|data|, 256);
            p.Readable(data[..r] + seq(256 - r, _ => 0), r);
            assert (data[..r] + seq(256 - r, _ => 0))[..r] == data[..r];
            arrived := arrived + data[..r];
          }
        case CanWrite(w) =>
          if p.status == 1 {
            ok := p.Writable(if w < 0 then -1 else Smaller(w, p.len - p.pos));
          }
      }
      i := i + 1;
    }
    PumpMeans(p);
  }
}
