/** tcprules: compile rule text into a constant database. */
module TcpRules {
  import opened Bytes
  import opened Wrappers
  import opened CdbFormat
  import opened CdbMake
  import opened RuleText

  const FMT_ULONG: nat := 40

  // ---- numbers --------------------------------------------------------------

  function Pow10(d: nat): nat { if d == 0 then 1 else 10 * Pow10(d - 1) }

  lemma {:induction false} DecShort(n: nat, d: nat)
    requires d > 0 && n < Pow10(d)
    ensures |Dec(n)| <= d
  {
    if n >= 10 {
      assert d > 1;
      DecShort(n / 10, d - 1);
    }
  }

  lemma Uint32Short(n: uint32)
    ensures |Dec(n)| <= 10
  {
    assert Pow10(4) == 10000;
    assert Pow10(8) == 100000000;
    assert Pow10(10) == 10000000000;
    DecShort(n, 10);
  }

  lemma DecUnfold(n: nat)
    ensures Dec(n) == (if n < 10 then [] else Dec(n / 10)) + [ZERO + n % 10]
  {
  }

  /** fmt_ulong: write the decimal of u at the front of s, from its last digit backwards. */
  method FmtUlong(s: array<byte>, u0: uint32) returns (len: nat)
    requires s.Length >= FMT_ULONG
    modifies s
    ensures len <= s.Length && s[..len] == Dec(u0)
  {
    hide Dec;
    Uint32Short(u0);
    var u := u0;
    var q := u;
    len := 1;
    while q > 9
      invariant len + |Dec(q)| == |Dec(u0)| + 1
    {
      DecUnfold(q);
      len := len + 1;
      q := q / 10;
    }
    DecUnfold(q);
    PutDigits(s, u0, len);
  }

  /** The digits of u, put in front of the digits that follow them. */
  ghost function Before(u: nat, low: seq<byte>): seq<byte> {
    if u > 0 then Dec(u) + low else low
  }

  lemma BeforeStart(u: nat)
    ensures Dec(u) == Before(u / 10, [ZERO + u % 10])
  {
    DecUnfold(u);
  }

  lemma BeforeUnfold(u: nat, low: seq<byte>)
    requires u > 0
    ensures Before(u, low) == Before(u / 10, [ZERO + u % 10] + low)
    ensures |Before(u, low)| > |low|
  {
    DecUnfold(u);
  }

  lemma BeforeEnd(low: seq<byte>)
    ensures Before(0, low) == low
  {
  }

  /** One digit of u in front of the digits from position p on. */
  method PutDigit(s: array<byte>, u: uint32, p: nat, ghost len: nat)
    requires p < len <= s.Length
    modifies s
    ensures s[p..len] == [ZERO + u % 10] + old(s[p + 1..len])
  {
    s[p] := ZERO + u % 10;
  }

  /** The digits of u0, from position len - 1 down to 0. */
  method PutDigits(s: array<byte>, u0: uint32, len: nat)
    requires len == |Dec(u0)| <= s.Length
    modifies s
    ensures s[..len] == Dec(u0)
  {
    hide Dec;
    hide Before;
    BeforeStart(u0);
    var u := u0;
    var p := len - 1;
    PutDigit(s, u, p, len);
    assert s[p..len] == [ZERO + u % 10];
    u := u / 10;
    while u > 0
      invariant 0 <= p < len && Before(u, s[p..len]) == Dec(u0)
    {
      BeforeUnfold(u, s[p..len]);
      p := p - 1;
      PutDigit(s, u, p, len);
      u := u / 10;
    }
    BeforeEnd(s[p..len]);
  }

  lemma {:induction false} ValueStep(s: seq<byte>, k: nat)
    requires k < |s| && forall i | 0 <= i <= k :: IsDigit(s[i])
    ensures Value(s[..k + 1]) == 10 * Value(s[..k]) + (s[k] as int - ZERO as int)
  {
    assert s[..k + 1][..k] == s[..k];
  }

  lemma ValueEmpty(s: seq<byte>)
    ensures Value(s[..0]) == 0
  {
  }

  lemma TimesTen(v: nat, c: nat)
    ensures (v % TWO32 * 10 + c) % TWO32 == (10 * v + c) % TWO32
  {
    var q := v / TWO32;
    assert 10 * v + c == v % TWO32 * 10 + c + 10 * q * TWO32;
  }

  /** scan_ulong: the leading digits of s, as a number modulo 2^32. */
  method ScanUlong(s: seq<byte>) returns (pos: nat, u: uint32)
    requires s != [] && s[|s| - 1] == NUL
    ensures pos == DigitCount(s) < |s| && u == Value(s[..pos]) % TWO32
  {
    hide Value;
    hide DigitCount;
    pos, u := 0, 0;
    ValueEmpty(s);
    while IsDigit(s[pos])
      invariant pos < |s| && forall i | 0 <= i < pos :: IsDigit(s[i])
      invariant u == Value(s[..pos]) % TWO32
      decreases |s| - pos
    {
      ValueStep(s, pos);
      TimesTen(Value(s[..pos]), s[pos] as int - ZERO as int);
      u := (u * 10 + (s[pos] - ZERO)) % TWO32;
      pos := pos + 1;
    }
    DigitCountIs(s, pos);
  }

  /** getnum: None is die_bad. */
  method ReadNum(buf: seq<byte>) returns (r: Option<uint32>)
    ensures r == GetNum(buf)
  {
    var sanum := buf + [NUL];
    var pos, u := ScanUlong(sanum);
    assert pos <= |buf| && sanum[..pos] == buf[..pos];
    assert forall i | 0 <= i < |buf| :: sanum[i] == buf[i];
    DigitCountIs(buf, pos);
    r := if sanum[pos] != NUL then None else Some(u);
  }

  // ---- rules as records -----------------------------------------------------

  function ExpandRange(p: seq<byte>, lo: nat, hi: int, s: seq<byte>, data: seq<byte>): seq<Record>
    decreases hi - lo
  {
    if lo > hi then [] else ExpandRange(p, lo, hi - 1, s, data) + [Record(p + Dec(hi) + s, data)]
  }

  /** The records for one rule: one for each address it stands for. */
  function Expand(f: Form, data: seq<byte>): seq<Record> {
    match f
    case Single(a) => [Record(a, data)]
    case Range(p, lo, hi, s) => ExpandRange(p, lo, hi, s, data)
    case BadRange => []
  }

  function RecordsOf(rs: seq<Rule>): seq<Record> {
    if rs == [] then [] else
    RecordsOf(rs[..|rs| - 1]) + Expand(rs[|rs| - 1].form, InstrData(rs[|rs| - 1].instr))
  }

  lemma {:induction false} DataOfConcat(a: seq<Record>, b: seq<Record>, key: seq<byte>)
    ensures DataOf(a + b, key) == DataOf(a, key) + DataOf(b, key)
  {
    if b == [] {
      assert a + b == a;
    } else {
      var init := b[..|b| - 1];
      DataOfConcat(a, init, key);
      assert (a + b)[..|a + b| - 1] == a + init;
    }
  }

  lemma DataOfNone(key: seq<byte>)
    ensures DataOf([], key) == []
  {
  }

  lemma DataOfOne(r: Record, key: seq<byte>)
    ensures DataOf([r], key) == if r.key == key then [r.data] else []
  {
    assert [r][..0] == [];
  }

  /** The records of one rule answer a key exactly when the rule covers it, and always with its data. */
  lemma {:induction false} ExpandRangeData(p: seq<byte>, lo: nat, hi: int, s: seq<byte>, data: seq<byte>, key: seq<byte>)
    ensures forall i | 0 <= i < |DataOf(ExpandRange(p, lo, hi, s, data), key)| ::
              DataOf(ExpandRange(p, lo, hi, s, data), key)[i] == data
    ensures DataOf(ExpandRange(p, lo, hi, s, data), key) != [] <==>
            exists n: nat | lo <= n <= hi :: IsNumbered(key, p, n, s)
    decreases hi - lo
  {
    hide Dec;
    hide DataOf;
    DataOfNone(key);
    if lo <= hi {
      ExpandRangeData(p, lo, hi - 1, s, data, key);
      var last := Record(p + Dec(hi) + s, data);
      DataOfConcat(ExpandRange(p, lo, hi - 1, s, data), [last], key);
      DataOfOne(last, key);
      assert IsNumbered(key, p, hi, s) <==> key == p + Dec(hi) + s;
    }
  }

  lemma ExpandData(f: Form, data: seq<byte>, key: seq<byte>)
    ensures forall i | 0 <= i < |DataOf(Expand(f, data), key)| :: DataOf(Expand(f, data), key)[i] == data
    ensures DataOf(Expand(f, data), key) != [] <==> Covers(f, key)
  {
    match f
    case Single(a) => DataOfOne(Record(a, data), key);
    case Range(p, lo, hi, s) => ExpandRangeData(p, lo, hi, s, data, key);
    case BadRange =>
  }

  lemma {:induction false} LookUpLast(rs: seq<Rule>, r: Rule, key: seq<byte>)
    ensures LookUp(rs + [r], key) ==
            if LookUp(rs, key).Some? then LookUp(rs, key)
            else if Covers(r.form, key) then Some(r.instr) else None
  {
    if rs == [] {
      assert rs + [r] == [r] && [r][1..] == [];
    } else {
      LookUpLast(rs[1..], r, key);
      assert (rs + [r])[1..] == rs[1..] + [r];
    }
  }

  /** Looking a key up among the records is looking it up among the rules: the
      first record found holds the data of the earliest rule that covers the key. */
  lemma {:induction false} CompiledLookUp(rs: seq<Rule>, key: seq<byte>)
    ensures DataOf(RecordsOf(rs), key) == [] <==> LookUp(rs, key) == None
    ensures LookUp(rs, key).Some? ==> DataOf(RecordsOf(rs), key)[0] == InstrData(LookUp(rs, key).value)
  {
    hide Expand;
    hide InstrData;
    hide DataOf;
    hide Covers;
    DataOfNone(key);
    if rs != [] {
      var init, r := rs[..|rs| - 1], rs[|rs| - 1];
      CompiledLookUp(init, key);
      assert rs == init + [r];
      LookUpLast(init, r, key);
      DataOfConcat(RecordsOf(init), Expand(r.form, InstrData(r.instr)), key);
      ExpandData(r.form, InstrData(r.instr), key);
    }
  }

  // ---- sizes ----------------------------------------------------------------

  const INT_MAX: nat := 0x7FFF_FFFF

  lemma {:induction false} StreamConcat(a: seq<Record>, b: seq<Record>)
    ensures Stream(a + b) == Stream(a) + Stream(b)
  {
    hide RecordBytes;
    if b == [] {
      assert a + b == a;
    } else {
      var init, last := b[..|b| - 1], RecordBytes(b[|b| - 1]);
      StreamConcat(a, init);
      assert (a + b)[..|a + b| - 1] == a + init;
      assert Stream(a) + Stream(init) + last == Stream(a) + (Stream(init) + last);
    }
  }

  lemma StorablePrefix(a: seq<Record>, b: seq<Record>)
    requires a <= b && Storable(b)
    ensures Storable(a)
  {
    assert b == a + b[|a|..];
    StreamConcat(a, b[|a|..]);
  }

  lemma {:induction false} ExpandRangePrefix(p: seq<byte>, lo: nat, m: int, hi: int, s: seq<byte>, data: seq<byte>)
    requires m <= hi
    ensures ExpandRange(p, lo, m, s, data) <= ExpandRange(p, lo, hi, s, data)
    decreases hi - m
  {
    if m < hi {
      ExpandRangePrefix(p, lo, m, hi - 1, s, data);
    }
  }

  lemma {:induction false} RecordsOfPrefix(rs: seq<Rule>, more: seq<Rule>)
    ensures RecordsOf(rs) <= RecordsOf(rs + more)
  {
    if more == [] {
      assert rs + more == rs;
    } else {
      RecordsOfPrefix(rs, more[..|more| - 1]);
      assert (rs + more)[..|rs + more| - 1] == rs + more[..|more| - 1];
    }
  }

  // ---- the compiler ---------------------------------------------------------

  /** One environment assignment at the front of x, appended to data; None is
      die_bad. The rest of x is returned with it. */
  method ReadVar(x: seq<byte>, data0: seq<byte>) returns (r: Option<(seq<byte>, seq<byte>)>)
    requires x != []
    ensures r == match SplitVar(x) case None => None case Some((v, rest)) => Some((data0 + VarData(v), rest))
  {
    hide ByteChr;
    if x[0] != COMMA {
      return None;
    }
    var i := ByteChr(x, EQUALS);
    if i == |x| {
      return None;
    }
    var data := data0 + [PLUS];
    data := data + x[1..i + 1];
    var rest := x[i + 1..];
    if rest == [] {
      return None;
    }
    var ch := rest[0];
    rest := rest[1..];
    assert rest == x[i + 2..];
    var n := ByteChr(rest, ch);
    if n == |rest| {
      return None;
    }
    data := data + rest[..n];
    data := data + [NUL];
    assert x[1..i + 1] == x[1..i] + [EQUALS];
    assert data == data0 + VarData(Var(x[1..i], ch, rest[..n]));
    return Some((data, rest[n + 1..]));
  }

  ghost function Prepend(vs: seq<Var>, ws: Option<seq<Var>>): Option<seq<Var>> {
    match ws case None => None case Some(w) => Some(vs + w)
  }

  lemma PrependStep(vs: seq<Var>, v: Var, ws: Option<seq<Var>>)
    ensures Prepend(vs + [v], ws) == Prepend(vs, Prepend([v], ws))
    ensures Prepend([], ws) == ws
  {
    if ws.Some? {
      assert vs + [v] + ws.value == vs + ([v] + ws.value);
      assert [] + ws.value == ws.value;
    }
  }

  /** The instructions after the colon; None is die_bad. */
  method ReadInstr(x0: seq<byte>) returns (r: Option<seq<byte>>)
    ensures r == match ParseInstr(x0) case Some(ins) => Some(InstrData(ins)) case None => None
    ensures r.Some? ==> |r.value| <= |x0|
  {
    hide SplitVar;
    hide VarsData;
    var x, data := x0, [];
    ghost var deny := false;
    if DENY <= x {
      deny := true;
      data := data + DENIED;
      x := x[4..];
    } else if ALLOW <= x {
      x := x[5..];
    } else {
      return None;
    }
    ghost var tail: seq<byte>, vs: seq<Var> := x, [];
    ghost var flag := if deny then DENIED else [];
    PrependStep(vs, Var([], 0, []), ParseVars(x));
    VarsDataNext(flag, vs, Var([], 0, []));
    while x != []
      invariant ParseVars(tail) == Prepend(vs, ParseVars(x))
      invariant data == flag + VarsData(vs)
      invariant |data| + |x| <= |x0|
      decreases |x|
    {
      var next := ReadVar(x, data);
      if next == None {
        return None;
      }
      ghost var v := SplitVar(x).value.0;
      PrependStep(vs, v, ParseVars(next.value.1));
      VarsDataNext(flag, vs, v);
      vs := vs + [v];
      data, x := next.value.0, next.value.1;
    }
    assert vs + [] == vs;
    r := Some(data);
  }

  lemma VarsDataNext(flag: seq<byte>, vs: seq<Var>, v: Var)
    ensures flag + VarsData(vs + [v]) == flag + VarsData(vs) + VarData(v)
    ensures flag + VarsData([]) == flag
  {
    assert (vs + [v])[..|vs|] == vs;
  }

  /** The globals of tcprules.c. */
  class Compiler {
    var line: seq<byte>
    var moreLines: bool
    var address: seq<byte>
    var data: seq<byte>
    var key: seq<byte>
    const strnum: array<byte>
    const c: Maker

    ghost predicate Valid()
      reads this, c
    {
      c.Valid() && strnum.Length == FMT_ULONG && strnum != c.final
    }

    constructor ()
      ensures Valid() && c.recs == [] && moreLines
      ensures fresh(c) && fresh(strnum) && fresh(c.final) && fresh(c.count) && fresh(c.start) && fresh(c.split)
    {
      line, address, data, key, moreLines := [], [], [], [], true;
      strnum := new byte[FMT_ULONG](_ => 0);
      c := new Maker();
    }

    /** The addresses a line stands for; BadRange is die_bad. */
    method ReadAddress() returns (f: Form)
      ensures f == FormOf(address)
    {
      hide ByteChr;
      hide RangeAt;
      if ByteChr(address, EQUALS) == |address| && ByteChr(address, AT) == |address| {
        var i := ByteChr(address, DASH);
        if i < |address| {
          f := ReadRange(i);
          return;
        }
      }
      return Single(address);
    }

    /** The range whose dash stands at position dash. */
    method ReadRange(dash: nat) returns (f: Form)
      requires dash < |address|
      ensures f == RangeAt(address, dash)
    {
      hide GetNum;
      hide ByteChr;
      hide ByteRchr;
      var i := dash;
      var left := ByteRchr(address[..i], DOT);
      left := if left == i then 0 else left + 1;
      i := i + 1;
      var right := i + ByteChr(address[i..], DOT);
      var bot := ReadNum(address[left..i - 1]);
      if bot == None {
        return BadRange;
      }
      var top := ReadNum(address[i..right]);
      if top == None {
        return BadRange;
      }
      return Range(address[..left], bot.value, if top.value > 255 then 255 else top.value, address[right..]);
    }

    /** doaddressdata: one record for each address the line stands for. Fails on
        a malformed range, or when the records no longer fit the file. */
    method DoAddressData() returns (ok: bool)
      requires Valid() && |address| < INT_MAX && |data| <= INT_MAX
      modifies c, strnum, this`key
      ensures ok <==> FormOf(address) != BadRange && Storable(old(c.recs) + Expand(FormOf(address), data))
      ensures ok ==> Valid() && c.recs == old(c.recs) + Expand(FormOf(address), data)
    {
      hide Storable;
      var f := ReadAddress();
      RangeParts(address);
      match f
      case BadRange => return false;
      case Range(p, lo, hi, s) => ok := DoRange(p, lo, hi, s);
      case Single(a) => ok := c.Add(a, data);
    }

    /** Build the key for one number of a range and add its record. */
    method AddNumbered(prefix: seq<byte>, n: uint32, suffix: seq<byte>) returns (ok: bool)
      requires Valid() && |prefix| + |suffix| < INT_MAX && |data| <= INT_MAX
      modifies c, strnum, this`key
      ensures ok <==> Storable(old(c.recs) + [Record(prefix + Dec(n) + suffix, data)])
      ensures ok ==> Valid() && c.recs == old(c.recs) + [Record(prefix + Dec(n) + suffix, data)]
    {
      hide Storable;
      hide Dec;
      Uint32Short(n);
      key := prefix;
      var len := FmtUlong(strnum, n);
      key := key + strnum[..len];
      key := key + suffix;
      ok := c.Add(key, data);
    }

    /** The loop over a range. */
    method DoRange(prefix: seq<byte>, lo: uint32, hi: uint32, suffix: seq<byte>) returns (ok: bool)
      requires Valid() && |prefix| + |suffix| < INT_MAX && |data| <= INT_MAX && hi <= 255
      modifies c, strnum, this`key
      ensures ok <==> Storable(old(c.recs) + ExpandRange(prefix, lo, hi, suffix, data))
      ensures ok ==> Valid() && c.recs == old(c.recs) + ExpandRange(prefix, lo, hi, suffix, data)
    {
      hide Storable;
      hide Dec;
      hide ExpandRange;
      ghost var recs0 := c.recs;
      ExpandNext(recs0, prefix, lo, lo - 1, suffix, data);
      Storing(c);
      var bot := lo;
      while bot <= hi
        invariant lo <= bot <= (if lo <= hi then hi + 1 else lo)
        invariant Valid() && c.recs == recs0 + ExpandRange(prefix, lo, bot - 1, suffix, data) && Storable(c.recs)
        decreases hi - bot
      {
        ExpandNext(recs0, prefix, lo, bot, suffix, data);
        ok := AddNumbered(prefix, bot, suffix);
        if !ok {
          RangeOverflow(recs0, prefix, lo, bot, hi, suffix, data);
          return;
        }
        bot := bot + 1;
      }
      ExpandNext(recs0, prefix, lo, hi, suffix, data);
      return true;
    }

    /** Drop trailing newlines, blanks and tabs. */
    method TrimLine()
      modifies this`line
      ensures line == Trim(old(line)) && |line| <= |old(line)|
    {
      while line != [] && line[|line| - 1] in {NL, SPACE, TAB}
        invariant Trim(line) == Trim(old(line)) && |line| <= |old(line)|
        decreases |line|
      {
        line := line[..|line| - 1];
      }
    }

    /** Handle the current line. 0: nothing to do; 1: its records were added;
        -1: die_bad or die_write. */
    method DoLine() returns (r: int)
      requires Valid() && |line| < INT_MAX
      modifies c, strnum, this`key, this`line, this`address, this`data
      ensures match MeaningOf(old(line))
              case Comment => r == 0 && Valid() && c.recs == old(c.recs)
              case Malformed => r == -1
              case Means(rule) =>
                r == (if Storable(old(c.recs) + Expand(rule.form, InstrData(rule.instr))) then 1 else -1)
                && (r == 1 ==> Valid() && c.recs == old(c.recs) + Expand(rule.form, InstrData(rule.instr)))
    {
      hide Storable;
      hide FormOf;
      hide ParseInstr;
      hide Expand;
      hide InstrData;
      if line == [] || line[0] == HASH || line[0] == NL {
        return 0;
      }
      TrimLine();
      var colon := ByteChr(line, COLON);
      if colon == |line| {
        return 0;
      }
      address := line[..colon];
      var instr := ReadInstr(line[colon + 1..]);
      if instr == None {
        return -1;
      }
      data := instr.value;
      var ok := DoAddressData();
      return if ok then 1 else -1;
    }

    /** main: the whole compilation. It succeeds exactly when every line parses and
        the records fit a database, and then the file is a database of the
        records the rules stand for. */
    method Run(text: seq<byte>) returns (ok: bool, file: seq<byte>, ghost lay: Layout)
      requires Valid() && c.recs == [] && moreLines && LinesShort(text)
      modifies this, c, strnum, c.final, c.count, c.start
      ensures ok <==> RulesOf(text).Some? && Compilable(RulesOf(text).value)
      ensures ok ==> IsCdb(file, RecordsOf(RulesOf(text).value), lay)
    {
      hide MeaningOf;
      hide Compilable;
      hide IsCdb;
      hide Storable;
      hide RecordsOf;
      hide RulesOf;
      hide LinesShort;
      var rest := text;
      ghost var done: seq<Rule> := [];
      file, lay := [], Layout([], [], [], []);
      NoRules(RulesOf(text));
      while moreLines
        invariant Valid() && LinesShort(rest) && (!moreLines ==> rest == [])
        invariant RulesOf(text) == After(done, RulesOf(rest)) && c.recs == RecordsOf(done)
        decreases |rest|, moreLines
      {
        LineStep(done, rest);
        line := FirstLine(rest);
        rest := rest[|line|..];
        moreLines := line != [] && line[|line| - 1] == NL;
        if line == [] {
          break;
        }
        ghost var meaning := MeaningOf(line);
        var r := DoLine();
        if r == -1 {
          return false, [], lay;
        }
        if r == 1 {
          done := done + [meaning.rule];
        }
      }
      NoRules(RulesOf(text));
      assert done + [] == done;
      CompilableIs(done);
      Storing(c);
      ok, file, lay := c.Finish();
    }
  }

  ghost predicate LinesShort(text: seq<byte>)
    decreases |text|
  {
    text == [] || (|FirstLine(text)| < INT_MAX && LinesShort(text[|FirstLine(text)|..]))
  }

  /** The records of the rules fit a database file. */
  ghost predicate Compilable(rs: seq<Rule>) {
    Storable(RecordsOf(rs)) && Finishable(RecordsOf(rs))
  }

  ghost function After(done: seq<Rule>, rs: Option<seq<Rule>>): Option<seq<Rule>> {
    match rs case None => None case Some(r) => Some(done + r)
  }

  lemma NoRules(rs: Option<seq<Rule>>)
    ensures After([], rs) == rs && RecordsOf([]) == [] && RulesOf([]) == Some([])
  {
    if rs.Some? {
      assert [] + rs.value == rs.value;
    }
  }

  lemma CompilableIs(rs: seq<Rule>)
    ensures Compilable(rs) <==> Storable(RecordsOf(rs)) && Finishable(RecordsOf(rs))
  {
  }

  /** What the first line contributes to the rules and to the records. */
  lemma LineStep(done: seq<Rule>, text: seq<byte>)
    ensures text != [] ==>
              var rest := RulesOf(text[|FirstLine(text)|..]);
              After(done, RulesOf(text)) ==
              match MeaningOf(FirstLine(text))
              case Comment => After(done, rest)
              case Malformed => None
              case Means(r) => After(done + [r], rest)
    ensures LinesShort(text) && text != [] ==> |FirstLine(text)| < INT_MAX && LinesShort(text[|FirstLine(text)|..])
    ensures MeaningOf(FirstLine(text)).Means? ==>
              var r := MeaningOf(FirstLine(text)).rule;
              RecordsOf(done + [r]) == RecordsOf(done) + Expand(r.form, InstrData(r.instr))
              && forall rest :: !Storable(RecordsOf(done + [r])) && After(done + [r], rest).Some? ==>
                   !Compilable(After(done + [r], rest).value)
  {
    hide MeaningOf;
    hide RecordsOf;
    hide Storable;
    hide Compilable;
    if MeaningOf(FirstLine(text)).Means? {
      var r := MeaningOf(FirstLine(text)).rule;
      RuleRecords(done, r);
      var rest := RulesOf(text[|FirstLine(text)|..]);
      if rest.Some? {
        assert done + ([r] + rest.value) == done + [r] + rest.value;
      }
    }
  }

  lemma RuleRecords(done: seq<Rule>, r: Rule)
    ensures RecordsOf(done + [r]) == RecordsOf(done) + Expand(r.form, InstrData(r.instr))
    ensures forall rest :: !Storable(RecordsOf(done + [r])) && After(done + [r], rest).Some? ==>
                             !Compilable(After(done + [r], rest).value)
  {
    assert (done + [r])[..|done|] == done;
    forall more: Option<seq<Rule>> | !Storable(RecordsOf(done + [r])) && more.Some?
      ensures !Compilable(After(done + [r], more).value)
    {
      RecordsOfPrefix(done + [r], more.value);
      if Storable(RecordsOf(done + [r] + more.value)) {
        StorablePrefix(RecordsOf(done + [r]), RecordsOf(done + [r] + more.value));
      }
    }
  }

  lemma ExpandNext(recs: seq<Record>, p: seq<byte>, lo: nat, hi: int, s: seq<byte>, data: seq<byte>)
    ensures lo > hi ==> forall h {:trigger ExpandRange(p, lo, h, s, data)} | h < lo ::
                          recs + ExpandRange(p, lo, h, s, data) == recs
    ensures lo <= hi ==> recs + ExpandRange(p, lo, hi, s, data) ==
                         recs + ExpandRange(p, lo, hi - 1, s, data) + [Record(p + Dec(hi) + s, data)]
  {
  }

  lemma RangeOverflow(recs: seq<Record>, p: seq<byte>, lo: nat, m: int, hi: int, s: seq<byte>, data: seq<byte>)
    requires m <= hi && !Storable(recs + ExpandRange(p, lo, m, s, data))
    ensures !Storable(recs + ExpandRange(p, lo, hi, s, data))
  {
    ExpandRangePrefix(p, lo, m, hi, s, data);
    if Storable(recs + ExpandRange(p, lo, hi, s, data)) {
      StorablePrefix(recs + ExpandRange(p, lo, m, s, data), recs + ExpandRange(p, lo, hi, s, data));
    }
  }

  lemma Storing(c: Maker)
    requires c.Valid()
    ensures Storable(c.recs)
  {
  }

  lemma RangeParts(a: seq<byte>)
    ensures FormOf(a).Range? ==>
              |FormOf(a).prefix| + |FormOf(a).suffix| < |a| && FormOf(a).lo < TWO32 && FormOf(a).hi <= 255
  {
  }
}
