/** What rule text means, independently of any database: which rule a client
    falls under when the text is read directly. */
module RuleText {
  import opened Bytes
  import opened Wrappers

  const NUL: byte := 0
  const TAB: byte := 9
  const NL: byte := 10
  const SPACE: byte := 32
  const HASH: byte := 35
  const PLUS: byte := 43
  const COMMA: byte := 44
  const DASH: byte := 45
  const DOT: byte := 46
  const ZERO: byte := 48
  const COLON: byte := 58
  const EQUALS: byte := 61
  const AT: byte := 64
  const DENY: seq<byte> := [100, 101, 110, 121]
  const ALLOW: seq<byte> := [97, 108, 108, 111, 119]
  const DENIED: seq<byte> := [68, 0]

  // ---- searching ------------------------------------------------------------

  /** byte_chr: the first position of c, or the length. */
  function ByteChr(s: seq<byte>, c: byte): (i: nat)
    ensures i <= |s| && (forall k | 0 <= k < i :: s[k] != c) && (i < |s| ==> s[i] == c)
  {
    if s == [] || s[0] == c then 0 else 1 + ByteChr(s[1..], c)
  }

  /** byte_rchr: the last position of c, or the length. */
  function ByteRchr(s: seq<byte>, c: byte): (i: nat)
    ensures i <= |s| && (i == |s| ==> c !in s)
    ensures i < |s| ==> s[i] == c && forall k | i < k < |s| :: s[k] != c
  {
    if s == [] then 0
    else if s[|s| - 1] == c then |s| - 1
    else
      var i := ByteRchr(s[..|s| - 1], c);
      if i == |s| - 1 then |s| else i
  }

  // ---- numbers --------------------------------------------------------------

  /** The canonical decimal of n. */
  function Dec(n: nat): (s: seq<byte>)
    ensures 1 <= |s|
  {
    if n < 10 then [ZERO + n] else Dec(n / 10) + [ZERO + n % 10]
  }

  predicate IsDigit(c: byte) { ZERO <= c < ZERO + 10 }

  function DigitCount(s: seq<byte>): (k: nat)
    ensures k <= |s| && (forall i | 0 <= i < k :: IsDigit(s[i])) && (k < |s| ==> !IsDigit(s[k]))
  {
    if s == [] || !IsDigit(s[0]) then 0 else 1 + DigitCount(s[1..])
  }

  lemma {:induction false} DigitCountIs(s: seq<byte>, k: nat)
    requires k <= |s| && (forall i | 0 <= i < k :: IsDigit(s[i])) && (k < |s| ==> !IsDigit(s[k]))
    ensures DigitCount(s) == k
  {
    if k > 0 {
      DigitCountIs(s[1..], k - 1);
    }
  }

  /** The number a string of digits denotes. */
  function Value(s: seq<byte>): nat
    requires forall i | 0 <= i < |s| :: IsDigit(s[i])
  {
    if s == [] then 0 else
    var last := s[|s| - 1];
    assert IsDigit(last);
    10 * Value(s[..|s| - 1]) + (last as int - ZERO as int)
  }

  /** getnum: the leading digits, taken modulo 2^32; they must fill the field or
      be followed by a NUL. An empty field counts as 0. */
  function GetNum(s: seq<byte>): Option<nat> {
    var k := DigitCount(s);
    if k == |s| || s[k] == NUL then Some(Value(s[..k]) % TWO32) else None
  }

  lemma {:induction false} ValueOfDec(n: nat)
    ensures forall i | 0 <= i < |Dec(n)| :: IsDigit(Dec(n)[i])
    ensures Value(Dec(n)) == n
  {
    if n >= 10 {
      ValueOfDec(n / 10);
      var s := Dec(n);
      assert s[..|s| - 1] == Dec(n / 10);
    }
  }

  /** Different numbers have different decimals, and reading a decimal gives the number. */
  lemma GetNumDec(n: uint32)
    ensures GetNum(Dec(n)) == Some(n)
  {
    ValueOfDec(n);
    assert Dec(n)[..|Dec(n)|] == Dec(n);
  }

  // ---- addresses ------------------------------------------------------------

  /** The addresses one line stands for. */
  datatype Form = Single(address: seq<byte>) | Range(prefix: seq<byte>, lo: nat, hi: nat, suffix: seq<byte>) | BadRange

  function FormOf(address: seq<byte>): Form {
    var i := ByteChr(address, DASH);
    if EQUALS in address || AT in address || i == |address| then Single(address) else RangeAt(address, i)
  }

  /** The range whose dash stands at position i. */
  function RangeAt(address: seq<byte>, i: nat): Form
    requires i < |address|
  {
    var left := var r := ByteRchr(address[..i], DOT); if r == i then 0 else r + 1;
    var right := i + 1 + ByteChr(address[i + 1..], DOT);
    RangeOf(address[..left], GetNum(address[left..i]), GetNum(address[i + 1..right]), address[right..])
  }

  function RangeOf(prefix: seq<byte>, lo: Option<uint32>, hi: Option<uint32>, suffix: seq<byte>): Form {
    if lo == None || hi == None then BadRange
    else Range(prefix, lo.value, if hi.value > 255 then 255 else hi.value, suffix)
  }

  predicate IsNumbered(key: seq<byte>, p: seq<byte>, n: nat, s: seq<byte>) { key == p + Dec(n) + s }

  ghost predicate Covers(f: Form, key: seq<byte>) {
    match f
    case Single(a) => key == a
    case Range(p, lo, hi, s) => exists n: nat | lo <= n <= hi :: IsNumbered(key, p, n, s)
    case BadRange => false
  }

  lemma ByteChrAt(x: seq<byte>, y: seq<byte>, c: byte)
    requires c !in x && (y == [] || y[0] == c)
    ensures ByteChr(x + y, c) == |x|
  {
    hide ByteChr;
    assert forall k | 0 <= k < |x| :: (x + y)[k] == x[k];
    assert y != [] ==> (x + y)[|x|] == y[0];
  }

  lemma ByteRchrAt(p: seq<byte>, x: seq<byte>, c: byte)
    requires c !in x && (p == [] || p[|p| - 1] == c)
    ensures ByteRchr(p + x, c) == if p == [] then |x| else |p| - 1
  {
    hide ByteRchr;
    assert forall k | |p| <= k < |p + x| :: (p + x)[k] == x[k - |p|];
    assert p != [] ==> (p + x)[|p| - 1] == p[|p| - 1];
  }

  lemma RangeSlices(p: seq<byte>, lo: seq<byte>, hi: seq<byte>, s: seq<byte>)
    ensures var a, i := p + lo + [DASH] + hi + s, |p + lo|;
            a[..i] == p + lo && a[..|p|] == p && a[|p|..i] == lo && a[i + 1..] == hi + s
            && a[i + 1..i + 1 + |hi|] == hi && a[i + 1 + |hi|..] == s && a == p + lo + ([DASH] + (hi + s))
  {
  }

  lemma RangeForm(a: seq<byte>, i: nat)
    requires EQUALS !in a && AT !in a && i < |a| && ByteChr(a, DASH) == i
    ensures FormOf(a) == RangeAt(a, i)
  {
  }

  lemma DashAt(p: seq<byte>, lo: seq<byte>, hi: seq<byte>, s: seq<byte>)
    requires DASH !in p + lo
    ensures ByteChr(p + lo + [DASH] + hi + s, DASH) == |p + lo|
  {
    ByteChrAt(p + lo, [DASH] + (hi + s), DASH);
    RangeSlices(p, lo, hi, s);
  }

  lemma NotInRange(p: seq<byte>, lo: seq<byte>, hi: seq<byte>, s: seq<byte>, c: byte)
    requires c !in p + lo + hi + s && c != DASH
    ensures c !in p + lo + [DASH] + hi + s
  {
  }

  lemma RangeAtDash(p: seq<byte>, lo: seq<byte>, hi: seq<byte>, s: seq<byte>)
    requires DOT !in lo && DOT !in hi && (p == [] || p[|p| - 1] == DOT) && (s == [] || s[0] == DOT)
    ensures RangeAt(p + lo + [DASH] + hi + s, |p + lo|) == RangeOf(p, GetNum(lo), GetNum(hi), s)
  {
    hide GetNum;
    hide ByteChr;
    hide ByteRchr;
    RangeSlices(p, lo, hi, s);
    ByteChrAt(hi, s, DOT);
    ByteRchrAt(p, lo, DOT);
  }

  /** The shape of a range: prefix.lo-hi.suffix, where the numbers contain no dot
      and no dash comes before the one between them. */
  lemma RangeShape(p: seq<byte>, lo: seq<byte>, hi: seq<byte>, s: seq<byte>)
    requires EQUALS !in p + lo + hi + s && AT !in p + lo + hi + s
    requires DASH !in p + lo && DOT !in lo && DOT !in hi
    requires p == [] || p[|p| - 1] == DOT
    requires s == [] || s[0] == DOT
    ensures FormOf(p + lo + [DASH] + hi + s) ==
            match (GetNum(lo), GetNum(hi))
            case (Some(a), Some(b)) => Range(p, a, if b > 255 then 255 else b, s)
            case _ => BadRange
  {
    hide GetNum;
    hide ByteChr;
    hide FormOf;
    hide RangeAt;
    NotInRange(p, lo, hi, s, EQUALS);
    NotInRange(p, lo, hi, s, AT);
    DashAt(p, lo, hi, s);
    RangeForm(p + lo + [DASH] + hi + s, |p + lo|);
    RangeAtDash(p, lo, hi, s);
  }

  // ---- instructions ---------------------------------------------------------

  /** One environment assignment of a rule: ,NAME=qVALUEq for any quote byte q. */
  datatype Var = Var(name: seq<byte>, quote: byte, value: seq<byte>)

  predicate VarOk(v: Var) { EQUALS !in v.name && v.quote !in v.value }

  predicate VarsOk(vs: seq<Var>) { forall i | 0 <= i < |vs| :: VarOk(vs[i]) }

  function RenderVar(v: Var): (s: seq<byte>)
    ensures |s| == |v.name| + |v.value| + 4
  {
    [COMMA] + v.name + [EQUALS, v.quote] + v.value + [v.quote]
  }

  function RenderVars(vs: seq<Var>): seq<byte> {
    if vs == [] then [] else RenderVar(vs[0]) + RenderVars(vs[1..])
  }

  /** What the database stores for one assignment. */
  function VarData(v: Var): seq<byte> { [PLUS] + v.name + [EQUALS] + v.value + [NUL] }

  function VarsData(vs: seq<Var>): seq<byte> {
    if vs == [] then [] else VarsData(vs[..|vs| - 1]) + VarData(vs[|vs| - 1])
  }

  /** The first assignment in x, and what is left, if x starts with one. */
  function SplitVar(x: seq<byte>): (r: Option<(Var, seq<byte>)>)
    ensures r.Some? ==> VarOk(r.value.0) && x == RenderVar(r.value.0) + r.value.1
  {
    var i := ByteChr(x, EQUALS);
    if x == [] || x[0] != COMMA || i == |x| || i + 1 == |x| then None
    else
      var rest := x[i + 2..];
      var n := ByteChr(rest, x[i + 1]);
      if n == |rest| then None else
      var v := Var(x[1..i], x[i + 1], rest[..n]);
      assert x == [x[0]] + x[1..i] + [x[i], x[i + 1]] + rest[..n] + [rest[n]] + rest[n + 1..];
      Some((v, rest[n + 1..]))
  }

  function ParseVars(x: seq<byte>): Option<seq<Var>>
    decreases |x|
  {
    if x == [] then Some([])
    else
      match SplitVar(x)
      case None => None
      case Some((v, rest)) =>
        match ParseVars(rest)
        case None => None
        case Some(vs) => Some([v] + vs)
  }

  lemma RenderParts(v: Var, rest: seq<byte>)
    ensures var x := RenderVar(v) + rest; var i := 1 + |v.name|;
            i + 1 < |x| && x[0] == COMMA && x[1..i] == v.name && x[i] == EQUALS && x[i + 1] == v.quote
            && x[i + 2..] == v.value + ([v.quote] + rest)
  {
    var head := [COMMA] + v.name + [EQUALS, v.quote];
    assert RenderVar(v) + rest == head + (v.value + ([v.quote] + rest));
    assert head[1..1 + |v.name|] == v.name;
  }

  lemma SplitRender(v: Var, rest: seq<byte>)
    requires VarOk(v)
    ensures SplitVar(RenderVar(v) + rest) == Some((v, rest))
  {
    hide ByteChr;
    hide RenderVar;
    RenderParts(v, rest);
    var x, i, tail := RenderVar(v) + rest, 1 + |v.name|, v.value + ([v.quote] + rest);
    forall k | 0 <= k < i ensures x[k] != EQUALS {
      if k > 0 {
        assert x[k] == x[1..i][k - 1];
      }
    }
    assert ByteChr(x, EQUALS) == i;
    assert tail[|v.value|] == v.quote && forall k | 0 <= k < |v.value| :: tail[k] == v.value[k] != v.quote;
    assert ByteChr(tail, v.quote) == |v.value|;
    assert tail[..|v.value|] == v.value && tail[|v.value| + 1..] == rest;
  }

  /** Parsing accepts exactly the renderings of well-formed assignments, each in
      one way only. */
  lemma {:induction false} ParseRender(vs: seq<Var>)
    requires VarsOk(vs)
    ensures ParseVars(RenderVars(vs)) == Some(vs)
  {
    hide SplitVar;
    hide RenderVar;
    hide ParseVars;
    if vs == [] {
      ParseNone();
    } else {
      var v, more := vs[0], vs[1..];
      SplitRender(v, RenderVars(more));
      ParseRender(more);
      ParseStep(RenderVars(vs), v, RenderVars(more), more);
      assert vs == [v] + more;
    }
  }

  lemma ParseNone()
    ensures ParseVars([]) == Some([])
  {
  }

  lemma ParseStep(x: seq<byte>, v: Var, rest: seq<byte>, vs: seq<Var>)
    requires x != [] && SplitVar(x) == Some((v, rest)) && ParseVars(rest) == Some(vs)
    ensures ParseVars(x) == Some([v] + vs)
  {
    hide SplitVar;
    hide RenderVar;
  }

  lemma {:induction false} ParseSound(x: seq<byte>)
    ensures ParseVars(x).Some? ==> VarsOk(ParseVars(x).value) && x == RenderVars(ParseVars(x).value)
    decreases |x|
  {
    hide RenderVar;
    if x != [] && SplitVar(x).Some? {
      var (v, rest) := SplitVar(x).value;
      ParseSound(rest);
      if ParseVars(rest).Some? {
        var vs := ParseVars(rest).value;
        assert ([v] + vs)[1..] == vs;
      }
    }
  }

  // ---- lines ----------------------------------------------------------------

  datatype Instr = Instr(deny: bool, vars: seq<Var>)

  function RenderInstr(ins: Instr): seq<byte> { (if ins.deny then DENY else ALLOW) + RenderVars(ins.vars) }

  function InstrData(ins: Instr): seq<byte> { (if ins.deny then DENIED else []) + VarsData(ins.vars) }

  function ParseInstr(x: seq<byte>): (r: Option<Instr>) {
    if DENY <= x then
      match ParseVars(x[4..]) case Some(vs) => Some(Instr(true, vs)) case None => None
    else if ALLOW <= x then
      match ParseVars(x[5..]) case Some(vs) => Some(Instr(false, vs)) case None => None
    else None
  }

  /** An instruction list is read in exactly the one way in which it was written. */
  lemma ParseInstrExact(x: seq<byte>, ins: Instr)
    ensures VarsOk(ins.vars) && x == RenderInstr(ins) <==> ParseInstr(x) == Some(ins)
  {
    if VarsOk(ins.vars) && x == RenderInstr(ins) {
      ParseRender(ins.vars);
      assert x[if ins.deny then 4 else 5..] == RenderVars(ins.vars);
      assert ins.deny ==> x[0] == 100;
      assert !ins.deny ==> x[0] == 97;
    }
    if DENY <= x {
      ParseSound(x[4..]);
      assert x == DENY + x[4..];
    } else if ALLOW <= x {
      ParseSound(x[5..]);
      assert x == ALLOW + x[5..];
    }
  }

  /** Trailing newlines, blanks and tabs do not count. */
  function Trim(x: seq<byte>): seq<byte> {
    if x != [] && x[|x| - 1] in {NL, SPACE, TAB} then Trim(x[..|x| - 1]) else x
  }

  datatype Rule = Rule(form: Form, instr: Instr)

  datatype Meaning = Comment | Malformed | Means(rule: Rule)

  function MeaningOf(line: seq<byte>): Meaning {
    if line == [] || line[0] == HASH || line[0] == NL then Comment
    else
      var x := Trim(line);
      var colon := ByteChr(x, COLON);
      if colon == |x| then Comment
      else
        match ParseInstr(x[colon + 1..])
        case None => Malformed
        case Some(ins) =>
          var form := FormOf(x[..colon]);
          if form == BadRange then Malformed else Means(Rule(form, ins))
  }

  /** The first line of a text, with its newline if it has one. */
  function FirstLine(text: seq<byte>): (l: seq<byte>)
    ensures l <= text && (text != [] ==> l != [])
  {
    var i := ByteChr(text, NL);
    if i < |text| then text[..i + 1] else text
  }

  /** The rules in a text, in order; None if some line is malformed. */
  function RulesOf(text: seq<byte>): Option<seq<Rule>>
    decreases |text|
  {
    if text == [] then Some([])
    else
      var line := FirstLine(text);
      match (MeaningOf(line), RulesOf(text[|line|..]))
      case (Malformed, _) => None
      case (_, None) => None
      case (Comment, Some(rs)) => Some(rs)
      case (Means(r), Some(rs)) => Some([r] + rs)
  }

  // ---- reading the text -----------------------------------------------------

  /** The earliest rule that covers a key. */
  ghost function LookUp(rs: seq<Rule>, key: seq<byte>): Option<Instr> {
    if rs == [] then None
    else if Covers(rs[0].form, key) then Some(rs[0].instr)
    else LookUp(rs[1..], key)
  }

  /** The address prefixes of ip that end in a dot, longest first. */
  function Prefixes(ip: seq<byte>, n: nat): seq<seq<byte>>
    requires n <= |ip|
  {
    if n == 0 then []
    else (if ip[n - 1] == DOT then [ip[..n]] else []) + Prefixes(ip, n - 1)
  }

  /** "=" and each suffix of host that starts with a dot, longest first. */
  function Suffixes(host: seq<byte>): seq<seq<byte>> {
    if host == [] then []
    else (if host[0] == DOT then [[EQUALS] + host] else []) + Suffixes(host[1..])
  }

  /** The keys that name the client's user. */
  function InfoKeys(ip: seq<byte>, host: Option<seq<byte>>, info: Option<seq<byte>>): seq<seq<byte>> {
    match info
    case None => []
    case Some(i) => [i + [AT] + ip] + match host case None => [] case Some(h) => [i + [AT, EQUALS] + h]
  }

  function HostKeys(host: Option<seq<byte>>): seq<seq<byte>> {
    match host case None => [] case Some(h) => [[EQUALS] + h]
  }

  function SuffixKeys(host: Option<seq<byte>>): seq<seq<byte>> {
    match host case None => [] case Some(h) => Suffixes(h) + [[EQUALS]]
  }

  /** The keys under which a client is looked up, in order of precedence. */
  function Candidates(ip: seq<byte>, host: Option<seq<byte>>, info: Option<seq<byte>>): seq<seq<byte>> {
    InfoKeys(ip, host, info) + [ip] + HostKeys(host) + Prefixes(ip, |ip|) + SuffixKeys(host) + [[]]
  }

  /** The rule for a client: that of the first candidate key for which a line exists. */
  ghost function Pick(rs: seq<Rule>, keys: seq<seq<byte>>): Option<Instr> {
    if keys == [] then None
    else if LookUp(rs, keys[0]).Some? then LookUp(rs, keys[0])
    else Pick(rs, keys[1..])
  }
}
