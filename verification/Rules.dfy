/** rules(): find the rule for a client in a compiled rule database. */
module Rules {
  import opened Bytes
  import opened Wrappers
  import opened CdbFormat
  import opened Cdb
  import opened RuleText
  import opened TcpRules

  /** The data of the first key, in order, that has a record. */
  ghost function FirstData(recs: seq<Record>, keys: seq<seq<byte>>): Option<seq<byte>> {
    if keys == [] then None
    else if DataOf(recs, keys[0]) != [] then Some(DataOf(recs, keys[0])[0])
    else FirstData(recs, keys[1..])
  }

  lemma {:induction false} FirstDataConcat(recs: seq<Record>, a: seq<seq<byte>>, b: seq<seq<byte>>)
    ensures FirstData(recs, a + b) == if FirstData(recs, a).Some? then FirstData(recs, a) else FirstData(recs, b)
  {
    if a == [] {
      assert a + b == b;
    } else {
      FirstDataConcat(recs, a[1..], b);
      assert (a + b)[1..] == a[1..] + b;
    }
  }

  /** Querying the compiled records is reading the text: the first candidate with
      a record is the first candidate with a line, and its data is that line's. */
  lemma {:induction false} CompiledPick(rs: seq<Rule>, keys: seq<seq<byte>>)
    ensures FirstData(RecordsOf(rs), keys) ==
            match Pick(rs, keys) case None => None case Some(ins) => Some(InstrData(ins))
  {
    if keys != [] {
      CompiledLookUp(rs, keys[0]);
      CompiledPick(rs, keys[1..]);
    }
  }

  /** The searches in rules.c, one after the other, try the candidates in order. */
  lemma Stages(recs: seq<Record>, ip: seq<byte>, host: Option<seq<byte>>, info: Option<seq<byte>>)
    ensures FirstData(recs, Candidates(ip, host, info)) ==
            Or(FirstData(recs, InfoKeys(ip, host, info)),
               Or(FirstData(recs, [ip]),
                  Or(FirstData(recs, HostKeys(host)),
                     Or(FirstData(recs, Prefixes(ip, |ip|)),
                        Or(FirstData(recs, SuffixKeys(host)), FirstData(recs, [[]]))))))
  {
    hide FirstData;
    var a, b, c, d, e, f := InfoKeys(ip, host, info), [ip], HostKeys(host), Prefixes(ip, |ip|), SuffixKeys(host), [[]];
    assert Candidates(ip, host, info) == a + b + c + d + e + f;
    FirstDataConcat(recs, a + b + c + d + e, f);
    FirstDataConcat(recs, a + b + c + d, e);
    FirstDataConcat(recs, a + b + c, d);
    FirstDataConcat(recs, a + b, c);
    FirstDataConcat(recs, a, b);
  }

  ghost function Or<T>(x: Option<T>, y: Option<T>): Option<T> { if x.Some? then x else y }

  /** rules.c's globals: the name being looked up and the open database. */
  class Query {
    var rulesName: seq<byte>
    const c: Reader

    constructor (file: seq<byte>)
      ensures c.map_ == file && fresh(c)
    {
      rulesName := [];
      c := new Reader(file);
    }

    /** r and data report o: 1 and the data, or 0. */
    ghost predicate Reports(recs: seq<Record>, lay: Layout, r: int, data: seq<byte>, o: Option<seq<byte>>) {
      -1 <= r <= 1 && (IsCdb(c.map_, recs, lay) ==> if o.Some? then r == 1 && data == o.value else r == 0)
    }

    /** dorule: the first record named rules_name. */
    method DoRule(ghost recs: seq<Record>, ghost lay: Layout) returns (r: int, data: seq<byte>)
      requires |rulesName| < TWO32 && |c.map_| < TWO32
      modifies c
      ensures Reports(recs, lay, r, data, FirstData(recs, [rulesName]))
    {
      hide IsCdb;
      hide DataOf;
      r := c.Find(rulesName, recs, lay);
      data := [];
      if r == 1 {
        var ok;
        ok, data := c.Read(c.dlen, c.dpos);
        if !ok {
          r := -1;
        }
      }
      assert [rulesName][1..] == [];
    }

    method DoInfo(ip: seq<byte>, host: Option<seq<byte>>, info: Option<seq<byte>>, ghost recs: seq<Record>,
                  ghost lay: Layout)
      returns (r: int, data: seq<byte>)
      requires |c.map_| < TWO32 && KeysShort(ip, host, info)
      modifies c, this`rulesName
      ensures Reports(recs, lay, r, data, FirstData(recs, InfoKeys(ip, host, info)))
    {
      hide IsCdb;
      hide DataOf;
      r, data := 0, [];
      if info.Some? {
        rulesName := info.value;
        rulesName := rulesName + [AT];
        rulesName := rulesName + ip;
        r, data := DoRule(recs, lay);
        if r != 0 {
          if host.Some? {
            FirstDataConcat(recs, [info.value + [AT] + ip], [info.value + [AT, EQUALS] + host.value]);
          }
          return;
        }
        if host.Some? {
          FirstDataConcat(recs, [info.value + [AT] + ip], [info.value + [AT, EQUALS] + host.value]);
          rulesName := info.value;
          rulesName := rulesName + [AT, EQUALS];
          rulesName := rulesName + host.value;
          r, data := DoRule(recs, lay);
        }
      }
    }

    method DoPrefixes(ip: seq<byte>, ghost recs: seq<Record>, ghost lay: Layout) returns (r: int, data: seq<byte>)
      requires |c.map_| < TWO32 && |ip| < TWO32
      modifies c, this`rulesName
      ensures Reports(recs, lay, r, data, FirstData(recs, Prefixes(ip, |ip|)))
    {
      hide IsCdb;
      hide DataOf;
      rulesName := ip;
      while |rulesName| > 0
        invariant rulesName <= ip
        invariant IsCdb(c.map_, recs, lay) ==>
                    FirstData(recs, Prefixes(ip, |ip|)) == FirstData(recs, Prefixes(ip, |rulesName|))
        decreases |rulesName|
      {
        if ip[|rulesName| - 1] == DOT {
          assert ip[..|rulesName|] == rulesName;
          FirstDataConcat(recs, [rulesName], Prefixes(ip, |rulesName| - 1));
          r, data := DoRule(recs, lay);
          if r != 0 {
            return;
          }
        }
        assert ip[|rulesName| - 1] != DOT ==> Prefixes(ip, |rulesName|) == Prefixes(ip, |rulesName| - 1);
        rulesName := rulesName[..|rulesName| - 1];
      }
      r, data := 0, [];
    }

    method DoSuffixes(host0: seq<byte>, ghost recs: seq<Record>, ghost lay: Layout) returns (r: int, data: seq<byte>)
      requires |c.map_| < TWO32 && |host0| < INT_MAX
      modifies c, this`rulesName
      ensures Reports(recs, lay, r, data, FirstData(recs, Suffixes(host0) + [[EQUALS]]))
    {
      hide IsCdb;
      hide DataOf;
      var host := host0;
      while host != []
        invariant |host| <= |host0|
        invariant IsCdb(c.map_, recs, lay) ==>
                    FirstData(recs, Suffixes(host0) + [[EQUALS]]) == FirstData(recs, Suffixes(host) + [[EQUALS]])
        decreases |host|
      {
        if host[0] == DOT {
          rulesName := [EQUALS];
          rulesName := rulesName + host;
          assert Suffixes(host) + [[EQUALS]] == [rulesName] + (Suffixes(host[1..]) + [[EQUALS]]);
          FirstDataConcat(recs, [rulesName], Suffixes(host[1..]) + [[EQUALS]]);
          r, data := DoRule(recs, lay);
          if r != 0 {
            return;
          }
        }
        assert host[0] != DOT ==> Suffixes(host) == Suffixes(host[1..]);
        host := host[1..];
      }
      assert Suffixes(host) + [[EQUALS]] == [[EQUALS]];
      rulesName := [EQUALS];
      r, data := DoRule(recs, lay);
    }

    ghost predicate KeysShort(ip: seq<byte>, host: Option<seq<byte>>, info: Option<seq<byte>>) {
      && |ip| < INT_MAX / 4
      && (host.Some? ==> |host.value| < INT_MAX / 4)
      && (info.Some? ==> |info.value| < INT_MAX / 4)
    }

    /** doit: all candidates in order of precedence. */
    method DoIt(ip: seq<byte>, host: Option<seq<byte>>, info: Option<seq<byte>>, ghost recs: seq<Record>, ghost lay: Layout)
      returns (r: int, data: seq<byte>)
      requires |c.map_| < TWO32 && KeysShort(ip, host, info)
      modifies c, this`rulesName
      ensures Reports(recs, lay, r, data, FirstData(recs, Candidates(ip, host, info)))
    {
      hide IsCdb;
      hide FirstData;
      Stages(recs, ip, host, info);
      r, data := DoInfo(ip, host, info, recs, lay);
      if r != 0 {
        return;
      }
      rulesName := ip;
      r, data := DoRule(recs, lay);
      if r != 0 {
        return;
      }
      NoKeys(recs);
      if host.Some? {
        rulesName := [EQUALS];
        rulesName := rulesName + host.value;
        r, data := DoRule(recs, lay);
        if r != 0 {
          return;
        }
      }
      r, data := DoPrefixes(ip, recs, lay);
      if r != 0 {
        return;
      }
      if host.Some? {
        r, data := DoSuffixes(host.value, recs, lay);
        if r != 0 {
          return;
        }
      }
      rulesName := [];
      r, data := DoRule(recs, lay);
    }
  }

  lemma NoKeys(recs: seq<Record>)
    ensures FirstData(recs, []) == None
  {
  }

  /** Compile a rule text with tcprules, then ask rules() about a client: the
      answer is the rule that reading the text directly gives. */
  method CompileAndQuery(text: seq<byte>, ip: seq<byte>, host: Option<seq<byte>>, info: Option<seq<byte>>)
    returns (ok: bool, r: int, data: seq<byte>)
    requires LinesShort(text) && |ip| < INT_MAX / 4
    requires (host.Some? ==> |host.value| < INT_MAX / 4) && (info.Some? ==> |info.value| < INT_MAX / 4)
    ensures ok <==> RulesOf(text).Some? && Compilable(RulesOf(text).value)
    ensures ok ==> match Pick(RulesOf(text).value, Candidates(ip, host, info))
                   case Some(instr) => r == 1 && data == InstrData(instr)
                   case None => r == 0
  {
    hide IsCdb;
    hide FirstData;
    hide Compilable;
    var compiler := new Compiler();
    var file;
    ghost var lay;
    ok, file, lay := compiler.Run(text);
    r, data := 0, [];
    if ok {
      ghost var rs := RulesOf(text).value;
      FileShort(file, RecordsOf(rs), lay);
      var query := new Query(file);
      r, data := query.DoIt(ip, host, info, RecordsOf(rs), lay);
      CompiledPick(rs, Candidates(ip, host, info));
    }
  }

  lemma FileShort(f: seq<byte>, recs: seq<Record>, lay: Layout)
    requires IsCdb(f, recs, lay)
    ensures |f| < TWO32
  {
  }
}
