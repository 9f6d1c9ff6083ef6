/** Article numbers of a noffle group: the overview list in memory, its file, and
    the last number recorded for the group. */
module Content {
  import opened Wrappers

  /** An overview line: article number, the article it stands for, and whether it is
      the "general info" pseudo article. */
  datatype Over = Over(numb: int, article: nat, general: bool)

  /** How a write of the overview file goes: whether the file opens, and how many lines it takes. */
  datatype Disk = Disk(opens: bool, lines: nat)

  /** One number given to an article that reached the overview file. */
  datatype Entry = Entry(numb: int, article: nat)

  ghost predicate Ascending(f: seq<Over>) {
    && (forall i | 0 <= i < |f| :: f[i].numb >= 1)
    && (forall i, j | 0 <= i < j < |f| :: f[i].numb < f[j].numb)
  }

  /** The highest number ever given to a stored article. */
  ghost function High(log: seq<Entry>): int { if log == [] then 0 else log[|log| - 1].numb }

  /** Numbers were given out in strictly increasing order: none was given twice. */
  ghost predicate Increasing(log: seq<Entry>) {
    && (forall i | 0 <= i < |log| :: 1 <= log[i].numb <= High(log))
    && (forall i, j | 0 <= i < j < |log| :: log[i].numb < log[j].numb)
  }

  /** An overview that is old enough to be in the log is there with its article. */
  ghost predicate Known(log: seq<Entry>, o: Over) {
    o.numb <= High(log) ==> Entry(o.numb, o.article) in log
  }

  /** The lines Cont_write keeps from position i on: every overview, except a general
      info that is not directly followed by another overview. */
  function Kept(elem: seq<Option<Over>>, i: nat): seq<Over>
    requires i <= |elem|
    decreases |elem| - i
  {
    if i == |elem| then []
    else
      (if elem[i].Some? && (!elem[i].value.general || (i + 1 < |elem| && elem[i + 1].Some?))
       then [elem[i].value] else [])
      + Kept(elem, i + 1)
  }

  /** One more entry in the log, unless it is there. */
  ghost function With(l: seq<Entry>, e: Entry): seq<Entry> { if e in l then l else l + [e] }

  /** The log after the lines of f have been written: every number that stands for an article
      there, unless it has stood for that article before. */
  ghost function Logged(log: seq<Entry>, f: seq<Over>): seq<Entry> {
    if f == [] then log
    else With(Logged(log, f[..|f| - 1]), Entry(f[|f| - 1].numb, f[|f| - 1].article))
  }

  lemma WithKeeps(l: seq<Entry>, e: Entry)
    requires Increasing(l) && 1 <= e.numb && (e.numb > High(l) || e in l)
    ensures Increasing(With(l, e)) && l <= With(l, e) && e in With(l, e)
    ensures High(With(l, e)) == if e.numb > High(l) then e.numb else High(l)
    ensures forall x | x in l :: x in With(l, e)
  {
    assert e !in l ==> With(l, e)[|l|] == e;
  }

  lemma LoggedStep(log: seq<Entry>, f: seq<Over>)
    requires f != []
    ensures Logged(log, f) == With(Logged(log, f[..|f| - 1]), Entry(f[|f| - 1].numb, f[|f| - 1].article))
  {
  }

  /** The last line is either newer than everything logged or known. */
  lemma LastLogged(log: seq<Entry>, f: seq<Over>, l: seq<Entry>)
    requires f != [] && Ascending(f) && Known(log, f[|f| - 1]) && log <= l
    requires var init := f[..|f| - 1];
             High(l) == if init != [] && init[|init| - 1].numb > High(log) then init[|init| - 1].numb else High(log)
    ensures var o := f[|f| - 1]; 1 <= o.numb && (o.numb > High(l) || Entry(o.numb, o.article) in l)
  {
  }

  lemma {:induction false} LoggedKeeps(log: seq<Entry>, f: seq<Over>)
    requires Increasing(log) && Ascending(f) && forall i | 0 <= i < |f| :: Known(log, f[i])
    ensures Increasing(Logged(log, f)) && log <= Logged(log, f)
    ensures forall i | 0 <= i < |f| :: Entry(f[i].numb, f[i].article) in Logged(log, f)
    ensures High(Logged(log, f)) == if f != [] && f[|f| - 1].numb > High(log) then f[|f| - 1].numb else High(log)
  {
    hide Known;
    hide Increasing;
    hide With;
    if f != [] {
      var init, o := f[..|f| - 1], f[|f| - 1];
      forall i | 0 <= i < |init| ensures Known(log, init[i]) { assert init[i] == f[i]; }
      LoggedKeeps(log, init);
      hide Logged;
      LastLogged(log, f, Logged(log, init));
      LoggedStep(log, f);
      WithKeeps(Logged(log, init), Entry(o.numb, o.article));
      forall i | 0 <= i < |init| ensures Entry(f[i].numb, f[i].article) in Logged(log, f) {
        assert Entry(init[i].numb, init[i].article) in Logged(log, init);
      }
    }
  }

  /** The first k lines stand in the list at their numbers, and nothing else does. */
  ghost predicate Placed(elem: seq<Option<Over>>, vecFirst: int, lines: seq<Over>, k: nat)
    requires k <= |lines|
  {
    && (forall i | 0 <= i < |elem| && elem[i].Some? :: elem[i].value.numb == vecFirst + i && elem[i].value in lines)
    && (forall j | 0 <= j < k ::
          vecFirst <= lines[j].numb < vecFirst + |elem| && elem[lines[j].numb - vecFirst] == Some(lines[j]))
  }

  lemma PlacedNone(lines: seq<Over>)
    ensures forall v :: Placed([], v, lines, 0)
  {
  }

  lemma PlacedNext(elem: seq<Option<Over>>, vecFirst: int, lines: seq<Over>, k: nat, n: nat)
    requires k < |lines| && Ascending(lines) && Placed(elem, vecFirst, lines, k)
    requires n > 0 && lines[k].numb == vecFirst + |elem| + n - 1
    ensures Placed((elem + seq(n, _ => None))[|elem| + n - 1 := Some(lines[k])], vecFirst, lines, k + 1)
  {
  }

  /** noffle's state for one group: the global cont, its overview file, and the entry
      of the group database. The ghost log lists every number given to an article
      that was ever written to the overview file. */
  class Group {
    var file: Option<seq<Over>>
    var grpFirst: int
    var grpLast: int
    var vecFirst: int
    var first: int
    var last: int
    var elem: seq<Option<Over>>
    ghost var log: seq<Entry>

    /** Between sessions. */
    ghost predicate DiskOk()
      reads this
    {
      && 0 <= grpLast && Increasing(log) && High(log) <= grpLast
      && (file.Some? ==> FileOk(file.value, log))
    }

    ghost predicate FileOk(f: seq<Over>, l: seq<Entry>) {
      Ascending(f) && forall i | 0 <= i < |f| :: Entry(f[i].numb, f[i].article) in l
    }

    /** The overview list: position i holds number vecFirst + i or nothing, and a new
        general info is directly followed by whatever comes after it. */
    ghost predicate ContOk()
      reads this
    {
      && vecFirst >= 1 && last == vecFirst + |elem| - 1 && vecFirst <= first
      && (forall i | 0 <= i < |elem| && elem[i].Some? ::
            elem[i].value.numb == vecFirst + i && Known(log, elem[i].value))
      && (forall i, k | 0 <= i < k < |elem| && k == i + 1 && elem[i].Some? && elem[i].value.general
                        && elem[i].value.numb > High(log) :: elem[k].Some?)
    }

    /** Within a session. */
    ghost predicate SessionOk()
      reads this
    {
      && ContOk() && Increasing(log) && 0 <= grpLast <= last && High(log) <= last
      && (file.Some? ==> FileOk(file.value, log))
    }

    /** Grp_create: a new group has no articles. */
    constructor ()
      ensures DiskOk() && log == []
    {
      file, grpFirst, grpLast, log := None, 1, 0, [];
      vecFirst, first, last, elem := 1, 1, 0, [];
    }

    // ---- operations on the list ---------------------------------------------

    /** Cont_app: the next number goes to ov. */
    method App(ov: Over)
      requires SessionOk()
      modifies this`elem, this`last
      ensures SessionOk() && last == old(last) + 1
      ensures elem == old(elem) + [Some(ov.(numb := last))]
    {
      elem := elem + [Some(ov.(numb := vecFirst + |elem|))];
      last := vecFirst + |elem| - 1;
    }

    /** Only overviews that came from the file are in the list. */
    ghost predicate OldOnly()
      reads this
    {
      forall i | 0 <= i < |elem| && elem[i].Some? :: elem[i].value.numb <= High(log)
    }

    predicate ValidNumb(n: int)
      requires vecFirst <= first && last == vecFirst + |elem| - 1
      reads this
    {
      n != 0 && n >= first && n <= last && elem[n - vecFirst].Some?
    }

    /** Cont_delete. */
    method Delete(n: int)
      requires SessionOk() && OldOnly()
      modifies this`elem
      ensures SessionOk() && OldOnly()
      ensures elem == if old(ValidNumb(n)) then old(elem)[n - vecFirst := None] else old(elem)
    {
      if !ValidNumb(n) {
        return;
      }
      elem := elem[n - vecFirst := None];
    }

    /** extendCont. */
    method Extend(cnt: int)
      requires vecFirst >= 1
      modifies this`elem, this`last
      ensures elem == old(elem) + seq(if cnt > |old(elem)| then cnt - |old(elem)| else 0, _ => None)
      ensures last == if |elem| > |old(elem)| then vecFirst + |elem| - 1 else old(last)
    {
      var n := cnt - |elem|;
      var i := 0;
      while i < n
        invariant 0 <= i && (n >= 0 ==> i <= n) && (n < 0 ==> i == 0)
        invariant elem == old(elem) + seq(i, _ => None)
        invariant last == if i > 0 then vecFirst + |elem| - 1 else old(last)
      {
        elem := elem + [None];
        last := vecFirst + |elem| - 1;
        i := i + 1;
      }
    }

    /** setupEmpty. */
    method SetupEmpty()
      modifies this`last, this`first, this`vecFirst
      ensures last == grpLast && first == vecFirst == last + 1
    {
      last := grpLast;
      first := last + 1;
      vecFirst := last + 1;
    }

    /** Cont_read: the overviews of the file at their numbers, with the list reaching
        up to the last number ever given out. */
    method Read()
      requires DiskOk()
      modifies this`vecFirst, this`first, this`last, this`elem
      ensures SessionOk() && OldOnly() && last == grpLast && first == vecFirst
      ensures forall o :: Some(o) in elem <==> file.Some? && o in file.value
    {
      hide Known;
      hide Increasing;
      vecFirst, first, last := 0, 0, 0;
      elem := [];
      if file == None {
        SetupEmpty();
        return;
      }
      var lines := file.value;
      var k := 0;
      while k < |lines|
        invariant 0 <= k <= |lines| && Loaded(lines, k)
      {
        LoadLine(lines, k);
        k := k + 1;
      }
      CatchUp(lines);
    }

    /** The end of Cont_read: numbers up to the group's last count as used. */
    method CatchUp(lines: seq<Over>)
      requires DiskOk() && file == Some(lines) && Loaded(lines, |lines|)
      modifies this`vecFirst, this`first, this`last, this`elem
      ensures SessionOk() && OldOnly() && last == grpLast && first == vecFirst
      ensures forall o :: Some(o) in elem <==> o in lines
    {
      hide Known;
      hide Increasing;
      hide Loaded;
      hide Ascending;
      LinesKnown(lines, log);
      AllLoaded(this, lines);
      if first == 0 {
        SetupEmpty();
        return;
      }
      assert grpLast >= last;
      if last < grpLast {
        NoNewOvers(elem, grpLast - last);
        Extend(grpLast - first + 1);
        assert last == grpLast;
      }
      assert vecFirst >= 1 && last == vecFirst + |elem| - 1;
    }

    /** The first k lines of the file have been loaded. */
    ghost predicate Loaded(lines: seq<Over>, k: nat)
      requires k <= |lines|
      reads this
    {
      && (k == 0 ==> first == vecFirst == last == 0 && elem == [])
      && (k > 0 ==> first == vecFirst == lines[0].numb && last == lines[k - 1].numb == vecFirst + |elem| - 1)
      && Placed(elem, vecFirst, lines, k)
    }

    /** One overview line; a number below the first would be skipped. */
    method LoadLine(lines: seq<Over>, k: nat)
      requires k < |lines| && Ascending(lines) && Loaded(lines, k)
      modifies this`vecFirst, this`first, this`last, this`elem
      ensures Loaded(lines, k + 1)
    {
      hide Placed;
      PlacedNone(lines);
      hide Known;
      hide Increasing;
      hide Kept;
      var ov := lines[k];
      var numb := ov.numb;
      if numb < first {
        return;
      }
      if first == 0 {
        first := numb;
        vecFirst := numb;
      }
      PlacedNext(elem, vecFirst, lines, k, numb - first + 1 - |elem|);
      last := numb;
      Extend(numb - first + 1);
      elem := elem[numb - first := Some(ov)];
    }

    /** The loop of Cont_write: lines that were written, and the number of the first. */
    method WriteLines(room: nat) returns (lines: seq<Over>, f: int)
      requires ContOk()
      ensures lines <= Kept(elem, 0) && (lines != [] ==> f == lines[0].numb)
      ensures |lines| == if room < |Kept(elem, 0)| then room else |Kept(elem, 0)|
    {
      KeptNone(elem);
      hide Kept;
      hide Known;
      lines, f := [], -1;
      var i := 0;
      assert [] + Kept(elem, 0) == Kept(elem, 0);
      while i < |elem|
        invariant 0 <= i <= |elem| && lines + Kept(elem, i) == Kept(elem, 0)
        invariant |lines| <= room
        invariant if lines == [] then f < 0 else f == lines[0].numb >= 0
      {
        KeptStep(elem, i, lines);
        if elem[i].Some? && (!elem[i].value.general || (i + 1 < |elem| && elem[i + 1].Some?
                                                        && elem[i + 1].value.numb - elem[i].value.numb == 1)) {
          if |lines| == room {
            break;
          }
          lines := lines + [elem[i].value];
          if f < 0 {
            f := vecFirst + i;
          }
        }
        i := i + 1;
      }
    }

    /** Cont_write: write the kept overviews. Opening the file or writing a line may
        fail; written is the number of lines that made it, -1 if there was no file. */
    method Write(disk: Disk) returns (ghost written: int)
      requires SessionOk()
      modifies this`file, this`first, this`log
      ensures SessionOk() && -1 <= written <= |Kept(elem, 0)| && old(log) <= log
      ensures written == if !disk.opens then -1 else if disk.lines < |Kept(elem, 0)| then disk.lines else |Kept(elem, 0)|
      ensures written == -1 ==> file == old(file) && log == old(log)
      ensures written == 0 ==> file == None && first == last + 1
      ensures written > 0 ==> file == Some(Kept(elem, 0)[..written]) && first == file.value[0].numb
      ensures written >= 0 ==> log == Logged(old(log), Kept(elem, 0)[..written])
    {
      hide Known;
      hide Increasing;
      hide Logged;
      hide Ascending;
      hide Kept;
      if !disk.opens {
        return -1;
      }
      var lines, f := WriteLines(disk.lines);
      written := |lines|;
      LinesLogged(this, lines);
      forall i | 0 <= i < |elem| && elem[i].Some? ensures Known(Logged(log, lines), elem[i].value) {
        NothingSkipped(this, lines, i);
      }
      assert lines == Kept(elem, 0)[..written];
      log := Logged(log, lines);
      if lines == [] {
        file := None;
        first := last + 1;
      } else {
        file := Some(lines);
        first := f;
      }
    }

    // ---- sessions -----------------------------------------------------------

    /** Grp_setFirstLast( Cont_grp(), Cont_first(), Cont_last() ). */
    method SetFirstLast()
      requires SessionOk()
      modifies this`grpFirst, this`grpLast
      ensures SessionOk() && DiskOk() && grpFirst == first && grpLast == last
    {
      grpFirst := first;
      grpLast := last;
    }

    /** The overviews in the file. */
    ghost function Stored(): seq<Over>
      reads this`file
    {
      if file.Some? then file.value else []
    }

    /** Every overview in the list could be written. */
    ghost predicate Fits(disk: Disk)
      reads this`elem
    {
      disk.opens && disk.lines >= |Kept(elem, 0)|
    }

    /** Cont_write with nothing said about the log. */
    method Save(disk: Disk)
      requires SessionOk()
      modifies this`file, this`first, this`log
      ensures SessionOk() && old(log) <= log && (!disk.opens ==> log == old(log) && file == old(file))
      ensures disk.opens ==> exists n: nat :: n <= |Kept(elem, 0)| && log == Logged(old(log), Kept(elem, 0)[..n])
      ensures Fits(disk) ==> forall o: Over | !o.general :: o in Stored() <==> Some(o) in elem
    {
      hide Known;
      hide Increasing;
      hide Logged;
      KeptExactly(elem, vecFirst);
      hide Kept;
      ghost var written := Write(disk);
      assert Kept(elem, 0)[..|Kept(elem, 0)|] == Kept(elem, 0);
    }

    /** The end of a session: the overviews are written, and the group gets the new numbers. */
    method Finish(disk: Disk)
      requires SessionOk()
      modifies this`file, this`first, this`log, this`grpFirst, this`grpLast
      ensures SessionOk() && DiskOk() && old(log) <= log && (!disk.opens ==> log == old(log) && file == old(file))
      ensures disk.opens ==> exists n: nat :: n <= |Kept(elem, 0)| && log == Logged(old(log), Kept(elem, 0)[..n])
      ensures Fits(disk) ==> forall o: Over | !o.general :: o in Stored() <==> Some(o) in elem
      ensures grpFirst == first && grpLast == last
    {
      hide Known;
      hide Increasing;
      hide Logged;
      hide Kept;
      hide Fits;
      Save(disk);
      SetFirstLast();
    }

    /** genPseudo: store a pseudo article in the group. */
    method GenPseudo(article: nat, disk: Disk)
      requires SessionOk()
      modifies this
      ensures SessionOk() && DiskOk() && old(log) <= log && grpLast == last == old(last) + 1
      ensures elem == old(elem) + [Some(Over(last, article, false))] && vecFirst == old(vecFirst)
    {
      hide Known;
      hide Increasing;
      App(Over(0, article, false));
      Finish(disk);
    }

    /** Post_add: when the database accepts the article, it gets the next number, and that
        is the only number given out. */
    method Post(article: nat, accepted: bool, disk: Disk)
      requires DiskOk()
      modifies this
      ensures DiskOk() && grpLast == if accepted then old(grpLast) + 1 else old(grpLast)
      ensures log == old(log) || (accepted && log == old(log) + [Entry(old(grpLast) + 1, article)])
      ensures accepted && Fits(disk) ==> forall o: Over | !o.general ::
                o in Stored() <==> o in old(Stored()) || o == Over(old(grpLast) + 1, article, false)
      ensures !accepted || !disk.opens ==> file == old(file) && log == old(log)
    {
      hide Known;
      hide Increasing;
      hide Kept;
      Read();
      App(Over(0, article, false));
      if !accepted {
        return;
      }
      OneNew(this, article);
      Finish(disk);
    }

    /** Cont_delete, seen from the overviews. */
    method Remove(n: int)
      requires SessionOk() && OldOnly() && first == vecFirst
      modifies this`elem
      ensures SessionOk() && OldOnly()
      ensures forall o :: Some(o) in elem <==> Some(o) in old(elem) && o.numb != n
    {
      hide Known;
      hide Increasing;
      ghost var before := elem;
      Delete(n);
      assert forall i | 0 <= i < |elem| :: elem[i] == if i == n - vecFirst then None else before[i];
    }

    /** Control_cancel: take an article out; the group's record stays as it is. */
    method Cancel(n: int, disk: Disk)
      requires DiskOk()
      modifies this
      ensures DiskOk() && log == old(log) && grpLast == old(grpLast)
      ensures Fits(disk) ==> forall o: Over | !o.general ::
                o in Stored() <==> o in old(Stored()) && o.numb != n
    {
      hide Known;
      hide Kept;
      hide Logged;
      hide Fits;
      hide Increasing;
      Read();
      Remove(n);
      NothingNew(this);
      Save(disk);
    }

    /** expireContents: take out the articles that are gone from the database, and
        perhaps say in a pseudo article that the group was unsubscribed. */
    method Expire(gone: set<nat>, pseudo: Option<nat>, pseudoDisk: Disk, disk: Disk)
      requires DiskOk()
      modifies this
      ensures DiskOk() && old(log) <= log
      ensures grpLast == old(grpLast) + if pseudo.Some? then 1 else 0
      ensures Fits(disk) ==> forall o: Over | !o.general ::
                o in Stored() <==> (o in old(Stored()) && o.article !in gone)
                                   || (pseudo.Some? && o == Over(grpLast, pseudo.value, false))
    {
      hide Known;
      hide Kept;
      hide Logged;
      hide Fits;
      hide Numbered;
      hide Increasing;
      Read();
      DeleteGone(gone);
      if pseudo.Some? {
        GenPseudo(pseudo.value, pseudoDisk);
      }
      Finish(disk);
    }

    /** The loop of expireContents. */
    method DeleteGone(gone: set<nat>)
      requires SessionOk() && OldOnly() && first == vecFirst
      modifies this`elem
      ensures SessionOk() && OldOnly()
      ensures forall o :: Some(o) in elem <==> Some(o) in old(elem) && o.article !in gone
    {
      hide Known;
      hide Increasing;
      var i := first;
      while i <= last
        invariant SessionOk() && OldOnly() && |elem| == |old(elem)|
        invariant vecFirst <= i
        invariant forall k | 0 <= k < |elem| :: elem[k] == AfterExpiry(old(elem)[k], gone, k < i - vecFirst)
        decreases last - i
      {
        if ValidNumb(i) && elem[i - vecFirst].value.article in gone {
          Delete(i);
        }
        i := i + 1;
      }
    }

    /** Fetch_getNewArts: perhaps a pseudo article about missing articles, then one
        number for every fetched overview. */
    method Fetch(articles: seq<nat>, pseudo: Option<nat>, pseudoDisk: Disk, disk: Disk)
      requires DiskOk()
      modifies this
      ensures DiskOk() && old(log) <= log
      ensures var all := (if pseudo.Some? then [pseudo.value] else []) + articles;
              && grpLast == old(grpLast) + |all|
              && (Fits(disk) ==> forall o: Over | !o.general ::
                    o in Stored() <==> o in old(Stored()) || o in Numbered(old(grpLast), all))
    {
      hide Known;
      hide Kept;
      hide Logged;
      hide Fits;
      hide Numbered;
      hide Increasing;
      Read();
      ghost var before, base := elem, grpLast;
      ghost var all: seq<nat> := [];
      NumberedStep(base, [], 0);
      if pseudo.Some? {
        GenPseudo(pseudo.value, pseudoDisk);
        NumberedStep(base, [], pseudo.value);
        all := [] + [pseudo.value];
      }
      all := AppAll(articles, before, base, all);
      assert all == (if pseudo.Some? then [pseudo.value] else []) + articles;
      Finish(disk);
    }

    /** The next numbers go to all these articles. */
    method AppAll(articles: seq<nat>, ghost before: seq<Option<Over>>, ghost base: int, ghost was: seq<nat>)
      returns (ghost all: seq<nat>)
      requires SessionOk() && last == base + |was|
      requires forall o :: Some(o) in elem <==> Some(o) in before || o in Numbered(base, was)
      modifies this`elem, this`last
      ensures SessionOk() && all == was + articles && last == base + |all|
      ensures forall o :: Some(o) in elem <==> Some(o) in before || o in Numbered(base, all)
    {
      hide Known;
      hide Increasing;
      hide Numbered;
      all := was;
      for i := 0 to |articles|
        invariant SessionOk() && last == base + |all|
        invariant all == was + articles[..i]
        invariant forall o :: Some(o) in elem <==> Some(o) in before || o in Numbered(base, all)
      {
        App(Over(0, articles[i], false));
        NumberedStep(base, all, articles[i]);
        all := all + [articles[i]];
      }
      assert articles[..|articles|] == articles;
    }

    /** readCont: show the group to a reader, perhaps with a general info at the end
        that is forgotten afterwards, unless the group gets subscribed to. */
    method Select(general: Option<nat>, subscribed: Option<nat>, disk: Disk)
      requires DiskOk()
      modifies this
      ensures DiskOk() && old(log) <= log
      ensures grpLast == old(grpLast)
                         + if subscribed.None? then 0 else if general.Some? then 2 else 1
      ensures subscribed.None? ==> file == old(file) && log == old(log)
    {
      hide Known;
      hide Increasing;
      Read();
      if general.Some? {
        App(Over(0, general.value, true));
      }
      if subscribed.Some? {
        GenPseudo(subscribed.value, disk);
      }
    }

    /** Somebody removes the overview file. */
    method RemoveFile()
      requires DiskOk()
      modifies this`file
      ensures DiskOk() && file == None
    {
      file := None;
    }
  }

  datatype Session =
    | Post(article: nat, accepted: bool, disk: Disk)
    | Cancel(n: int, disk: Disk)
    | Expire(gone: set<nat>, pseudo: Option<nat>, pseudoDisk: Disk, disk: Disk)
    | Fetch(articles: seq<nat>, pseudo: Option<nat>, pseudoDisk: Disk, disk: Disk)
    | Select(general: Option<nat>, subscribed: Option<nat>, disk: Disk)
    | RemoveFile

  /** Any run of sessions on a group: the numbers given to stored articles only ever
      go up, so that none is given to a second article, whatever was cancelled,
      expired or lost in between. */
  method RunSessions(g: Group, sessions: seq<Session>)
    requires g.DiskOk()
    modifies g
    ensures g.DiskOk() && old(g.log) <= g.log && Increasing(g.log)
    ensures forall e, e' :: e in g.log && e' in g.log && e.numb == e'.numb ==> e.article == e'.article
    ensures forall o <- g.Stored() :: Entry(o.numb, o.article) in g.log
  {
    hide Known;
    for i := 0 to |sessions|
      invariant g.DiskOk() && old(g.log) <= g.log
    {
      match sessions[i] {
        case Post(article, accepted, disk) => g.Post(article, accepted, disk);
        case Cancel(n, disk) => g.Cancel(n, disk);
        case Expire(gone, pseudo, pseudoDisk, disk) => g.Expire(gone, pseudo, pseudoDisk, disk);
        case Fetch(articles, pseudo, pseudoDisk, disk) => g.Fetch(articles, pseudo, pseudoDisk, disk);
        case Select(general, subscribed, disk) => g.Select(general, subscribed, disk);
        case RemoveFile => g.RemoveFile();
      }
    }
  }

  /** An overview, after or before the expiry has come to it. */
  ghost function AfterExpiry(o: Option<Over>, gone: set<nat>, done: bool): Option<Over> {
    if done && o.Some? && o.value.article in gone then None else o
  }

  /** The overviews of articles that get the numbers behind `base`. */
  ghost function Numbered(base: int, articles: seq<nat>): seq<Over> {
    seq(|articles|, k requires 0 <= k < |articles| => Over(base + 1 + k, articles[k], false))
  }

  lemma NumberedStep(base: int, articles: seq<nat>, a: nat)
    ensures forall o :: o in Numbered(base, articles + [a]) <==>
              o in Numbered(base, articles) || o == Over(base + |articles| + 1, a, false)
    ensures Numbered(base, []) == []
  {
    var n := Numbered(base, articles);
    assert Numbered(base, articles + [a]) == n + [Over(base + |articles| + 1, a, false)];
  }

  /** Every overview that is not a general info is kept. */
  lemma KeptExactly(elem: seq<Option<Over>>, vecFirst: int)
    requires vecFirst >= 1
    requires forall k | 0 <= k < |elem| && elem[k].Some? :: elem[k].value.numb == vecFirst + k
    ensures forall o: Over | !o.general :: o in Kept(elem, 0) <==> Some(o) in elem
  {
    hide Kept;
    KeptFrom(elem, vecFirst, 0);
    forall k | 0 <= k < |elem| && elem[k].Some? && !elem[k].value.general ensures elem[k].value in Kept(elem, 0) {
      KeptHas(elem, 0, k);
    }
  }

  /** When everything in the list came from the file, writing logs nothing. */
  lemma NothingNew(g: Group)
    requires g.SessionOk() && g.OldOnly()
    ensures forall n: nat | n <= |Kept(g.elem, 0)| :: Logged(g.log, Kept(g.elem, 0)[..n]) == g.log
  {
    hide Known;
    forall n: nat | n <= |Kept(g.elem, 0)| ensures Logged(g.log, Kept(g.elem, 0)[..n]) == g.log {
      var lines := Kept(g.elem, 0)[..n];
      LinesPlaced(g, lines);
      forall i | 0 <= i < |lines| ensures Entry(lines[i].numb, lines[i].article) in g.log {
        KnownOld(g.log, lines[i]);
      }
      LoggedOld(g.log, lines);
    }
  }

  lemma KnownOld(log: seq<Entry>, o: Over)
    requires Known(log, o) && o.numb <= High(log)
    ensures Entry(o.numb, o.article) in log
  {
  }

  lemma {:induction false} LoggedOne(log: seq<Entry>, f: seq<Over>, e: Entry)
    requires forall i | 0 <= i < |f| :: Entry(f[i].numb, f[i].article) in log + [e]
    ensures Logged(log, f) == log || Logged(log, f) == log + [e]
  {
    if f != [] {
      LoggedOne(log, f[..|f| - 1], e);
    }
  }

  /** When everything in the list but the last article came from the file, writing logs at
      most that article. */
  lemma OneNew(g: Group, article: nat)
    requires g.SessionOk() && g.elem != [] && g.elem[|g.elem| - 1] == Some(Over(g.last, article, false))
    requires g.last > High(g.log)
    requires forall i | 0 <= i < |g.elem| - 1 && g.elem[i].Some? :: g.elem[i].value.numb <= High(g.log)
    ensures forall n: nat | n <= |Kept(g.elem, 0)| :: var l := Logged(g.log, Kept(g.elem, 0)[..n]);
              l == g.log || l == g.log + [Entry(g.last, article)]
  {
    hide Known;
    forall n: nat | n <= |Kept(g.elem, 0)|
      ensures var l := Logged(g.log, Kept(g.elem, 0)[..n]);
        l == g.log || l == g.log + [Entry(g.last, article)]
    {
      var lines := Kept(g.elem, 0)[..n];
      LinesPlaced(g, lines);
      forall i | 0 <= i < |lines|
        ensures Entry(lines[i].numb, lines[i].article) in g.log + [Entry(g.last, article)]
      {
        if lines[i].numb != g.last {
          KnownOld(g.log, lines[i]);
        }
      }
      LoggedOne(g.log, lines, Entry(g.last, article));
    }
  }

  lemma {:induction false} LoggedOld(log: seq<Entry>, f: seq<Over>)
    requires forall i | 0 <= i < |f| :: Entry(f[i].numb, f[i].article) in log
    ensures Logged(log, f) == log
  {
    if f != [] {
      LoggedOld(log, f[..|f| - 1]);
    }
  }

  lemma KeptNone(elem: seq<Option<Over>>)
    ensures Kept(elem, |elem|) == []
  {
  }

  lemma KeptStep(elem: seq<Option<Over>>, i: nat, lines: seq<Over>)
    requires i < |elem|
    ensures lines + Kept(elem, i) ==
            (if elem[i].Some? && (!elem[i].value.general || (i + 1 < |elem| && elem[i + 1].Some?))
             then lines + [elem[i].value] else lines) + Kept(elem, i + 1)
  {
  }

  /** The kept overviews have the numbers of their positions, in order. */
  lemma {:induction false} KeptFrom(elem: seq<Option<Over>>, vecFirst: int, i: nat)
    requires i <= |elem| && vecFirst >= 1
    requires forall k | 0 <= k < |elem| && elem[k].Some? :: elem[k].value.numb == vecFirst + k
    ensures forall j | 0 <= j < |Kept(elem, i)| ::
              vecFirst + i <= Kept(elem, i)[j].numb < vecFirst + |elem|
              && elem[Kept(elem, i)[j].numb - vecFirst] == Some(Kept(elem, i)[j])
    ensures forall j, k | 0 <= j < k < |Kept(elem, i)| :: Kept(elem, i)[j].numb < Kept(elem, i)[k].numb
    decreases |elem| - i
  {
    if i < |elem| {
      KeptFrom(elem, vecFirst, i + 1);
    }
  }

  /** Kept lines stand at their numbers in the list. */
  lemma LinesPlaced(g: Group, lines: seq<Over>)
    requires g.SessionOk() && lines <= Kept(g.elem, 0)
    ensures Ascending(lines)
    ensures forall j | 0 <= j < |lines| ::
              g.vecFirst <= lines[j].numb <= g.last && g.elem[lines[j].numb - g.vecFirst] == Some(lines[j])
    ensures forall j | 0 <= j < |lines| :: Known(g.log, lines[j])
  {
    hide Known;
    hide Increasing;
    hide Kept;
    KeptFrom(g.elem, g.vecFirst, 0);
    assert forall j | 0 <= j < |lines| :: lines[j] == Kept(g.elem, 0)[j];
  }

  /** Writing some of the kept lines logs them. */
  lemma LinesLogged(g: Group, lines: seq<Over>)
    requires g.SessionOk() && lines <= Kept(g.elem, 0)
    ensures Increasing(Logged(g.log, lines)) && g.log <= Logged(g.log, lines)
    ensures High(g.log) <= High(Logged(g.log, lines)) <= g.last
    ensures High(Logged(g.log, lines)) > High(g.log) ==>
              lines != [] && High(Logged(g.log, lines)) == lines[|lines| - 1].numb
    ensures g.FileOk(lines, Logged(g.log, lines))
    ensures forall j | 0 <= j < |lines| ::
              g.vecFirst <= lines[j].numb <= g.last && g.elem[lines[j].numb - g.vecFirst] == Some(lines[j])
  {
    hide Known;
    hide Increasing;
    hide Logged;
    hide Kept;
    hide Ascending;
    LinesPlaced(g, lines);
    LoggedKeeps(g.log, lines);
  }

  /** It leaves nothing else below the highest number that is not logged. */
  lemma NothingSkipped(g: Group, lines: seq<Over>, i: nat)
    requires g.SessionOk() && lines <= Kept(g.elem, 0) && i < |g.elem| && g.elem[i].Some?
    ensures Known(Logged(g.log, lines), g.elem[i].value)
  {
    hide Increasing;
    hide Logged;
    LinesLogged(g, lines);
    assert i + 1 < |g.elem| ==> g.elem[i + 1].Some? || g.elem[i + 1].None?;
    var o, log, l, kept := g.elem[i].value, g.log, Logged(g.log, lines), Kept(g.elem, 0);
    if o.numb <= High(log) {
      assert Entry(o.numb, o.article) in log;
    } else if o.numb < High(l) {
      var k := |lines| - 1;
      KeptHas(g.elem, 0, i);
      KeptFrom(g.elem, g.vecFirst, 0);
      var j :| 0 <= j < |kept| && kept[j] == o;
      assert lines[k] == kept[k];
      assert j < |lines| && lines[j] == o;
    } else if o.numb == High(l) {
      assert lines[|lines| - 1] == o;
    }
  }

  lemma {:induction false} KeptHas(elem: seq<Option<Over>>, i: nat, k: nat)
    requires i <= k < |elem| && elem[k].Some?
    requires !elem[k].value.general || (k + 1 < |elem| && elem[k + 1].Some?)
    ensures elem[k].value in Kept(elem, i)
    decreases |elem| - i
  {
    if i < k {
      KeptHas(elem, i + 1, k);
    }
  }

  lemma AllLoaded(g: Group, lines: seq<Over>)
    requires g.Loaded(lines, |lines|) && Ascending(lines)
    requires forall i | 0 <= i < |lines| :: lines[i].numb <= High(g.log) && Known(g.log, lines[i])
    ensures if lines == [] then g.first == g.vecFirst == g.last == 0 && g.elem == []
            else g.first == g.vecFirst >= 1 && g.last == g.vecFirst + |g.elem| - 1 && g.last <= High(g.log)
    ensures forall o :: Some(o) in g.elem <==> o in lines
    ensures g.OldOnly()
    ensures forall i | 0 <= i < |g.elem| && g.elem[i].Some? ::
              g.elem[i].value.numb == g.vecFirst + i && Known(g.log, g.elem[i].value)
  {
    hide Known;
  }

  lemma NoNewOvers(elem: seq<Option<Over>>, n: nat)
    ensures forall o :: Some(o) in elem + seq(n, _ => None) <==> Some(o) in elem
    ensures forall i | 0 <= i < |elem| + n && (elem + seq(n, _ => None))[i].Some? ::
              i < |elem| && (elem + seq(n, _ => None))[i] == elem[i]
  {
  }

  lemma LinesKnown(lines: seq<Over>, log: seq<Entry>)
    requires Increasing(log) && forall i | 0 <= i < |lines| :: Entry(lines[i].numb, lines[i].article) in log
    ensures forall i | 0 <= i < |lines| :: lines[i].numb <= High(log) && Known(log, lines[i])
  {
  }
}
