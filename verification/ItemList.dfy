/** The item list of itemlist.c: the list is copied once, cut into strings in place, and
    walked with a single pointer. */
module ItemList {
  import opened Wrappers
  import Pieces

  const SEP_CHAR := '\U{1}'
  const NUL := '\0'

  /** What the constructor leaves at position i: an item's own characters, an end of string
      after each item, and SEP_CHAR for every other separator. */
  function Mark(s: string, seps: string, i: nat): char
    requires i < |s|
  {
    if s[i] !in seps then s[i]
    else if i > 0 && s[i - 1] !in seps then NUL
    else SEP_CHAR
  }

  /** Where an item standing at a..e begins for a reader that skips SEP_CHAR. */
  function Begin(s: string, a: nat, e: nat): (b: nat)
    requires a <= e <= |s|
    ensures a <= b <= e
    ensures forall k :: a <= k < b ==> s[k] == SEP_CHAR
    ensures b < e ==> s[b] != SEP_CHAR
    decreases e - a
  {
    if a == e || s[a] != SEP_CHAR then a else Begin(s, a + 1, e)
  }

  /** The items a walk delivers from position i on: each one from where it begins for the
      reader, except that the walk ends at an item that consists of SEP_CHAR alone and has at
      most one character behind it. */
  function Delivered(s: string, seps: string, i: nat): seq<string>
    requires i <= |s|
    decreases |s| - i, 1
  {
    var a := Pieces.Start(s, seps, i);
    if a == |s| then []
    else
      var e := Pieces.End(s, seps, a);
      var b := Begin(s, a, e);
      if b == e && |s| <= e + 1 then [] else [s[b..e]] + Behind(s, seps, e)
  }

  /** The items behind the one that ends at e. */
  function Behind(s: string, seps: string, e: nat): seq<string>
    requires e <= |s|
    decreases |s| - e, 0
  {
    if e < |s| then Delivered(s, seps, e + 1) else []
  }

  /** An item begins at k, when no item is open at i. */
  predicate BeginsAt(s: string, seps: string, i: nat, k: nat)
    requires i <= k < |s|
  {
    s[k] !in seps && (k == i || s[k - 1] in seps)
  }

  /** From position i on, where no item is open, no item begins with SEP_CHAR. */
  ghost predicate Clean(s: string, seps: string, i: nat) {
    forall k :: i <= k < |s| && BeginsAt(s, seps, i, k) ==> s[k] != SEP_CHAR
  }

  lemma CleanStep(s: string, seps: string, i: nat, a: nat, e: nat)
    requires i <= a < |s| && a == Pieces.Start(s, seps, i) && e == Pieces.End(s, seps, a)
    ensures Clean(s, seps, i) <==> s[a] != SEP_CHAR && (e < |s| ==> Clean(s, seps, e + 1))
  {
    assert BeginsAt(s, seps, i, a);
    forall k | e < k < |s| ensures BeginsAt(s, seps, i, k) <==> BeginsAt(s, seps, e + 1, k) {
    }
    forall k | i <= k <= e && k < |s| && k != a ensures !BeginsAt(s, seps, i, k) {
    }
  }

  lemma CleanEnd(s: string, seps: string, i: nat)
    requires i <= |s| && Pieces.Start(s, seps, i) == |s|
    ensures Clean(s, seps, i)
    ensures Delivered(s, seps, i) == [] == Pieces.From(s, seps, i)
  {
  }

  lemma ConsEqual(x: string, y: string, d: seq<string>, f: seq<string>)
    ensures [x] + d == [y] + f <==> x == y && d == f
  {
    var u, v := [x] + d, [y] + f;
    assert u[0] == x && v[0] == y && u[1..] == d && v[1..] == f;
  }

  lemma OneMore(items: seq<string>, x: string, rest: seq<string>)
    ensures items + ([x] + rest) == items + [x] + rest
  {
  }

  lemma {:induction false} DeliveredStep(s: string, seps: string, i: nat, a: nat, e: nat, b: nat)
    requires i <= a < |s| && a == Pieces.Start(s, seps, i) && e == Pieces.End(s, seps, a) && b == Begin(s, a, e)
    ensures Delivered(s, seps, i) == if b == e && |s| <= e + 1 then [] else [s[b..e]] + Behind(s, seps, e)
  {
    hide Begin;
    hide Pieces.Start;
    hide Pieces.End;
    hide Behind;
  }

  lemma FromStep(s: string, seps: string, i: nat, a: nat, e: nat)
    requires i <= a < |s| && a == Pieces.Start(s, seps, i) && e == Pieces.End(s, seps, a)
    ensures Pieces.From(s, seps, i) == [s[a..e]] + if e < |s| then Pieces.From(s, seps, e + 1) else []
  {
    assert Pieces.From(s, seps, i) == [s[a..e]] + Pieces.From(s, seps, e);
    if e < |s| {
      Pieces.SkipSeparator(s, seps, e);
    }
  }

  /** The walk delivers exactly the items when, and only when, no item begins with SEP_CHAR. */
  lemma {:induction false} DeliveredExactly(s: string, seps: string, i: nat)
    requires i <= |s|
    ensures Delivered(s, seps, i) == Pieces.From(s, seps, i) <==> Clean(s, seps, i)
    decreases |s| - i
  {
    hide Clean;
    hide Delivered;
    hide Pieces.From;
    var a := Pieces.Start(s, seps, i);
    if a == |s| {
      CleanEnd(s, seps, i);
    } else {
      var e := Pieces.End(s, seps, a);
      if e < |s| {
        DeliveredExactly(s, seps, e + 1);
      }
      DeliveredExactlyStep(s, seps, i, a, e);
    }
  }

  lemma DeliveredExactlyStep(s: string, seps: string, i: nat, a: nat, e: nat)
    requires i <= a < |s| && a == Pieces.Start(s, seps, i) && e == Pieces.End(s, seps, a)
    requires e < |s| ==> (Delivered(s, seps, e + 1) == Pieces.From(s, seps, e + 1) <==> Clean(s, seps, e + 1))
    ensures Delivered(s, seps, i) == Pieces.From(s, seps, i) <==> Clean(s, seps, i)
  {
    hide Clean;
    hide Delivered;
    hide Pieces.From;
    CleanStep(s, seps, i, a, e);
    var b := Begin(s, a, e);
    DeliveredStep(s, seps, i, a, e, b);
    FromStep(s, seps, i, a, e);
    assert a < e;
    assert |s[b..e]| == |s[a..e]| <==> b == a;
    if e < |s| {
      ConsEqual(s[b..e], s[a..e], Delivered(s, seps, e + 1), Pieces.From(s, seps, e + 1));
    } else {
      ConsEqual(s[b..e], s[a..e], [], []);
    }
  }

  /** Two lists that are walked wrongly: "\1a" delivers "a", and "\1" delivers nothing. */
  lemma MarkedItems()
    ensures Pieces.Of([SEP_CHAR, 'a'], ",") == [[SEP_CHAR, 'a']]
    ensures Delivered([SEP_CHAR, 'a'], ",", 0) == ["a"]
    ensures Pieces.Of([SEP_CHAR], ",") == [[SEP_CHAR]] && Delivered([SEP_CHAR], ",", 0) == []
  {
    var s, t := [SEP_CHAR, 'a'], [SEP_CHAR];
    assert s[0..2] == s && s[1..2] == "a" && t[0..1] == t;
    assert Pieces.End(s, ",", 0) == 2 && Begin(s, 0, 2) == 1;
    assert Pieces.End(t, ",", 0) == 1 && Begin(t, 0, 1) == 1;
    assert Pieces.From(s, ",", 2) == [] && Pieces.From(t, ",", 1) == [];
    FromStep(s, ",", 0, 0, 2);
    FromStep(t, ",", 0, 0, 1);
  }

  /** The state of the cutting loop at position p. */
  ghost predicate CutUpTo(list: array<char>, text: string, seps: string, p: nat, inItem: bool, n: nat)
    reads list
  {
    && list.Length == |text| + 2 && p <= |text|
    && (forall i :: 0 <= i < p ==> list[i] == Mark(text, seps, i))
    && (forall i :: p <= i < |text| ==> list[i] == text[i])
    && list[|text|] == NUL
    && inItem == (p > 0 && text[p - 1] !in seps)
    && |Pieces.Of(text, seps)| == n + Left(text, seps, p, inItem)
  }

  /** The items that end at or after p. */
  ghost function Left(text: string, seps: string, p: nat, inItem: bool): nat
    requires p <= |text|
  {
    if inItem then 1 + |Pieces.From(text, seps, Pieces.End(text, seps, p))| else |Pieces.From(text, seps, p)|
  }

  lemma LeftStep(text: string, seps: string, p: nat, inItem: bool)
    requires p < |text|
    ensures Left(text, seps, p, inItem) ==
      (if inItem && text[p] in seps then 1 else 0) + Left(text, seps, p + 1, text[p] !in seps)
  {
    if text[p] in seps {
      Pieces.SkipSeparator(text, seps, p);
    } else {
      Pieces.FirstPiece(text, seps, p);
    }
  }

  /** One step of the cutting loop. */
  method CutStep(list: array<char>, ghost text: string, separators: string, p: nat, inItem: bool, n: nat)
    returns (inItem': bool, n': nat)
    requires CutUpTo(list, text, separators, p, inItem, n) && p < |text|
    modifies list
    ensures CutUpTo(list, text, separators, p + 1, inItem', n')
  {
    LeftStep(text, separators, p, inItem);
    hide Left;
    inItem', n' := inItem, n;
    var isSep := list[p] in separators;
    if inItem {
      if isSep {
        list[p] := NUL;
        inItem' := false;
        n' := n + 1;
      }
    } else {
      if isSep {
        list[p] := SEP_CHAR;
      } else {
        inItem' := true;
      }
    }
  }

  /** Cuts the copied list into strings and counts them. */
  method Cut(list: array<char>, ghost text: string, separators: string) returns (n: nat)
    requires NUL !in text && list.Length == |text| + 2
    requires list[..|text|] == text && list[|text|] == NUL
    modifies list
    ensures forall i :: 0 <= i < |text| ==> list[i] == Mark(text, separators, i)
    ensures list[|text|] == NUL && list[|text| + 1] == NUL
    ensures n == |Pieces.Of(text, separators)|
  {
    var p := 0;
    var inItem := false;
    n := 0;
    assert forall i :: 0 <= i < |text| ==> list[i] == list[..|text|][i];
    while list[p] != NUL
      invariant CutUpTo(list, text, separators, p, inItem, n)
      decreases |text| - p
    {
      inItem, n := CutStep(list, text, separators, p, inItem, n);
      p := p + 1;
    }
    if inItem {
      n := n + 1;
    }
    list[p + 1] := NUL;
  }

  lemma {:induction false} BeginIs(s: string, a: nat, e: nat, b: nat)
    requires a <= b <= e <= |s|
    requires forall k :: a <= k < b ==> s[k] == SEP_CHAR
    requires b < e ==> s[b] != SEP_CHAR
    ensures Begin(s, a, e) == b
  {
  }

  class ItemList {
    const list: array<char>
    var next: nat
    var count: nat
    ghost const text: string
    ghost const seps: string

    /** The array holds the marked text and two ends of string. */
    ghost predicate IsCut()
      reads this`count, list
    {
      && NUL !in text
      && list.Length == |text| + 2
      && (forall i :: 0 <= i < |text| ==> list[i] == Mark(text, seps, i))
      && list[|text|] == NUL && list[|text| + 1] == NUL
      && count == |Pieces.Of(text, seps)|
    }

    /** No item is open where the walk stands. */
    ghost predicate Valid()
      reads this, list
    {
      && IsCut()
      && next <= |text| + 1
      && (0 < next <= |text| ==> text[next - 1] in seps)
    }

    /** What the rest of the walk delivers. */
    ghost function Walk(): seq<string>
      reads this, list
      requires Valid()
    {
      if next > |text| then [] else Delivered(text, seps, next)
    }

    constructor (source: string, separators: string)
      requires NUL !in source && NUL !in separators
      ensures Valid() && fresh(list) && next == 0
      ensures text == source && seps == separators
    {
      list := new char[|source| + 2](i requires 0 <= i < |source| + 2 => if i < |source| then source[i] else NUL);
      next := 0;
      text := source;
      seps := separators;
      new;
      var n := Cut(list, source, separators);
      count := n;
    }

    /** The number of items. */
    method Count() returns (n: nat)
      requires Valid()
      ensures n == |Pieces.Of(text, seps)|
    {
      n := count;
    }

    /** The string that starts at position i. */
    method StringAt(i: nat, ghost e: nat) returns (r: string)
      requires i <= e < list.Length && list[e] == NUL
      requires forall k :: i <= k < e ==> list[k] != NUL
      ensures r == list[i..e]
    {
      var k := i;
      r := "";
      while list[k] != NUL
        invariant i <= k <= e && r == list[i..k]
        decreases e - k
      {
        r := r + [list[k]];
        k := k + 1;
      }
    }

    /** What is left to deliver, seen from the next item. */
    lemma WalkFrom(a: nat, e: nat)
      requires Valid() && next <= a <= e <= |text|
      requires a == Pieces.Start(text, seps, next) && e == Pieces.End(text, seps, a)
      ensures a == e <==> a == |text|
      ensures a == |text| ==> Walk() == []
      ensures a < |text| ==>
        Walk() == if Begin(text, a, e) == e && |text| <= e + 1 then []
                  else [text[Begin(text, a, e)..e]] + Behind(text, seps, e)
    {
      hide Delivered;
      if a < |text| {
        DeliveredStep(text, seps, next, a, e, Begin(text, a, e));
      } else {
        CleanEnd(text, seps, next);
      }
    }

    /** The walk stands at an end of string exactly when it has passed the whole text. */
    lemma AtEnd()
      requires Valid()
      ensures next < list.Length && (list[next] == NUL <==> next >= |text|)
      ensures next >= |text| ==> Walk() == []
    {
      hide Delivered;
      if next == |text| {
        CleanEnd(text, seps, next);
      }
    }

    /** Where the walk from `next` finds the next item, and what surrounds it. */
    lemma NextItem(a: nat, e: nat)
      requires Valid() && next <= a <= e <= |text|
      requires a == Pieces.Start(text, seps, next) && e == Pieces.End(text, seps, a)
      ensures forall k :: next <= k < a ==> list[k] == SEP_CHAR
      ensures forall k :: a <= k < e ==> list[k] == text[k]
      ensures forall k :: a <= k < e ==> list[k] != NUL
      ensures list.Length == |text| + 2 && list[e] == NUL
      ensures list[e + 1] == NUL <==> |text| <= e + 1
    {
    }

    method SkipSeparators(ghost a: nat, ghost e: nat) returns (res: nat)
      requires Valid() && next <= a <= e <= |text|
      requires a == Pieces.Start(text, seps, next) && e == Pieces.End(text, seps, a)
      ensures res == Begin(text, a, e)
    {
      res := next;
      NextItem(a, e);
      while list[res] == SEP_CHAR
        invariant next <= res <= e
        invariant forall k :: next <= k < res ==> list[k] == SEP_CHAR
        decreases e - res
      {
        res := res + 1;
      }
      BeginIs(text, a, e, res);
    }

    /** Delivers the item that ends at e, when the walk has not passed the whole text. */
    method Take(ghost a: nat, ghost e: nat) returns (r: Option<string>)
      requires Valid() && next <= a <= e <= |text|
      requires a == Pieces.Start(text, seps, next) && e == Pieces.End(text, seps, a)
      requires a == e <==> a == |text|
      modifies `next
      ensures r == if Begin(text, a, e) == e && |text| <= e + 1 then None else Some(text[Begin(text, a, e)..e])
      ensures next == if r.Some? then e + 1 else old(next)
    {
      hide IsCut;
      hide Begin;
      hide Pieces.Start;
      hide Pieces.End;
      NextItem(a, e);
      var res := SkipSeparators(a, e);
      if list[res] == NUL && list[res + 1] == NUL {
        return None;
      }
      var x := StringAt(res, e);
      assert x == text[res..e];
      next := res + |x| + 1;
      r := Some(x);
    }

    /** Delivers the next item, or nothing at the end of the list. */
    method Next() returns (r: Option<string>)
      requires Valid()
      modifies `next
      ensures Valid()
      ensures old(Walk()) == match r case None => [] case Some(x) => [x] + Walk()
      ensures if r.Some? then next > old(next) else next == old(next)
    {
      hide Delivered;
      hide IsCut;
      hide Begin;
      hide Pieces.Start;
      hide Pieces.End;
      AtEnd();
      if list[next] == NUL {
        return None;
      }
      ghost var a := Pieces.Start(text, seps, next);
      ghost var e := Pieces.End(text, seps, a);
      WalkFrom(a, e);
      r := Take(a, e);
    }

    /** Starts the walk again. */
    method First() returns (r: Option<string>)
      requires Valid()
      modifies `next
      ensures Valid()
      ensures Delivered(text, seps, 0) == match r case None => [] case Some(x) => [x] + Walk()
    {
      next := 0;
      r := Next();
    }

    /** A whole walk. */
    method All() returns (items: seq<string>)
      requires Valid()
      modifies `next
      ensures Valid() && items == Delivered(text, seps, 0)
    {
      hide Delivered;
      hide Valid;
      var r := First();
      items := [];
      while r.Some?
        invariant Valid()
        invariant Delivered(text, seps, 0) == items + match r case None => [] case Some(x) => [x] + Walk()
        decreases r.Some?, |text| + 2 - next
      {
        OneMore(items, r.value, Walk());
        items := items + [r.value];
        r := Next();
      }
    }
  }

  /** Building a list and walking it once. */
  method Enumerate(source: string, separators: string) returns (items: seq<string>, count: nat)
    requires NUL !in source && NUL !in separators
    ensures count == |Pieces.Of(source, separators)|
    ensures items == Delivered(source, separators, 0)
    ensures items == Pieces.Of(source, separators)
      <==> Clean(source, separators, 0)
  {
    var l := new ItemList(source, separators);
    count := l.Count();
    items := l.All();
    DeliveredExactly(source, separators, 0);
  }
}
