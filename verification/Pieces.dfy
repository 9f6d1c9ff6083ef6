/** The maximal separator-free pieces of a string: the items of a list, the words of a header. */
module Pieces {

  /** The first position from i on that does not hold a separator. */
  function Start(s: string, seps: string, i: nat): (a: nat)
    requires i <= |s|
    ensures i <= a <= |s|
    ensures forall k :: i <= k < a ==> s[k] in seps
    ensures a < |s| ==> s[a] !in seps
    decreases |s| - i
  {
    if i == |s| || s[i] !in seps then i else Start(s, seps, i + 1)
  }

  /** The first position from i on that holds a separator. */
  function End(s: string, seps: string, i: nat): (e: nat)
    requires i <= |s|
    ensures i <= e <= |s|
    ensures forall k :: i <= k < e ==> s[k] !in seps
    ensures e < |s| ==> s[e] in seps
    decreases |s| - i
  {
    if i == |s| || s[i] in seps then i else End(s, seps, i + 1)
  }

  /** The pieces of s from position i on, in order. */
  function From(s: string, seps: string, i: nat): seq<string>
    requires i <= |s|
    decreases |s| - i
  {
    var a := Start(s, seps, i);
    if a == |s| then []
    else
      var e := End(s, seps, a);
      [s[a..e]] + From(s, seps, e)
  }

  function Of(s: string, seps: string): seq<string> {
    From(s, seps, 0)
  }

  lemma SkipSeparator(s: string, seps: string, i: nat)
    requires i < |s| && s[i] in seps
    ensures Start(s, seps, i) == Start(s, seps, i + 1)
    ensures From(s, seps, i) == From(s, seps, i + 1)
  {
  }

  lemma FirstPiece(s: string, seps: string, i: nat)
    requires i < |s| && s[i] !in seps
    ensures i < End(s, seps, i) == End(s, seps, i + 1)
    ensures From(s, seps, i) == [s[i..End(s, seps, i)]] + From(s, seps, End(s, seps, i))
  {
  }

  /** Nothing but separators on the way leaves the pieces as they are. */
  lemma {:induction false} SkipSeparators(s: string, seps: string, i: nat, j: nat)
    requires i <= j <= |s|
    requires forall k :: i <= k < j ==> s[k] in seps
    ensures From(s, seps, i) == From(s, seps, j)
    decreases j - i
  {
    if i < j {
      SkipSeparator(s, seps, i);
      SkipSeparators(s, seps, i + 1, j);
    }
  }

  lemma {:induction false} EndIs(s: string, seps: string, i: nat, e: nat)
    requires i <= e <= |s|
    requires forall k :: i <= k < e ==> s[k] !in seps
    requires e < |s| ==> s[e] in seps
    ensures End(s, seps, i) == e
    decreases e - i
  {
    if i < e {
      EndIs(s, seps, i + 1, e);
    }
  }

  lemma {:induction false} StartIs(s: string, seps: string, i: nat, a: nat)
    requires i <= a <= |s|
    requires forall k :: i <= k < a ==> s[k] in seps
    requires a < |s| ==> s[a] !in seps
    ensures Start(s, seps, i) == a
    decreases a - i
  {
    if i < a {
      StartIs(s, seps, i + 1, a);
    }
  }

  lemma FromIs(s: string, seps: string, i: nat)
    requires i <= |s|
    ensures var st := Start(s, seps, i);
      From(s, seps, i) == if st == |s| then [] else [s[st..End(s, seps, st)]] + From(s, seps, End(s, seps, st))
    ensures var st := Start(s, seps, i); st < |s| ==> st < End(s, seps, st)
  {
  }

  lemma {:induction false} FromBehind(a: string, b: string, seps: string, j: nat)
    requires j <= |b|
    ensures From(a + b, seps, |a| + j) == From(b, seps, j)
    decreases |b| - j
  {
    hide From;
    hide Start;
    hide End;
    var s := a + b;
    var st := Start(b, seps, j);
    FromIs(b, seps, j);
    FromIs(s, seps, |a| + j);
    StartIs(s, seps, |a| + j, |a| + st);
    if st < |b| {
      var e := End(b, seps, st);
      EndIs(s, seps, |a| + st, |a| + e);
      FromBehind(a, b, seps, e);
      assert s[|a| + st..|a| + e] == b[st..e];
    }
  }

  /** Two strings that no piece crosses have the pieces of the one and then those of the other. */
  lemma {:induction false} FromConcat(a: string, b: string, seps: string, i: nat)
    requires i <= |a|
    requires a == "" || b == "" || a[|a| - 1] in seps || b[0] in seps
    ensures From(a + b, seps, i) == From(a, seps, i) + Of(b, seps)
    decreases |a| - i
  {
    hide From;
    hide Start;
    hide End;
    var s := a + b;
    var st := Start(a, seps, i);
    FromIs(a, seps, i);
    if st == |a| {
      SkipSeparators(s, seps, i, |a|);
      FromBehind(a, b, seps, 0);
      assert [] + Of(b, seps) == Of(b, seps);
    } else {
      var e := End(a, seps, st);
      FromIs(s, seps, i);
      StartIs(s, seps, i, st);
      assert e < |s| ==> s[e] in seps;
      EndIs(s, seps, st, e);
      FromConcat(a, b, seps, e);
      assert s[st..e] == a[st..e];
      Cons(s[st..e], From(a, seps, e), Of(b, seps));
    }
  }

  lemma Cons(x: string, p: seq<string>, q: seq<string>)
    ensures [x] + (p + q) == [x] + p + q
  {
  }

  lemma OfConcat(a: string, b: string, seps: string)
    requires a == "" || b == "" || a[|a| - 1] in seps || b[0] in seps
    ensures Of(a + b, seps) == Of(a, seps) + Of(b, seps)
  {
    FromConcat(a, b, seps, 0);
  }

  lemma NoPieces(a: string, seps: string)
    requires forall k :: 0 <= k < |a| ==> a[k] in seps
    ensures Of(a, seps) == []
  {
    StartIs(a, seps, 0, |a|);
  }
}
