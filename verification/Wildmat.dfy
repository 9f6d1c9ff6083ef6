/** The wildmat matcher: shell-style patterns with ?, \, [...] and *. */
module Wildmat {
  import opened Wrappers

  /** A character of a C string on a machine where char is signed. */
  type schar = x: int | -128 <= x < 128

  const STAR: schar := 42
  const DASH: schar := 45
  const QUERY: schar := 63
  const OPEN: schar := 91
  const BACKSLASH: schar := 92
  const CLOSE: schar := 93
  const CARET: schar := 94

  // ---- what a pattern means -------------------------------------------------

  /** A closed interval of characters in a bracket class. */
  datatype Span = Span(lo: schar, hi: schar)

  /** Dead is a backslash at the end of a pattern: it matches no character. */
  datatype Item = Literal(c: schar) | AnyChar | Class(negated: bool, spans: seq<Span>) | Dead | AnyString

  predicate InSpans(c: schar, spans: seq<Span>) {
    exists i | 0 <= i < |spans| :: spans[i].lo <= c <= spans[i].hi
  }

  predicate Accepts(i: Item, c: schar) {
    match i
    case Literal(d) => c == d
    case AnyChar => true
    case Class(negated, spans) => InSpans(c, spans) != negated
    case Dead => false
    case AnyString => false
  }

  /** The text as a whole matches the items: AnyString takes any piece of text,
      every other item one accepted character. */
  predicate Matches(items: seq<Item>, text: seq<schar>)
    decreases |items|
  {
    if items == [] then text == []
    else if items[0] == AnyString then exists k | 0 <= k <= |text| :: Matches(items[1..], text[k..])
    else text != [] && Accepts(items[0], text[0]) && Matches(items[1..], text[1..])
  }

  // ---- how a pattern is written ---------------------------------------------

  /** The rest of a bracket class after a character last, up to the closing
      bracket, and what follows it. None: the class is not closed. */
  function ClassBody(p: seq<schar>, last: schar): Option<(seq<Span>, seq<schar>)>
    decreases |p|
  {
    if p == [] then None
    else if p[0] == CLOSE then Some(([], p[1..]))
    else if p[0] == DASH && |p| == 1 then None
    else
      var range := p[0] == DASH && p[1] != CLOSE;
      var hi := if range then p[1] else p[0];
      match ClassBody(p[if range then 2 else 1..], hi)
      case None => None
      case Some((spans, rest)) => Some(([Span(if range then last else hi, hi)] + spans, rest))
  }

  /** The class that starts after its opening bracket. */
  function ClassOf(p: seq<schar>): Option<(Item, seq<schar>)> {
    var negated := p != [] && p[0] == CARET;
    var q := if negated then p[1..] else p;
    if q != [] && (q[0] == CLOSE || q[0] == DASH) then
      match ClassBody(q[1..], q[0])
      case None => None
      case Some((spans, rest)) => Some((Class(negated, [Span(q[0], q[0])] + spans), rest))
    else
      match ClassBody(q, OPEN)
      case None => None
      case Some((spans, rest)) => Some((Class(negated, spans), rest))
  }

  lemma {:induction false} ClassBodyShorter(p: seq<schar>, last: schar)
    ensures ClassBody(p, last).Some? ==> |ClassBody(p, last).value.1| < |p|
    decreases |p|
  {
    if p != [] && p[0] != CLOSE && !(p[0] == DASH && |p| == 1) {
      var range := p[0] == DASH && p[1] != CLOSE;
      ClassBodyShorter(p[if range then 2 else 1..], if range then p[1] else p[0]);
    }
  }

  /** The first item of a nonempty pattern, and the rest of the pattern. */
  function FirstItem(p: seq<schar>): (r: Option<(Item, seq<schar>)>)
    requires p != []
    ensures r.Some? ==> |r.value.1| < |p|
  {
    if p[0] == BACKSLASH then
      if |p| == 1 then Some((Dead, [])) else Some((Literal(p[1]), p[2..]))
    else if p[0] == QUERY then Some((AnyChar, p[1..]))
    else if p[0] == STAR then Some((AnyString, p[1..]))
    else if p[0] == OPEN then
      ClassBodyShorter(if |p| > 1 && p[1] == CARET then p[2..] else p[1..], OPEN);
      assert ClassOf(p[1..]).Some? ==> |ClassOf(p[1..]).value.1| < |p| by {
        var q := if |p| > 1 && p[1] == CARET then p[2..] else p[1..];
        if q != [] { ClassBodyShorter(q[1..], q[0]); }
      }
      ClassOf(p[1..])
    else Some((Literal(p[0]), p[1..]))
  }

  /** The items of a pattern; None if a bracket class is not closed. */
  function Items(p: seq<schar>): Option<seq<Item>>
    decreases |p|
  {
    if p == [] then Some([])
    else
      match FirstItem(p)
      case None => None
      case Some((item, rest)) =>
        match Items(rest) case None => None case Some(items) => Some([item] + items)
  }

  // ---- facts about matching -------------------------------------------------

  /** Consecutive stars act just like one. */
  lemma StarStar(items: seq<Item>, text: seq<schar>)
    requires items != [] && items[0] == AnyString
    ensures Matches([AnyString] + items, text) <==> Matches(items, text)
  {
    var twice := [AnyString] + items;
    assert twice[1..] == items;
    if k :| 0 <= k <= |text| && Matches(items, text[k..]) {
      var m :| 0 <= m <= |text[k..]| && Matches(items[1..], text[k..][m..]);
      assert text[k..][m..] == text[k + m..];
    }
    assert text[0..] == text;
  }

  /** No suffix of text from position i on matches. */
  ghost predicate NoSuffix(items: seq<Item>, text: seq<schar>, i: nat) {
    forall k | i <= k <= |text| :: !Matches(items, text[k..])
  }

  lemma InSpansCons(c: schar, s: Span, spans: seq<Span>)
    ensures InSpans(c, [s] + spans) <==> s.lo <= c <= s.hi || InSpans(c, spans)
  {
    if i :| 0 <= i < |spans| && spans[i].lo <= c <= spans[i].hi {
      assert ([s] + spans)[i + 1] == spans[i];
    }
    assert ([s] + spans)[0] == s;
  }

  /** Only a dash at the front looks at the character before it. */
  lemma ClassBodyLast(p: seq<schar>, last: schar, last': schar)
    requires p == [] || p[0] != DASH
    ensures ClassBody(p, last) == ClassBody(p, last')
  {
  }

  /** One step inside a class: a range or a single character. */
  lemma BodyStep(p: seq<schar>, i: nat, last: schar, c: schar)
    requires i <= |p| && ClassBody(p[i..], last).Some?
    ensures i < |p|
    ensures p[i] == CLOSE ==>
              ClassBody(p[i..], last).value.1 == p[i + 1..] && !InSpans(c, ClassBody(p[i..], last).value.0)
    ensures p[i] != CLOSE ==>
              (p[i] == DASH ==> i + 1 < |p|)
              && var range := p[i] == DASH && p[i + 1] != CLOSE;
                 var n := if range then i + 2 else i + 1;
                 n < |p| && ClassBody(p[n..], p[n - 1]).Some?
                 && ClassBody(p[n..], p[n - 1]).value.1 == ClassBody(p[i..], last).value.1
                 && (InSpans(c, ClassBody(p[i..], last).value.0) <==>
                     (if range then last <= c <= p[n - 1] else c == p[n - 1])
                     || InSpans(c, ClassBody(p[n..], p[n - 1]).value.0))
  {
    if p[i] != CLOSE {
      var range := p[i] == DASH && p[i + 1] != CLOSE;
      var n := if range then i + 2 else i + 1;
      assert p[i..][if range then 2 else 1..] == p[n..];
      var spans := ClassBody(p[n..], p[n - 1]).value.0;
      InSpansCons(c, Span(if range then last else p[n - 1], p[n - 1]), spans);
    }
  }

  /** Where the body of a class starts, and what precedes it. */
  lemma ClassStart(p: seq<schar>, start: nat, c: schar)
    requires start < |p| && ClassOf(p[start + 1..]).Some?
    ensures start + 1 < |p|
    ensures var negated := p[start + 1] == CARET;
            var i := if negated then start + 2 else start + 1;
            var literal := i < |p| && (p[i] == CLOSE || p[i] == DASH);
            var body := ClassBody(p[if literal then i + 1 else i..], p[if literal then i else i - 1]);
            var item := ClassOf(p[start + 1..]).value.0;
            body.Some? && item.Class? && item.negated == negated
            && body.value.1 == ClassOf(p[start + 1..]).value.1
            && (InSpans(c, item.spans) <==> (literal && c == p[i]) || InSpans(c, body.value.0))
  {
    var tail := p[start + 1..];
    var negated := p[start + 1] == CARET;
    var i := if negated then start + 2 else start + 1;
    var q := if negated then tail[1..] else tail;
    assert q == p[i..];
    if q != [] && (q[0] == CLOSE || q[0] == DASH) {
      assert q[1..] == p[i + 1..];
      InSpansCons(c, Span(q[0], q[0]), ClassBody(q[1..], q[0]).value.0);
    } else {
      ClassBodyLast(q, OPEN, p[i - 1]);
    }
  }

  // ---- progress of a match --------------------------------------------------

  /** With t characters used up by one-character items, rest remains to be
      matched; a later start would have used up t characters as well. */
  ghost predicate Used(items: seq<Item>, rest: seq<Item>, text: seq<schar>, t: nat) {
    && t <= |text|
    && (Matches(items, text) <==> Matches(rest, text[t..]))
    && forall k | 0 <= k <= |text| && Matches(items, text[k..]) :: k + t <= |text| && Matches(rest, text[k + t..])
  }

  lemma UsedNone(items: seq<Item>, text: seq<schar>)
    ensures Used(items, items, text, 0)
  {
    assert text[0..] == text;
  }

  lemma UsedOne(items: seq<Item>, rest: seq<Item>, text: seq<schar>, t: nat)
    requires Used(items, rest, text, t) && rest != [] && rest[0] != AnyString
    requires t < |text| && Accepts(rest[0], text[t])
    ensures Used(items, rest[1..], text, t + 1)
  {
    assert text[t..][1..] == text[t + 1..];
    forall k | 0 <= k <= |text| && Matches(items, text[k..])
      ensures k + t + 1 <= |text| && Matches(rest[1..], text[k + t + 1..])
    {
      assert text[k + t..][1..] == text[k + t + 1..];
    }
  }

  lemma Mismatch(items: seq<Item>, rest: seq<Item>, text: seq<schar>, t: nat)
    requires Used(items, rest, text, t) && t < |text|
    requires rest != [] && rest[0] != AnyString && !Accepts(rest[0], text[t])
    ensures !Matches(items, text)
  {
  }

  lemma PatternOver(items: seq<Item>, text: seq<schar>, t: nat)
    requires Used(items, [], text, t)
    ensures Matches(items, text) <==> t == |text|
  {
  }

  lemma TextOver(items: seq<Item>, rest: seq<Item>, text: seq<schar>)
    requires Used(items, rest, text, |text|) && rest != [] && rest[0] != AnyString
    ensures NoSuffix(items, text, 0)
  {
    assert text[|text|..] == [] && text[0 + |text|..] == [];
  }

  lemma StarHit(items: seq<Item>, rest: seq<Item>, text: seq<schar>, t: nat, j: nat)
    requires Used(items, [AnyString] + rest, text, t) && t <= j <= |text| && Matches(rest, text[j..])
    ensures Matches(items, text)
  {
    assert ([AnyString] + rest)[1..] == rest;
    assert text[t..][j - t..] == text[j..];
  }

  lemma StarMiss(items: seq<Item>, rest: seq<Item>, text: seq<schar>, t: nat)
    requires Used(items, [AnyString] + rest, text, t) && NoSuffix(rest, text, t)
    ensures NoSuffix(items, text, 0)
  {
    assert ([AnyString] + rest)[1..] == rest;
    forall k | 0 <= k <= |text| ensures !Matches(items, text[k..]) {
      if k + t <= |text| && Matches([AnyString] + rest, text[k + t..]) {
        StarSomewhere(rest, text, k + t);
      }
    }
  }

  lemma StarSomewhere(rest: seq<Item>, text: seq<schar>, u: nat)
    requires u <= |text| && Matches([AnyString] + rest, text[u..])
    ensures exists m | u <= m <= |text| :: Matches(rest, text[m..])
  {
    assert ([AnyString] + rest)[1..] == rest;
    var m :| 0 <= m <= |text[u..]| && Matches(rest, text[u..][m..]);
    assert text[u..][m..] == text[u + m..];
  }

  /** Two stars in a row: the second may be skipped. */
  lemma SkipStar(items: seq<Item>, rest: seq<Item>, text: seq<schar>, t: nat)
    requires rest != [] && rest[0] == AnyString && Used(items, [AnyString] + rest, text, t)
    ensures Used(items, [AnyString] + rest[1..], text, t)
  {
    assert [AnyString] + rest[1..] == rest;
    StarStar(rest, text[t..]);
    forall k | 0 <= k <= |text| && Matches(items, text[k..])
      ensures k + t <= |text| && Matches(rest, text[k + t..])
    {
      StarStar(rest, text[k + t..]);
    }
  }

  // ---- the matcher ----------------------------------------------------------

  /** TRUE, FALSE and ABORT. */
  datatype Verdict = True | False | Abort

  /** Read a bracket class whose opening bracket stands at p[start], for the
      character c. end is the position of the closing bracket. */
  method ScanClass(p: seq<schar>, start: nat, c: schar) returns (matched: bool, reverse: bool, end: nat)
    requires start < |p| && p[start] == OPEN && ClassOf(p[start + 1..]).Some?
    ensures start < end < |p| && p[end + 1..] == ClassOf(p[start + 1..]).value.1
    ensures var item := ClassOf(p[start + 1..]).value.0;
            item.Class? && reverse == item.negated && (matched <==> InSpans(c, item.spans))
  {
    hide ClassOf;
    hide ClassBody;
    hide InSpans;
    ClassStart(p, start, c);
    ghost var item, rest := ClassOf(p[start + 1..]).value.0, ClassOf(p[start + 1..]).value.1;
    var i := start;
    reverse := p[i + 1] == CARET;
    if reverse {
      i := i + 1;
    }
    matched := false;
    if i + 1 < |p| && (p[i + 1] == CLOSE || p[i + 1] == DASH) {
      i := i + 1;
      if p[i] == c {
        matched := true;
      }
    }
    var hit;
    hit, end := ScanBody(p, i + 1, p[i], c);
    matched := matched || hit;
  }

  /** The characters and ranges of a class, up to its closing bracket. */
  method ScanBody(p: seq<schar>, start: nat, last0: schar, c: schar) returns (matched: bool, end: nat)
    requires start <= |p| && ClassBody(p[start..], last0).Some?
    ensures start <= end < |p| && p[end + 1..] == ClassBody(p[start..], last0).value.1
    ensures matched <==> InSpans(c, ClassBody(p[start..], last0).value.0)
  {
    hide ClassBody;
    hide InSpans;
    ghost var spans, rest := ClassBody(p[start..], last0).value.0, ClassBody(p[start..], last0).value.1;
    var i, last := start, last0;
    matched := false;
    BodyStep(p, i, last, c);
    while p[i] != CLOSE
      invariant start <= i < |p| && ClassBody(p[i..], last).Some? && ClassBody(p[i..], last).value.1 == rest
      invariant InSpans(c, spans) <==> matched || InSpans(c, ClassBody(p[i..], last).value.0)
      invariant p[i] == DASH ==> i + 1 < |p|
      decreases |p| - i
    {
      BodyStep(p, i, last, c);
      if p[i] == DASH && p[i + 1] != CLOSE {
        i := i + 1;
        if c <= p[i] && c >= last {
          matched := true;
        }
      } else if c == p[i] {
        matched := true;
      }
      last := p[i];
      i := i + 1;
      BodyStep(p, i, last, c);
    }
    BodyStep(p, i, last, c);
    end := i;
  }

  /** The first item of the pattern at position i, by its character. */
  lemma ItemAt(p: seq<schar>, i: nat)
    requires i < |p| && Items(p[i..]).Some?
    ensures FirstItem(p[i..]).Some?
    ensures var (item, rest) := FirstItem(p[i..]).value;
            Items(rest).Some? && Items(p[i..]).value == [item] + Items(rest).value
            && (p[i] == STAR <==> item == AnyString)
            && (p[i] == STAR || p[i] == QUERY ==> rest == p[i + 1..])
            && (p[i] == QUERY ==> item == AnyChar)
            && (p[i] == BACKSLASH ==> if i + 1 == |p| then item == Dead else item == Literal(p[i + 1]) && rest == p[i + 2..])
            && (p[i] == OPEN ==> ClassOf(p[i + 1..]) == Some((item, rest)))
            && (p[i] !in [STAR, QUERY, BACKSLASH, OPEN] ==> item == Literal(p[i]) && rest == p[i + 1..])
  {
    var q := p[i..];
    assert q[0] == p[i] && q[1..] == p[i + 1..];
    assert |q| > 1 ==> q[1] == p[i + 1] && q[2..] == p[i + 2..];
    if q[0] == OPEN {
      ClassStart(p, i, 0);
    }
  }

  /** DoMatch: True exactly when the pattern matches the text. Abort promises that
      it matches no suffix of the text either. False means that no further
      instance was called, and there are at most |text| + 1 calls in all. */
  method DoMatch(text: seq<schar>, p: seq<schar>) returns (r: Verdict, ghost calls: nat)
    requires Items(p).Some?
    ensures r == True <==> Matches(Items(p).value, text)
    ensures r == Abort ==> NoSuffix(Items(p).value, text, 0)
    ensures r == False ==> calls == 1
    ensures calls <= |text| + 1
    ensures text != [] && (p == [] || p[0] != STAR) ==> calls <= |text|
    decreases |p|, 1
  {
    hide Items;
    hide FirstItem;
    hide Used;
    hide ClassOf;
    hide InSpans;
    ghost var items := Items(p).value;
    var t, i := 0, 0;
    calls := 1;
    UsedNone(items, text);
    assert p[0..] == p;
    while i < |p|
      invariant i <= |p| && t <= |text| && (i > 0 ==> t > 0)
      invariant Items(p[i..]).Some? && Used(items, Items(p[i..]).value, text, t)
      decreases |p| - i
    {
      ItemAt(p, i);
      ghost var item, rest := FirstItem(p[i..]).value.0, FirstItem(p[i..]).value.1;
      if t == |text| && p[i] != STAR {
        TextOver(items, Items(p[i..]).value, text);
        return Abort, calls;
      }
      if p[i] == STAR {
        r, calls := DoStar(text, p, t, i + 1, items);
        return;
      }
      if p[i] == OPEN {
        var matched, reverse, end := ScanClass(p, i, text[t]);
        if matched == reverse {
          Mismatch(items, Items(p[i..]).value, text, t);
          return False, calls;
        }
        i := end;
      } else if p[i] != QUERY {
        if p[i] == BACKSLASH {
          i := i + 1;
        }
        if i == |p| || text[t] != p[i] {
          Mismatch(items, [item] + Items(rest).value, text, t);
          return False, calls;
        }
      }
      UsedOne(items, [item] + Items(rest).value, text, t);
      t, i := t + 1, i + 1;
    }
    EmptyRest(p, i, text);
    PatternOver(items, text, t);
    r := if t == |text| then True else False;
  }

  /** The star case of DoMatch, entered behind the star with t characters used:
      try the rest of the pattern on every suffix until one instance does not
      return False. */
  method DoStar(text: seq<schar>, p: seq<schar>, t: nat, i0: nat, ghost items: seq<Item>)
    returns (r: Verdict, ghost calls: nat)
    requires 0 < i0 <= |p| && t <= |text| && Items(p[i0..]).Some?
    requires Used(items, [AnyString] + Items(p[i0..]).value, text, t)
    ensures r == (if Matches(items, text) then True else Abort)
    ensures r == Abort ==> NoSuffix(items, text, 0)
    ensures calls <= |text| - t + 1
    decreases |p|, 0
  {
    hide Items;
    hide FirstItem;
    hide Used;
    hide Matches;
    var i := i0;
    calls := 1;
    while i < |p| && p[i] == STAR
      invariant 0 < i <= |p| && Items(p[i..]).Some? && Used(items, [AnyString] + Items(p[i..]).value, text, t)
    {
      ItemAt(p, i);
      SkipStar(items, Items(p[i..]).value, text, t);
      assert ([AnyString] + Items(p[i + 1..]).value)[1..] == Items(p[i + 1..]).value;
      i := i + 1;
    }
    ghost var rest := Items(p[i..]).value;
    if i == |p| {
      EmptyRest(p, i, text);
      StarHit(items, rest, text, t, |text|);
      return True, calls;
    }
    ItemAt(p, i);
    var j := t;
    while j < |text|
      invariant t <= j <= |text| && calls == 1 + j - t
      invariant forall k | t <= k < j :: !Matches(rest, text[k..])
    {
      ghost var c;
      r, c := DoMatch(text[j..], p[i..]);
      calls := calls + c;
      if r == True {
        StarHit(items, rest, text, t, j);
        return;
      }
      if r == Abort {
        NoLaterSuffix(rest, text, t, j);
        StarMiss(items, rest, text, t);
        NoSuffixItself(items, text);
        return;
      }
      j := j + 1;
    }
    NeedsText(rest);
    assert text[|text|..] == [];
    StarMiss(items, rest, text, t);
    NoSuffixItself(items, text);
    return Abort, calls;
  }

  lemma EmptyRest(p: seq<schar>, i: nat, text: seq<schar>)
    requires i == |p|
    ensures Items(p[i..]) == Some([]) && Matches([], text[|text|..])
  {
  }

  lemma NeedsText(items: seq<Item>)
    requires items != [] && items[0] != AnyString
    ensures !Matches(items, [])
  {
  }

  lemma NoSuffixItself(items: seq<Item>, text: seq<schar>)
    requires NoSuffix(items, text, 0)
    ensures !Matches(items, text)
  {
    assert text[0..] == text;
  }

  lemma NoLaterSuffix(items: seq<Item>, text: seq<schar>, t: nat, j: nat)
    requires t <= j <= |text| && NoSuffix(items, text[j..], 0)
    requires forall k | t <= k < j :: !Matches(items, text[k..])
    ensures NoSuffix(items, text, t)
  {
    forall k | t <= k <= |text| ensures !Matches(items, text[k..]) {
      if k >= j {
        assert text[j..][k - j..] == text[k..];
      }
    }
  }

  /** Wld_match: a lone star is answered at once, anything else by DoMatch. */
  method WldMatch(text: seq<schar>, pattern: seq<schar>) returns (r: bool)
    requires Items(pattern).Some?
    ensures r <==> Matches(Items(pattern).value, text)
  {
    if |pattern| == 1 && pattern[0] == STAR {
      ItemAt(pattern, 0);
      assert pattern[0..] == pattern;
      EmptyRest(pattern, 1, text);
      return true;
    }
    var v;
    ghost var calls;
    v, calls := DoMatch(text, pattern);
    r := v == True;
  }
}
