/** Folding a long header line (database.c) and putting a folded one together again (util.c). */
module Header {
  import opened Wrappers
  import Pieces

  const BLANKS := " \t\n\U{b}\U{c}\r"
  const NUL := '\0'
  const MAXCHAR := 2048
  const WIDTH := 78

  predicate Blank(c: char) {
    c in BLANKS
  }

  /** The words of a text: its maximal pieces without blanks. */
  function Words(s: string): seq<string> {
    Pieces.Of(s, BLANKS)
  }

  /** A string from its first character that is not blank. */
  function Skip(s: string): (r: string)
    ensures |r| <= |s| && r == s[|s| - |r|..]
    ensures forall k :: 0 <= k < |s| - |r| ==> Blank(s[k])
    ensures r != "" ==> !Blank(r[0])
  {
    s[Pieces.Start(s, BLANKS, 0)..]
  }

  // ---------- where a line is broken ----------

  /** A run of blanks begins at q. */
  predicate RunStart(s: string, q: nat) {
    q < |s| && Blank(s[q]) && (q == 0 || !Blank(s[q - 1]))
  }

  /** The break after p characters of s, for a wanted length: at a run of blanks or at the end;
      behind the wanted length only if nothing could be broken off before; and before the end
      only if s is too long and the next break would lie behind the wanted length. */
  ghost predicate BreakAt(s: string, wanted: int, p: nat) {
    && p <= |s|
    && (p > wanted ==> forall q :: 0 <= q < p ==> !RunStart(s, q))
    && (p < |s| ==> RunStart(s, p) && |s| > wanted && forall q :: p < q < |s| && RunStart(s, q) ==> q > wanted)
  }

  /** There is only one such break. */
  lemma BreakUnique(s: string, wanted: int, p: nat, q: nat)
    requires BreakAt(s, wanted, p) && BreakAt(s, wanted, q)
    ensures p == q
  {
  }

  ghost function FirstRun(s: string, i: nat): (q: nat)
    requires i <= |s|
    ensures i <= q <= |s| && (q < |s| ==> RunStart(s, q))
    ensures forall k :: i <= k < q ==> !RunStart(s, k)
    decreases |s| - i
  {
    if i == |s| || RunStart(s, i) then i else FirstRun(s, i + 1)
  }

  ghost function LastRun(s: string, n: nat): (r: Option<nat>)
    ensures r.Some? ==> r.value < n && RunStart(s, r.value)
    ensures forall k :: (if r.Some? then r.value + 1 else 0) <= k < n ==> !RunStart(s, k)
  {
    if n == 0 then None else if RunStart(s, n - 1) then Some(n - 1) else LastRun(s, n - 1)
  }

  /** The break: at the end of what fits, or else at the last run of blanks that begins within
      the wanted length, or else behind the first word. */
  ghost function Break(s: string, wanted: int): (p: nat)
    ensures BreakAt(s, wanted, p)
  {
    if |s| <= wanted then |s|
    else
      match LastRun(s, if wanted < 0 then 0 else wanted + 1)
      case Some(q) => q
      case None => FirstRun(s, 0)
  }

  /** The last run of blanks that began before p. */
  ghost predicate IsLastRun(s: string, wanted: int, r: nat, p: nat) {
    && r < p && RunStart(s, r)
    && (forall q :: r < q < p ==> !RunStart(s, q))
    && (r > wanted ==> forall q :: 0 <= q < r ==> !RunStart(s, q))
  }

  method SearchBreakPos(line: string, wanted: int) returns (p: nat)
    ensures BreakAt(line, wanted, p) && p == Break(line, wanted)
  {
    p := FindBreak(line, wanted);
    BreakUnique(line, wanted, p, Break(line, wanted));
  }

  method FindBreak(line: string, wanted: int) returns (p: nat)
    ensures BreakAt(line, wanted, p)
  {
    var lastSpace: Option<nat> := None;
    var lastWasSpace := false;
    p := 0;
    while p < |line|
      invariant p <= |line|
      invariant lastWasSpace == (p > 0 && Blank(line[p - 1]))
      invariant lastSpace.None? ==> forall q :: 0 <= q < p ==> !RunStart(line, q)
      invariant lastSpace.Some? ==> IsLastRun(line, wanted, lastSpace.value, p)
    {
      if Blank(line[p]) {
        if p > wanted && lastSpace.Some? {
          return lastSpace.value;
        }
        if !lastWasSpace {
          lastSpace := Some(p);
        }
        lastWasSpace := true;
      } else {
        lastWasSpace := false;
      }
      p := p + 1;
    }
    if p > wanted && lastSpace.Some? {
      return lastSpace.value;
    }
  }

  // ---------- folding ----------

  /** The pieces a value is folded into, for the wanted length of the first one. */
  ghost function Fold(value: string, wanted: int): (pieces: seq<string>)
    ensures pieces != []
    decreases |value|
  {
    var s := Skip(value);
    var p := Break(s, wanted);
    if p == |s| then [s] else [s[..p]] + Fold(s[p..], WIDTH - 1)
  }

  /** The pieces as they stand in the text: a new line and a blank between two of them. */
  function Lines(pieces: seq<string>): string
    requires pieces != []
  {
    if |pieces| == 1 then pieces[0] + "\n" else pieces[0] + "\n " + Lines(pieces[1..])
  }

  class DynStr {
    var text: string

    constructor ()
      ensures text == ""
    {
      text := "";
    }

    method Append(s: string)
      modifies this
      ensures text == old(text) + s
    {
      text := text + s;
    }
  }

  lemma LinesOfFold(value: string, wanted: int)
    ensures var s := Skip(value);
      var p := Break(s, wanted);
      Lines(Fold(value, wanted)) ==
        if p == |s| then s + "\n" else s[..p] + "\n " + Lines(Fold(s[p..], WIDTH - 1))
  {
    hide Break;
    var s := Skip(value);
    var p := Break(s, wanted);
    if p < |s| {
      assert Fold(value, wanted)[1..] == Fold(s[p..], WIDTH - 1);
    }
  }

  lemma Associates(a: string, b: string, c: string, d: string)
    ensures a + b + c + d == a + (b + c + d)
  {
  }

  /** Appends one line of the folded value and begins the next one, unless nothing is left. */
  method AppendPiece(target: DynStr, value: string, wanted: int) returns (done: bool, rest: string)
    modifies target
    ensures done ==> target.text == old(target.text) + Lines(Fold(value, wanted))
    ensures !done ==> |rest| < |value|
    ensures !done ==> target.text + Lines(Fold(rest, WIDTH - 1)) == old(target.text) + Lines(Fold(value, wanted))
  {
    hide Fold;
    hide Lines;
    hide Skip;
    hide Break;
    hide BreakAt;
    LinesOfFold(value, wanted);
    var s := Skip(value);
    var p := SearchBreakPos(s, wanted);
    FoldStep(value, wanted, s, p);
    target.Append(s[..p]);
    if p == |s| {
      target.Append("\n");
      assert s[..p] == s;
      Associates(old(target.text), s, "\n", "");
      return true, "";
    }
    target.Append("\n ");
    rest := s[p..];
    Associates(old(target.text), s[..p], "\n ", Lines(Fold(rest, WIDTH - 1)));
    done := false;
  }

  /** A header as it is written. */
  ghost function FoldedHeader(field: string, value: string): string {
    field + " " + Lines(Fold(value, WIDTH - |field| - 1))
  }

  /** Appends the header: its name, a blank, and the value folded to lines of the wanted width. */
  method AppendLongHeader(target: DynStr, field: string, value: string)
    modifies target
    ensures target.text == old(target.text) + FoldedHeader(field, value)
  {
    hide Fold;
    hide Lines;
    target.Append(field);
    target.Append(" ");
    Associates(old(target.text), field, " ", Lines(Fold(value, WIDTH - |field| - 1)));
    ghost var all := target.text + Lines(Fold(value, WIDTH - |field| - 1));
    var done, rest := AppendPiece(target, value, WIDTH - |field| - 1);
    while !done
      invariant all == if done then target.text else target.text + Lines(Fold(rest, WIDTH - 1))
      decreases !done, |rest|
    {
      done, rest := AppendPiece(target, rest, WIDTH - 1);
    }
  }

  // ---------- what folding keeps ----------

  /** A line begins with a word, and is broken off behind one. */
  predicate Begins(x: string) {
    x == "" || !Blank(x[0])
  }

  predicate Ends(x: string) {
    x == "" || !Blank(x[|x| - 1])
  }

  lemma {:induction false} NoBlank(s: string, p: nat, k: nat)
    requires k < p <= |s| && Begins(s) && forall q :: 0 <= q < p ==> !RunStart(s, q)
    ensures !Blank(s[k])
  {
    if k > 0 {
      NoBlank(s, p, k - 1);
      assert !RunStart(s, k);
    }
  }

  predicate OneWord(x: string) {
    forall c <- x :: !Blank(c)
  }

  lemma FoldStep(value: string, wanted: int, s: string, p: nat)
    requires s == Skip(value) && p == Break(s, wanted)
    ensures p <= |s| && (p == 0 ==> s == "")
    ensures p == |s| ==> Fold(value, wanted) == [s]
    ensures p < |s| ==> Blank(s[p]) && |s[p..]| < |value| && Fold(value, wanted) == [s[..p]] + Fold(s[p..], WIDTH - 1)
    ensures p <= wanted || OneWord(s[..p])
  {
    assert BreakAt(s, wanted, p);
    hide Break;
    if p > wanted {
      forall j | 0 <= j < p ensures !Blank(s[j]) {
        NoBlank(s, p, j);
      }
      assert forall c :: c in s[..p] ==> !Blank(c);
    }
  }

  /** A line that fits the limit or is a single word. */
  predicate LineFits(x: string, limit: int) {
    Begins(x) && (|x| <= limit || OneWord(x))
  }

  /** Every line is within the wanted length or is a single word. */
  lemma {:induction false} FoldFits(value: string, wanted: int, k: nat)
    requires k < |Fold(value, wanted)|
    ensures LineFits(Fold(value, wanted)[k], if k == 0 then wanted else WIDTH - 1)
    decreases |value|
  {
    hide *;
    var s := Skip(value);
    var p := Break(s, wanted);
    FoldStep(value, wanted, s, p);
    FirstFits(value, wanted);
    if k > 0 {
      FoldFits(s[p..], WIDTH - 1, k - 1);
    }
  }

  lemma FirstFits(value: string, wanted: int)
    ensures LineFits(Fold(value, wanted)[0], wanted)
  {
    var s := Skip(value);
    var p := Break(s, wanted);
    FoldStep(value, wanted, s, p);
    hide Skip;
    hide Fold;
    hide Break;
    assert s[..|s|] == s;
  }

  /** The lines hold nothing but characters of the value. */
  lemma {:induction false} FoldChars(value: string, wanted: int, c: char)
    requires c !in value
    ensures forall x <- Fold(value, wanted) :: c !in x
    decreases |value|
  {
    var s := Skip(value);
    var p := Break(s, wanted);
    FoldStep(value, wanted, s, p);
    assert c !in s && c !in s[..p] && c !in s[p..];
    hide Skip;
    hide Fold;
    hide Break;
    if p < |s| {
      FoldChars(s[p..], WIDTH - 1, c);
    }
  }

  function AllWords(pieces: seq<string>): seq<string> {
    if pieces == [] then [] else Words(pieces[0]) + AllWords(pieces[1..])
  }

  lemma WordsOfSkip(value: string)
    ensures Words(value) == Words(Skip(value))
  {
    hide Skip;
    hide Pieces.Of;
    var s := Skip(value);
    var b := value[..|value| - |s|];
    assert value == b + s;
    LeadingBlanks(b, s);
  }

  lemma LeadingBlanks(b: string, s: string)
    requires forall k :: 0 <= k < |b| ==> Blank(b[k])
    ensures Words(b + s) == Words(s)
  {
    hide Pieces.Of;
    Pieces.OfConcat(b, s, BLANKS);
    Pieces.NoPieces(b, BLANKS);
    assert [] + Pieces.Of(s, BLANKS) == Pieces.Of(s, BLANKS);
  }

  lemma AllWordsCons(x: string, g: seq<string>)
    ensures AllWords([x] + g) == Words(x) + AllWords(g)
    ensures AllWords([x]) == Words(x)
  {
    hide Words;
    assert ([x] + g)[1..] == g;
    assert Words(x) + [] == Words(x);
  }

  /** Folding keeps the words of a value. */
  lemma {:induction false} FoldWords(value: string, wanted: int)
    ensures AllWords(Fold(value, wanted)) == Words(value)
    decreases |value|
  {
    hide *;
    var s := Skip(value);
    var p := Break(s, wanted);
    FoldStep(value, wanted, s, p);
    WordsOfSkip(value);
    if p < |s| {
      FoldWords(s[p..], WIDTH - 1);
      SplitWords(s, p);
      AllWordsCons(s[..p], Fold(s[p..], WIDTH - 1));
    } else {
      AllWordsCons(s, []);
    }
  }

  lemma SplitWords(s: string, p: nat)
    requires p < |s| && Blank(s[p])
    ensures Words(s) == Words(s[..p]) + Words(s[p..])
  {
    assert s == s[..p] + s[p..];
    Pieces.OfConcat(s[..p], s[p..], BLANKS);
  }

  /** How many characters the pieces take with one more between two of them. */
  function Size(pieces: seq<string>): nat {
    if pieces == [] then 0 else |pieces[0]| + 1 + Size(pieces[1..])
  }

  lemma SkipShortens(value: string)
    requires value != "" && Blank(value[0])
    ensures |Skip(value)| < |value|
  {
  }

  /** With the breaks, the pieces take no more room than the value. */
  lemma {:induction false} FoldSize(value: string, wanted: int)
    ensures Size(Fold(value, wanted)) <= |Skip(value)| + 1
    decreases |value|
  {
    var s := Skip(value);
    var p := Break(s, wanted);
    FoldStep(value, wanted, s, p);
    hide Fold;
    hide Break;
    hide Skip;
    hide Blank;
    if p < |s| {
      var g := Fold(s[p..], WIDTH - 1);
      FoldSize(s[p..], WIDTH - 1);
      SkipShortens(s[p..]);
      assert ([s[..p]] + g)[1..] == g;
    }
  }

  predicate OnlyLastEmpty(f: seq<string>) {
    forall k :: 0 <= k < |f| - 1 ==> f[k] != ""
  }

  /** The text of these pieces ends in a word, or there is none in it. */
  predicate LastEnds(f: seq<string>) {
    f != [] && Ends(f[|f| - 1]) && (|f| == 1 || f[|f| - 1] != "")
  }

  lemma EndsStay(value: string, p: nat)
    requires Ends(value) && p <= |Skip(value)|
    ensures Ends(Skip(value)) && Ends(Skip(value)[p..])
  {
  }

  lemma OneShape(s: string)
    ensures OnlyLastEmpty([s]) && (Ends(s) ==> LastEnds([s]))
  {
  }

  lemma NotEmpty(s: string, p: nat)
    requires p <= |s|
    ensures p > 0 ==> s[..p] != ""
    ensures p < |s| ==> s[p..] != ""
  {
  }

  lemma ConsShape(x: string, g: seq<string>)
    requires x != "" && g != [] && OnlyLastEmpty(g)
    ensures OnlyLastEmpty([x] + g)
    ensures LastEnds(g) && g[0] != "" ==> LastEnds([x] + g)
  {
    var f := [x] + g;
    assert f[|f| - 1] == g[|g| - 1];
  }

  /** Only the last piece can be empty, and behind another one only if the value ends with a blank. */
  lemma {:induction false} FoldShape(value: string, wanted: int)
    ensures OnlyLastEmpty(Fold(value, wanted))
    ensures Ends(value) ==> LastEnds(Fold(value, wanted))
    decreases |value|
  {
    hide *;
    var s := Skip(value);
    var p := Break(s, wanted);
    FoldStep(value, wanted, s, p);
    if Ends(value) {
      EndsStay(value, p);
    }
    if p == |s| {
      OneShape(s);
    } else {
      NotEmpty(s, p);
      FoldShape(s[p..], WIDTH - 1);
      if Ends(value) {
        LastNotEmpty(s[p..], WIDTH - 1);
      }
      ConsShape(s[..p], Fold(s[p..], WIDTH - 1));
    }
  }

  lemma LastNotEmpty(value: string, wanted: int)
    requires value != "" && Ends(value)
    ensures Fold(value, wanted)[0] != ""
  {
    var s := Skip(value);
    FoldStep(value, wanted, s, Break(s, wanted));
    assert s != "";
  }

  // ---------- reading lines ----------

  /** Nothing, or whole lines. */
  predicate WholeLines(s: string) {
    NUL !in s && (s == "" || s[|s| - 1] == '\n')
  }

  /** The first line of a text and what is behind it. A line that fills the buffer is cut,
      and the character behind the cut is passed over. */
  function FirstLine(s: string): (r: (string, string))
    requires WholeLines(s) && s != ""
    ensures WholeLines(r.1) && |r.1| < |s|
    ensures '\n' !in r.0 && NUL !in r.0 && |r.0| <= MAXCHAR - 1
  {
    var e := Pieces.End(s, "\n", 0);
    if e < MAXCHAR - 1 then (s[..e], s[e + 1..]) else (s[..MAXCHAR - 1], s[MAXCHAR..])
  }

  /** What the reader knows once it has found no newline in p..q. */
  lemma LineSoFar(text: string, p: nat, q: nat)
    requires p <= q <= |text| && '\n' !in text[p..q]
    ensures Pieces.End(text, "\n", p) >= q
    ensures q == |text| || text[q] == '\n' ==> Pieces.End(text, "\n", p) == q
    ensures p < |text| && WholeLines(text[p..]) ==> q < |text|
    ensures p < q <= |text| && q - p == MAXCHAR - 1 && WholeLines(text[p..]) ==>
      FirstLine(text[p..]) == (text[p..q], text[q + 1..])
    ensures q < |text| && text[q] == '\n' && q - p < MAXCHAR - 1 && WholeLines(text[p..]) ==>
      FirstLine(text[p..]) == (text[p..q], text[q + 1..])
  {
    hide FirstLine;
    hide WholeLines;
    hide Pieces.End;
    EndBehind(text, p, q);
    if p < |text| && WholeLines(text[p..]) {
      Slices(text, p, q);
      HasEnd(text[p..], q - p);
      if q - p == MAXCHAR - 1 || (q < |text| && text[q] == '\n' && q - p < MAXCHAR - 1) {
        FirstLineAt(text[p..], q - p);
      }
    }
  }

  lemma EndBehind(text: string, p: nat, q: nat)
    requires p <= q <= |text| && '\n' !in text[p..q]
    ensures Pieces.End(text, "\n", p) >= q
    ensures q == |text| || text[q] == '\n' ==> Pieces.End(text, "\n", p) == q
  {
    hide Pieces.End;
    assert forall k :: p <= k < q ==> text[k] == text[p..q][k - p];
  }

  lemma Slices(text: string, p: nat, q: nat)
    requires p <= q <= |text|
    ensures text[p..][..q - p] == text[p..q]
    ensures q < |text| ==> text[p..][q - p] == text[q] && text[p..][q + 1 - p..] == text[q + 1..]
  {
  }

  lemma HasEnd(s: string, n: nat)
    requires WholeLines(s) && s != "" && n <= |s| && '\n' !in s[..n]
    ensures n < |s|
  {
    assert s[|s| - 1] in s && s[..|s|] == s;
  }

  lemma FirstLineAt(s: string, n: nat)
    requires WholeLines(s) && n < |s| && '\n' !in s[..n]
    requires n == MAXCHAR - 1 || (s[n] == '\n' && n < MAXCHAR - 1)
    ensures FirstLine(s) == (s[..n], s[n + 1..])
  {
    hide Pieces.End;
    EndBehind(s, 0, n);
    assert s[0..n] == s[..n];
  }

  method GetLn(text: string, p: nat) returns (result: string, next: Option<nat>)
    requires p <= |text| && NUL !in text
    ensures next.Some? ==> p < next.value <= |text| + 1
    ensures next.None? <==> (var e := Pieces.End(text, "\n", p); e == |text| && e - p < MAXCHAR - 1)
    ensures WholeLines(text[p..]) && p < |text| ==>
      next.Some? && next.value <= |text| && (result, text[next.value..]) == FirstLine(text[p..])
  {
    hide FirstLine;
    hide WholeLines;
    hide Pieces.End;
    var len := 0;
    var q := p;
    result := "";
    while q == |text| || text[q] != '\n'
      invariant p <= q <= |text| && q == p + len && len < MAXCHAR - 1
      invariant result == text[p..q] && '\n' !in result
      decreases |text| - q
    {
      LineSoFar(text, p, q);
      if q == |text| {
        return result, None;
      }
      result := result + [text[q]];
      q := q + 1;
      len := len + 1;
      assert result == text[p..q];
      if len >= MAXCHAR - 1 {
        LineSoFar(text, p, q);
        return result, Some(q + 1);
      }
    }
    LineSoFar(text, p, q);
    next := Some(q + 1);
  }

  // ---------- stripping blanks ----------

  /** A string up to its last character that is not blank. */
  function Chop(s: string): (r: string)
    ensures r <= s && Ends(r)
    ensures forall k :: |r| <= k < |s| ==> Blank(s[k])
  {
    if s == "" || !Blank(s[|s| - 1]) then s else Chop(s[..|s| - 1])
  }

  function Strip(s: string): string {
    Chop(Skip(s))
  }

  lemma {:induction false} ChopIs(s: string, n: nat)
    requires n <= |s| && Ends(s[..n])
    requires forall k :: n <= k < |s| ==> Blank(s[k])
    ensures Chop(s) == s[..n]
  {
  }

  /** The string s stands at `start`. */
  ghost predicate Holds(mem: seq<char>, start: nat, s: string) {
    && NUL !in s
    && start + |s| < |mem|
    && (forall j :: 0 <= j < |s| ==> mem[start + j] == s[j])
    && mem[start + |s|] == NUL
  }

  predicate AllBlank(s: string) {
    forall k :: 0 <= k < |s| ==> Blank(s[k])
  }

  /** Overwrites the blanks from the end of the string s at `start` back to its last other
      character. When s is all blanks, the walk goes on in front of s. */
  method ChopInPlace(mem: array<char>, start: nat, len: nat, ghost s: string)
    requires Holds(mem[..], start, s) && |s| == len
    requires AllBlank(s) ==> 0 < start && !Blank(mem[start - 1])
    modifies mem
    ensures Holds(mem[..], start, Chop(s))
    ensures forall k :: start + |Chop(s)| <= k <= start + len ==> mem[k] == NUL
  {
    hide Chop;
    var p := start + len - 1;
    while Blank(mem[p])
      invariant start - 1 <= p < start + len && (p < start ==> AllBlank(s))
      invariant forall k :: start <= k <= p ==> mem[k] == s[k - start]
      invariant forall k :: p < k <= start + len ==> mem[k] == NUL
      invariant forall j :: p + 1 - start <= j < len ==> Blank(s[j])
      invariant AllBlank(s) ==> 0 < start && !Blank(mem[start - 1])
      decreases p
    {
      mem[p] := NUL;
      p := p - 1;
    }
    ChopIs(s, p + 1 - start);
  }

  lemma StripIs(s: string, a: nat)
    requires a <= |s|
    requires forall k :: 0 <= k < a ==> Blank(s[k])
    requires a < |s| ==> !Blank(s[a])
    ensures if a < |s| then a < |Chop(s)| && Strip(s) == Chop(s)[a..] else Chop(s) == "" == Strip(s)
  {
    hide Chop;
    hide Pieces.Start;
    Pieces.StartIs(s, BLANKS, 0, a);
    var c := Chop(s);
    assert Skip(s) == s[a..];
    hide Skip;
    hide Blank;
    if a < |s| {
      ChopIs(s[a..], |c| - a);
      assert s[a..][..|c| - a] == c[a..];
    } else {
      ChopIs(s, 0);
    }
  }

  lemma BlankLine(s: string)
    ensures AllBlank(s) ==> Strip(s) == ""
  {
    if AllBlank(s) {
      StripIs(s, |s|);
    }
  }

  lemma HoldsAt(mem: seq<char>, start: nat, s: string, k: nat)
    requires Holds(mem, start, s) && start <= k <= start + |s|
    ensures k < |mem| && (mem[k] == NUL <==> k == start + |s|)
    ensures k < start + |s| ==> mem[k] == s[k - start]
    ensures !Blank(NUL)
  {
    var j := k - start;
    assert k == start + j;
    assert j < |s| ==> s[j] in s;
  }

  lemma HoldsNothing(mem: seq<char>, start: nat)
    requires start < |mem| && mem[start] == NUL
    ensures Holds(mem, start, "")
  {
  }

  lemma HoldsFrom(mem: seq<char>, start: nat, s: string, a: nat)
    requires Holds(mem, start, s) && a <= |s|
    ensures Holds(mem, start + a, s[a..])
  {
  }

  /** The first place from `start` on that does not hold a blank. */
  method PassBlanks(mem: array<char>, start: nat, ghost s: string) returns (line: nat)
    requires Holds(mem[..], start, s)
    ensures start <= line <= start + |s| && (line < start + |s| ==> !Blank(s[line - start]))
    ensures forall j :: 0 <= j < line - start ==> Blank(s[j])
  {
    ghost var end := start + |s|;
    HoldsAt(mem[..], start, s, end);
    HoldsAt(mem[..], start, s, start);
    hide Holds;
    line := start;
    while Blank(mem[line])
      invariant start <= line <= end && (line < end ==> mem[line] == s[line - start])
      invariant forall j :: 0 <= j < line - start ==> Blank(s[j])
      decreases end - line
    {
      HoldsAt(mem[..], start, s, line + 1);
      line := line + 1;
    }
  }

  /** strlen of what is left of the string s from `line` on. */
  method Strlen(mem: array<char>, ghost start: nat, line: nat, ghost s: string) returns (len: nat)
    requires Holds(mem[..], start, s) && start <= line <= start + |s|
    ensures line + len == start + |s|
  {
    HoldsAt(mem[..], start, s, line);
    hide Holds;
    len := 0;
    while mem[line + len] != NUL
      invariant line + len <= start + |s| < mem.Length
      decreases start + |s| - line - len
    {
      HoldsAt(mem[..], start, s, line + len);
      len := len + 1;
    }
    HoldsAt(mem[..], start, s, line + len);
  }

  /** Strips the string s at `start` in place and returns where it begins then. Only when s is
      all blanks is the character in front of it looked at, and must not be a blank then. */
  method StripWhiteSpace(mem: array<char>, start: nat, ghost s: string) returns (line: nat)
    requires Holds(mem[..], start, s)
    requires AllBlank(s) ==> 0 < start && !Blank(mem[start - 1])
    modifies mem
    ensures start <= line && Holds(mem[..], line, Strip(s))
  {
    hide Strip;
    hide Holds;
    line := PassBlanks(mem, start, s);
    var len := Strlen(mem, start, line, s);
    HoldsAt(mem[..], start, s, start + |s|);
    StripIs(s, line - start);
    ChopInPlace(mem, start, line + len - start, s);
    if line < start + |s| {
      HoldsFrom(mem[..], start, Chop(s), line - start);
    } else {
      HoldsNothing(mem[..], line);
    }
  }

  // ---------- putting a folded line together ----------

  /** What strncat makes of a string and another one. A result of MAXCHAR characters has its
      end of string one character behind the buffer. */
  function CatStr(dst: string, src: string): (r: string)
    requires |dst| <= MAXCHAR
    ensures |r| <= MAXCHAR && (|r| == MAXCHAR <==> |dst| + |src| >= MAXCHAR)
    ensures |dst| + |src| <= MAXCHAR ==> r == dst + src
  {
    dst + src[..if |src| <= MAXCHAR - |dst| then |src| else MAXCHAR - |dst|]
  }

  /** The next line goes on with the one before. */
  predicate Continues(s: string) {
    s != "" && s[0] != '\n' && Blank(s[0])
  }

  /** The line with all lines that go on with it, and what is behind them; a line of blanks
      alone is left unread. */
  function Unfolded(line: string, s: string): (r: (string, string))
    requires WholeLines(s) && |line| <= MAXCHAR
    decreases |s|
  {
    if !Continues(s) then (line, s)
    else
      var f := FirstLine(s);
      var x := Strip(f.0);
      if x == "" then (line, s) else Unfolded(CatStr(CatStr(line, " "), x), f.1)
  }

  /** A header line, put together, and what is behind it. */
  function HeaderLine(s: string): Option<(string, string)>
    requires WholeLines(s)
  {
    if s == "" then None
    else
      var f := FirstLine(s);
      if f.0 == "" || Blank(f.0[0]) then Some(f) else Some(Unfolded(f.0, f.1))
  }

  method GetHeaderLn(text: string, p: nat, before: char) returns (result: string, res: Option<nat>)
    requires p <= |text| && NUL !in text && WholeLines(text[p..])
    requires Blank(before) && HeaderLine(text[p..]).Some? ==> !Continues(HeaderLine(text[p..]).value.1)
    ensures res.None? <==> HeaderLine(text[p..]).None?
    ensures res.Some? ==> res.value <= |text| && HeaderLine(text[p..]) == Some((result, text[res.value..]))
  {
    hide Unfolded;
    hide FirstLine;
    hide Strip;
    result, res := GetLn(text, p);
    if p == |text| {
      return;
    }
    if result != "" && !Blank(result[0]) {
      var n := res.value;
      n, result := GetFollowOn(text, n, result, before);
      res := Some(n);
    }
  }

  /** Appends the lines that go on with `line`. */
  method GetFollowOn(text: string, p: nat, line: string, before: char) returns (n: nat, result: string)
    requires p <= |text| && NUL !in text && WholeLines(text[p..]) && |line| <= MAXCHAR
    requires Blank(before) ==> !Continues(Unfolded(line, text[p..]).1)
    ensures n <= |text| && WholeLines(text[n..]) && (result, text[n..]) == Unfolded(line, text[p..])
  {
    hide FirstLine;
    hide Strip;
    var mem := new char[MAXCHAR + 1];
    n, result := p, line;
    while n < |text| && text[n] != '\n' && Blank(text[n])
      invariant p <= n <= |text| && WholeLines(text[n..]) && |result| <= MAXCHAR
      invariant Unfolded(result, text[n..]) == Unfolded(line, text[p..])
      decreases |text| - n
    {
      var here := n;
      var nextLine, next := GetLn(text, n);
      BlankLine(nextLine);
      Fill(mem, before, nextLine);
      var i := StripWhiteSpace(mem, 1, nextLine);
      var x := StringAt(mem, i, Strip(nextLine));
      if x != "" {
        result := CatStr(CatStr(result, " "), x);
        n := next.value;
      } else {
        break;
      }
    }
  }

  /** The line as it stands in its buffer, behind the character in front of it. */
  method Fill(mem: array<char>, before: char, s: string)
    requires mem.Length == MAXCHAR + 1 && |s| < MAXCHAR && NUL !in s
    modifies mem
    ensures mem[0] == before && Holds(mem[..], 1, s)
  {
    mem[0] := before;
    forall k | 0 <= k < |s| {
      mem[k + 1] := s[k];
    }
    mem[|s| + 1] := NUL;
  }

  method StringAt(mem: array<char>, i: nat, ghost s: string) returns (r: string)
    requires Holds(mem[..], i, s)
    ensures r == s
  {
    HoldsAt(mem[..], i, s, i);
    hide Holds;
    r := "";
    while mem[i + |r|] != NUL
      invariant |r| <= |s| && r == s[..|r|]
      decreases |s| - |r|
    {
      HoldsAt(mem[..], i, s, i + |r|);
      r := r + [mem[i + |r|]];
    }
    HoldsAt(mem[..], i, s, i + |r|);
  }

  // ---------- folding and putting together again ----------

  predicate OneLine(x: string) {
    '\n' !in x && NUL !in x
  }

  lemma FirstLineIs(l: string, rest: string)
    requires OneLine(l) && |l| < MAXCHAR - 1 && WholeLines(rest)
    ensures WholeLines(l + "\n" + rest) && FirstLine(l + "\n" + rest) == (l, rest)
  {
    var s := l + "\n" + rest;
    Pieces.EndIs(s, "\n", 0, |l|);
    assert s[..|l|] == l && s[|l| + 1..] == rest;
  }

  lemma WordsOfChop(x: string)
    ensures Words(Chop(x)) == Words(x)
  {
    var c := Chop(x);
    assert x == c + x[|c|..];
    Pieces.OfConcat(c, x[|c|..], BLANKS);
    Pieces.NoPieces(x[|c|..], BLANKS);
  }

  lemma WordsOfCat(line: string, x: string)
    ensures Words(line + " " + x) == Words(line) + Words(x)
  {
    assert line + " " + x == line + (" " + x);
    Pieces.OfConcat(line, " " + x, BLANKS);
    Pieces.OfConcat(" ", x, BLANKS);
    Pieces.NoPieces(" ", BLANKS);
  }

  lemma StripLine(x: string)
    requires Begins(x)
    ensures Strip(" " + x) == Chop(x) && (Chop(x) == "" <==> x == "")
  {
    var s := " " + x;
    Pieces.StartIs(s, BLANKS, 0, 1);
    assert s[1..] == x;
  }

  lemma UnfoldOnce(line: string, s: string, l: string, rest: string)
    requires WholeLines(s) && Continues(s) && FirstLine(s) == (l, rest)
    requires |line| + 1 + |Strip(l)| <= MAXCHAR
    ensures Unfolded(line, s) == if Strip(l) == "" then (line, s) else Unfolded(line + " " + Strip(l), rest)
  {
    hide FirstLine;
    hide Strip;
    var x := Strip(l);
    assert CatStr(CatStr(line, " "), x) == line + " " + x;
  }

  /** One step of putting together: the line " " + x goes on with `line`. */
  lemma UnfoldStep(line: string, x: string, rest: string)
    requires OneLine(x) && Begins(x) && WholeLines(rest)
    requires |line| + |x| + 1 < MAXCHAR - 1
    ensures WholeLines(" " + x + "\n" + rest)
    ensures Unfolded(line, " " + x + "\n" + rest) ==
      if x == "" then (line, " \n" + rest) else Unfolded(line + " " + Chop(x), rest)
  {
    hide Unfolded;
    hide FirstLine;
    hide WholeLines;
    hide Chop;
    var s := " " + x + "\n" + rest;
    FirstLineIs(" " + x, rest);
    StripLine(x);
    hide Strip;
    assert s[0] == ' ' && Continues(s);
    UnfoldOnce(line, s, " " + x, rest);
    if x == "" {
      assert s == " \n" + rest;
    }
  }

  lemma LinesStep(f: seq<string>, rest: string)
    requires f != []
    ensures " " + Lines(f) + rest ==
      " " + f[0] + "\n" + if |f| == 1 then rest else " " + Lines(f[1..]) + rest
    ensures AllWords(f) == Words(f[0]) + AllWords(f[1..])
    ensures Size(f) == |f[0]| + 1 + Size(f[1..])
  {
    hide Words;
    if |f| > 1 {
      Regroup(" ", f[0], Lines(f[1..]), rest);
    } else {
      Associates(" ", f[0], "\n", rest);
    }
  }

  lemma WordsStep(line: string, x: string, g: seq<seq<char>>)
    ensures Words(line + " " + Chop(x)) + g == Words(line) + (Words(x) + g)
    ensures Words(line) + [] == Words(line)
  {
    WordsOfCat(line, Chop(x));
    WordsOfChop(x);
    hide Words;
  }

  /** The lines of folded pieces are read up to an empty last one, and their words with them. */
  lemma {:induction false} UnfoldPieces(line: string, f: seq<string>, rest: string)
    requires f != [] && OnlyLastEmpty(f)
    requires forall x <- f :: OneLine(x) && Begins(x)
    requires |line| + Size(f) < MAXCHAR - 1
    requires WholeLines(rest) && !Continues(rest)
    ensures WholeLines(" " + Lines(f) + rest)
    ensures var r := Unfolded(line, " " + Lines(f) + rest);
      && Words(r.0) == Words(line) + AllWords(f)
      && |r.0| <= |line| + Size(f)
      && r.1 == if f[|f| - 1] == "" then " \n" + rest else rest
    decreases |f|
  {
    hide Chop;
    hide Lines;
    hide Words;
    hide AllWords;
    hide Size;
    hide WholeLines;
    hide OneLine;
    hide Begins;
    var x, g := f[0], f[1..];
    assert x in f;
    LinesStep(f, rest);
    WordsStep(line, x, AllWords(g));
    if |f| == 1 {
      hide Continues;
      NoWords(g);
      UnfoldStep(line, x, rest);
    } else {
      hide Unfolded;
      hide Continues;
      assert forall y <- g :: y in f;
      UnfoldPieces(line + " " + Chop(x), g, rest);
      UnfoldStep(line, x, " " + Lines(g) + rest);
    }
  }

  lemma NoWords(f: seq<string>)
    requires f == []
    ensures AllWords(f) == [] && Words("") == []
  {
  }

  /** A header's name: it does not begin with a blank. */
  predicate IsField(field: string) {
    field != "" && !Blank(field[0]) && OneLine(field)
  }

  /** The last of several lines is empty. */
  ghost predicate EmptyLastLine(field: string, value: string) {
    LastIsEmpty(Fold(value, WIDTH - |field| - 1))
  }

  ghost predicate LastIsEmpty(f: seq<string>) {
    |f| > 1 && f[|f| - 1] == ""
  }

  lemma PiecesAreLines(value: string, wanted: int)
    requires OneLine(value)
    ensures forall x <- Fold(value, wanted) :: OneLine(x) && Begins(x)
  {
    FoldChars(value, wanted, '\n');
    FoldChars(value, wanted, NUL);
    var f := Fold(value, wanted);
    forall k | 0 <= k < |f| ensures Begins(f[k]) {
      FoldFits(value, wanted, k);
    }
  }

  lemma FirstPhysicalLine(field: string, f: seq<string>, rest: string)
    requires f != []
    ensures field + " " + Lines(f) + rest ==
      field + " " + f[0] + "\n" + if |f| == 1 then rest else " " + Lines(f[1..]) + rest
  {
    if |f| > 1 {
      Regroup(field + " ", f[0], Lines(f[1..]), rest);
    } else {
      Associates(field + " ", f[0], "\n", rest);
    }
  }

  lemma Regroup(a: string, x: string, l: string, rest: string)
    ensures a + (x + "\n " + l) + rest == a + x + "\n" + (" " + l + rest)
  {
    var y := "\n";
    assert "\n " == y + " ";
    assert a + (x + (y + " ") + l) + rest == a + x + y + (" " + l + rest);
  }

  lemma SizeStep(f: seq<string>)
    requires f != []
    ensures Size(f) == |f[0]| + 1 + Size(f[1..])
    ensures AllWords(f) == Words(f[0]) + AllWords(f[1..])
    ensures |f| == 1 ==> AllWords(f) == Words(f[0])
  {
    hide Words;
    if |f| == 1 {
      assert Words(f[0]) + [] == Words(f[0]);
    }
  }

  lemma NoFollowOn(l: string, rest: string)
    requires WholeLines(rest) && !Continues(rest) && |l| <= MAXCHAR
    ensures Unfolded(l, rest) == (l, rest)
  {
  }

  lemma WordsBehind(field: string, x: string, w: seq<string>)
    ensures Words(field + " " + x) + w == Words(field) + (Words(x) + w)
    ensures Words(field + " " + x) == Words(field) + Words(x)
  {
    WordsOfCat(field, x);
    hide Words;
  }

  lemma HeaderIs(l: string, rest: string)
    requires l != "" && !Blank(l[0]) && OneLine(l) && |l| < MAXCHAR - 1 && WholeLines(rest)
    ensures WholeLines(l + "\n" + rest) && HeaderLine(l + "\n" + rest) == Some(Unfolded(l, rest))
  {
    FirstLineIs(l, rest);
    hide FirstLine;
    hide Unfolded;
    hide WholeLines;
  }

  lemma HeadLine(field: string, x: string)
    requires IsField(field) && OneLine(x)
    ensures var l := field + " " + x; OneLine(l) && l != "" && !Blank(l[0])
  {
    var l := field + " " + x;
    assert l[0] == field[0];
    assert forall c :: c in l ==> c in field || c == ' ' || c in x;
  }

  lemma ReadPieces(field: string, f: seq<string>, rest: string)
    requires f != [] && OnlyLastEmpty(f)
    requires forall x <- f :: OneLine(x) && Begins(x)
    requires IsField(field) && |field| + Size(f) < MAXCHAR - 1
    requires WholeLines(rest) && !Continues(rest)
    ensures WholeLines(field + " " + Lines(f) + rest)
    ensures var r := HeaderLine(field + " " + Lines(f) + rest);
      && r.Some?
      && Words(r.value.0) == Words(field) + AllWords(f)
      && |r.value.0| <= |field| + Size(f)
      && r.value.1 == if |f| > 1 && f[|f| - 1] == "" then " \n" + rest else rest
  {
    hide IsField;
    hide Words;
    hide AllWords;
    hide Lines;
    hide Size;
    hide Begins;
    hide Unfolded;
    hide WholeLines;
    hide Continues;
    hide HeaderLine;
    hide OneLine;
    var l, g := field + " " + f[0], f[1..];
    assert f[0] in f;
    SizeStep(f);
    WordsBehind(field, f[0], AllWords(g));
    FirstPhysicalLine(field, f, rest);
    HeadLine(field, f[0]);
    if |f| == 1 {
      HeaderIs(l, rest);
      NoFollowOn(l, rest);
    } else {
      assert forall x <- g :: x in f;
      UnfoldPieces(l, g, rest);
      HeaderIs(l, " " + Lines(g) + rest);
    }
  }

  /** Reading a folded header gives back its words; it ends behind the header unless the last
      line is empty, and in front of that line if it is. */
  lemma FoldThenRead(field: string, value: string, rest: string)
    requires IsField(field) && OneLine(value) && |field| + 1 + |value| < MAXCHAR - 1
    requires WholeLines(rest) && !Continues(rest)
    ensures WholeLines(FoldedHeader(field, value) + rest)
    ensures var r := HeaderLine(FoldedHeader(field, value) + rest);
      && r.Some?
      && Words(r.value.0) == Words(field) + Words(value)
      && |r.value.0| <= |field| + 1 + |value|
      && r.value.1 == if EmptyLastLine(field, value) then " \n" + rest else rest
  {
    hide Fold;
    hide Words;
    hide AllWords;
    hide Lines;
    hide Size;
    hide Begins;
    hide WholeLines;
    hide Continues;
    hide HeaderLine;
    hide OneLine;
    hide IsField;
    var wanted := WIDTH - |field| - 1;
    FoldSize(value, wanted);
    FoldWords(value, wanted);
    FoldShape(value, wanted);
    PiecesAreLines(value, wanted);
    ReadPieces(field, Fold(value, wanted), rest);
  }

  /** A value that does not end with a blank leaves no empty last line. */
  lemma NoEmptyLastLine(field: string, value: string)
    requires Ends(value)
    ensures !EmptyLastLine(field, value)
  {
    hide Fold;
    FoldShape(value, WIDTH - |field| - 1);
  }

  // ---------- which values leave an empty last line ----------

  /** The blanks t behind a text c that ends in a word get a line of their own: they do not
      fit the last line of c. */
  ghost predicate TooLong(c: string, t: string, wanted: int) {
    var f := Fold(c, wanted);
    |f[|f| - 1]| + |t| > if |f| == 1 then wanted else WIDTH - 1
  }

  lemma SkipBefore(c: string, t: string)
    requires Skip(c) != ""
    ensures Skip(c + t) == Skip(c) + t
  {
    var a := |c| - |Skip(c)|;
    assert c[a] == Skip(c)[0];
    StartsAt(c + t, a);
    assert (c + t)[a..] == c[a..] + t;
  }

  /** Where a text with blanks behind it is broken. */
  lemma BreakBefore(s: string, t: string, wanted: int)
    requires s != "" && Begins(s) && Ends(s) && t != "" && AllBlank(t)
    ensures var p := Break(s, wanted);
      Break(s + t, wanted) == if |s| + |t| <= wanted then |s| + |t| else if p < |s| then p else |s|
  {
    hide Break;
    var p, u := Break(s, wanted), s + t;
    assert forall q :: 0 <= q < |s| ==> (RunStart(u, q) <==> RunStart(s, q));
    assert u[|s|] == t[0] && u[|s| - 1] == s[|s| - 1] && RunStart(u, |s|);
    forall q | |s| < q < |u| ensures !RunStart(u, q) {
      assert u[q - 1] == t[q - 1 - |s|];
    }
    var b := if |s| + |t| <= wanted then |s| + |t| else if p < |s| then p else |s|;
    assert BreakAt(u, wanted, b);
    BreakUnique(u, wanted, b, Break(u, wanted));
  }

  lemma FoldOfBlanks(t: string, wanted: int)
    requires AllBlank(t)
    ensures Fold(t, wanted) == [""]
  {
    StartsAt(t, |t|);
    assert t[|t|..] == "";
    FoldStep(t, wanted, "", Break("", wanted));
  }

  lemma ConsLast(x: string, g: seq<string>)
    requires g != []
    ensures var f := [x] + g; |f| == |g| + 1 && f[|f| - 1] == g[|g| - 1]
  {
  }

  /** Blanks behind a text leave an empty last line exactly when they do not fit its last line. */
  lemma {:induction false} EmptyLast(c: string, t: string, wanted: int)
    requires Skip(c) != "" && Ends(c) && t != "" && AllBlank(t)
    ensures LastIsEmpty(Fold(c + t, wanted)) <==> TooLong(c, t, wanted)
    decreases |c|, 1
  {
    var s := Skip(c);
    var p, b := Break(s, wanted), Break(s + t, wanted);
    assert Begins(s) && Ends(s);
    SkipBefore(c, t);
    BreakBefore(s, t, wanted);
    FoldStep(c, wanted, s, p);
    FoldStep(c + t, wanted, s + t, b);
    if |s| + |t| <= wanted {
      assert BreakAt(s, wanted, p);
    } else if p < |s| {
      EmptyLastStep(c, t, wanted, s, p);
    } else {
      assert (s + t)[..|s|] == s && (s + t)[|s|..] == t;
      FoldOfBlanks(t, WIDTH - 1);
    }
  }

  lemma EmptyLastStep(c: string, t: string, wanted: int, s: string, p: nat)
    requires Ends(s) && p < |s| && s == Skip(c) && |s[p..]| < |c| && t != "" && AllBlank(t)
    requires Fold(c, wanted) == [s[..p]] + Fold(s[p..], WIDTH - 1)
    requires Fold(c + t, wanted) == [(s + t)[..p]] + Fold((s + t)[p..], WIDTH - 1)
    ensures LastIsEmpty(Fold(c + t, wanted)) <==> TooLong(c, t, wanted)
    decreases |c|, 0
  {
    hide *;
    var d := s[p..];
    EndsInWord(s, p);
    Parts(s, t, p);
    var g, h := Fold(d, WIDTH - 1), Fold(d + t, WIDTH - 1);
    EmptyLast(d, t, WIDTH - 1);
    SkipBefore(d, t);
    FirstNotEmpty(d + t, WIDTH - 1);
    LastOfTail(c, t, wanted, s[..p], g, d, h);
  }

  lemma Parts(s: string, t: string, p: nat)
    requires p <= |s|
    ensures (s + t)[..p] == s[..p] && (s + t)[p..] == s[p..] + t
  {
  }

  lemma EndsInWord(s: string, p: nat)
    requires Ends(s) && p < |s|
    ensures Ends(s[p..]) && Skip(s[p..]) != ""
  {
    var d := s[p..];
    assert d[|d| - 1] == s[|s| - 1];
  }

  lemma LastOfTail(c: string, t: string, wanted: int, x: string, g: seq<string>, d: string, h: seq<string>)
    requires g == Fold(d, WIDTH - 1) && Fold(c, wanted) == [x] + g
    requires h == Fold(d + t, WIDTH - 1) && Fold(c + t, wanted) == [x] + h
    requires h[0] != "" && (LastIsEmpty(h) <==> TooLong(d, t, WIDTH - 1))
    ensures LastIsEmpty(Fold(c + t, wanted)) <==> TooLong(c, t, wanted)
  {
    hide Fold;
    ConsLast(x, g);
    ConsLast(x, h);
  }

  lemma FirstNotEmpty(value: string, wanted: int)
    requires Skip(value) != ""
    ensures Fold(value, wanted)[0] != ""
  {
    var s := Skip(value);
    FoldStep(value, wanted, s, Break(s, wanted));
  }

  /** The condition on the value: it ends with blanks, and they do not fit its last line. */
  ghost predicate LeavesLine(field: string, value: string) {
    var c := Chop(value);
    c != "" && |c| < |value| && TooLong(c, value[|c|..], WIDTH - |field| - 1)
  }

  /** Folding leaves an empty last line exactly for such values. */
  lemma EmptyLastLineExactly(field: string, value: string)
    ensures EmptyLastLine(field, value) <==> LeavesLine(field, value)
  {
    hide Fold;
    hide Chop;
    hide Skip;
    hide TooLong;
    hide AllBlank;
    hide Ends;
    var c := Chop(value);
    var t := value[|c|..];
    assert value == c + t;
    BehindChop(value);
    if c == "" {
      FoldOfBlanks(value, WIDTH - |field| - 1);
    } else if t == "" {
      NoEmptyLastLine(field, value);
    } else {
      EmptyLast(c, t, WIDTH - |field| - 1);
    }
  }

  lemma BehindChop(value: string)
    ensures var c := Chop(value); Ends(c) && AllBlank(value[|c|..]) && (c != "" ==> Skip(c) != "")
    ensures Chop(value) == "" ==> AllBlank(value)
    ensures value[|Chop(value)|..] == "" ==> Ends(value)
  {
    var c := Chop(value);
    if c != "" {
      EndsInWord(c, 0);
      assert c[0..] == c;
    }
  }

  /** A value whose trailing blank does leave one: a word of eighty characters and a blank. */
  lemma TrailingBlank()
    ensures EmptyLastLine("To:", seq(80, _ => 'a') + " ")
  {
    var value := seq(80, _ => 'a') + " ";
    hide Fold;
    LongWord(value);
    FoldStep(value, 74, value, 80);
    assert value[80..] == " ";
    StartsAt(" ", 1);
    FoldStep(" ", WIDTH - 1, "", 0);
    assert |([value[..80]] + [""])| == 2;
  }

  lemma LongWord(value: string)
    requires |value| == 81 && (forall k :: 0 <= k < 80 ==> value[k] == 'a') && value[80] == ' '
    ensures Skip(value) == value && Break(value, 74) == 80
  {
    StartsAt(value, 0);
    hide Break;
    assert BreakAt(value, 74, 80);
    BreakUnique(value, 74, 80, Break(value, 74));
  }

  lemma StartsAt(value: string, a: nat)
    requires a <= |value| && (a < |value| ==> !Blank(value[a]))
    requires forall k :: 0 <= k < a ==> Blank(value[k])
    ensures Skip(value) == value[a..] && (a == 0 ==> Skip(value) == value)
  {
    hide Pieces.Start;
    Pieces.StartIs(value, BLANKS, 0, a);
  }

  /** The line of the text that carries piece k. */
  ghost function PhysicalLine(field: string, value: string, k: nat): string
    requires k < |Fold(value, WIDTH - |field| - 1)|
  {
    (if k == 0 then field else "") + " " + Fold(value, WIDTH - |field| - 1)[k]
  }

  lemma OneWordIs(x: string)
    requires x != "" && OneWord(x)
    ensures Words(x) == [x]
  {
    assert forall k :: 0 <= k < |x| ==> x[k] in x;
    Pieces.StartIs(x, BLANKS, 0, 0);
    Pieces.EndIs(x, BLANKS, 0, |x|);
    Pieces.FromIs(x, BLANKS, 0);
    Pieces.FromIs(x, BLANKS, |x|);
    assert x[0..|x|] == x;
  }

  lemma {:induction false} WordOfPiece(f: seq<string>, k: nat, w: string)
    requires k < |f| && w in Words(f[k])
    ensures w in AllWords(f)
  {
    hide Words;
    if k > 0 {
      WordOfPiece(f[1..], k - 1, w);
    }
  }

  /** No line is longer than 78 characters unless it carries a single word of the value. */
  lemma LineLength(field: string, value: string, k: nat)
    requires k < |Fold(value, WIDTH - |field| - 1)|
    ensures var x := Fold(value, WIDTH - |field| - 1)[k];
      |PhysicalLine(field, value, k)| <= WIDTH || x == "" || (OneWord(x) && x in Words(value))
  {
    hide Fold;
    hide Words;
    hide OneWord;
    var wanted := WIDTH - |field| - 1;
    var f := Fold(value, wanted);
    var x := f[k];
    FoldFits(value, wanted, k);
    FoldWords(value, wanted);
    LineWidth(field, value, k);
    if OneWord(x) && x != "" {
      OneWordIs(x);
      WordOfPiece(f, k, x);
    }
  }

  lemma LineWidth(field: string, value: string, k: nat)
    requires k < |Fold(value, WIDTH - |field| - 1)|
    ensures |PhysicalLine(field, value, k)| ==
      (if k == 0 then |field| else 0) + 1 + |Fold(value, WIDTH - |field| - 1)[k]|
  {
    hide Fold;
  }

  /** Writing a header behind some text and reading it again. */
  method WriteThenRead(target: DynStr, field: string, value: string, rest: string, before: char)
    returns (line: string, next: Option<nat>)
    requires NUL !in target.text && IsField(field) && OneLine(value) && |field| + 1 + |value| < MAXCHAR - 1
    requires WholeLines(rest) && !Continues(rest) && (Blank(before) ==> !LeavesLine(field, value))
    modifies target
    ensures next.Some? && next.value <= |target.text|
    ensures Words(line) == Words(field) + Words(value) && |line| <= |field| + 1 + |value|
    ensures target.text[next.value..] == rest <==> !LeavesLine(field, value)
    ensures Ends(value) ==> !LeavesLine(field, value)
  {
    hide HeaderLine;
    hide EmptyLastLine;
    hide LeavesLine;
    hide Words;
    hide IsField;
    hide FoldedHeader;
    hide Continues;
    hide OneLine;
    var p := |target.text|;
    ghost var was := target.text;
    AppendLongHeader(target, field, value);
    target.Append(rest);
    ghost var s := FoldedHeader(field, value) + rest;
    FoldThenRead(field, value, rest);
    EmptyLastLineExactly(field, value);
    if Ends(value) {
      NoEmptyLastLine(field, value);
    }
    assert target.text == was + s && target.text[p..] == s;
    line, next := GetHeaderLn(target.text, p, before);
  }
}
