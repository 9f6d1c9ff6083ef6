/** The text transfer of protocol.c: lines go out with CR LF behind them and a second dot before
    a leading one, and a line with a single dot ends the text. */
module Protocol {
  import opened Wrappers

  const MAXCHAR := 2048
  const NUL := '\0'
  const END := ".\r\n"

  // ---------- what is written ----------

  function Stuffed(line: string): string {
    if |line| > 0 && line[0] == '.' then "." + line + "\r\n" else line + "\r\n"
  }

  /** What is written for the text buf, of which `line` has already been collected. A line that
      fills the line buffer goes out raw, and what follows the last newline does not go out. */
  function Sent(line: string, buf: string): string
    decreases |buf|, |line|
  {
    if buf == "" then ""
    else if buf[0] == '\n' then Stuffed(line) + Sent("", buf[1..])
    else if |line| >= MAXCHAR - 1 then line + Sent("", buf)
    else Sent(line + [buf[0]], buf[1..])
  }

  /** Lines as they stand in a text. */
  function Text(lines: seq<string>): string {
    if lines == [] then "" else lines[0] + "\n" + Text(lines[1..])
  }

  predicate IsLine(line: string) {
    '\n' !in line && NUL !in line
  }

  lemma {:induction false} SentLine(line: string, l: string, rest: string)
    requires '\n' !in l && |line| + |l| <= MAXCHAR - 1
    ensures Sent(line, l + "\n" + rest) == Stuffed(line + l) + Sent("", rest)
    decreases |l|
  {
    var buf := l + "\n" + rest;
    if l == "" {
      assert buf[1..] == rest && line + l == line;
    } else {
      assert buf[0] == l[0] && buf[1..] == l[1..] + "\n" + rest;
      SentLine(line + [l[0]], l[1..], rest);
      assert line + [l[0]] + l[1..] == line + l;
    }
  }

  lemma {:induction false} SentRaw(line: string, l: string, rest: string)
    requires '\n' !in l && |line| <= MAXCHAR - 1 < |line| + |l|
    ensures (line + l)[..MAXCHAR - 1] <= Sent(line, l + "\n" + rest)
    decreases |l|
  {
    var buf := l + "\n" + rest;
    assert buf[0] == l[0];
    if |line| == MAXCHAR - 1 {
      assert (line + l)[..MAXCHAR - 1] == line;
      assert Sent(line, buf) == line + Sent("", buf);
    } else {
      assert buf[1..] == l[1..] + "\n" + rest;
      SentRaw(line + [l[0]], l[1..], rest);
      assert line + [l[0]] + l[1..] == line + l;
    }
  }

  // ---------- what is read ----------

  /** How many characters fgets takes when there is room for that many. */
  function Taken(s: string, room: nat): (n: nat)
    ensures n <= |s| && n <= room
    ensures forall k :: 0 <= k < n - 1 ==> s[k] != '\n'
    ensures n == |s| || n == room || (n > 0 && s[n - 1] == '\n')
  {
    if s == "" || room == 0 then 0
    else if s[0] == '\n' then 1
    else 1 + Taken(s[1..], room - 1)
  }

  /** A C string ends at its first NUL. */
  function UpToNul(s: string): (r: string)
    ensures NUL !in s ==> r == s
  {
    if s == "" || s[0] == NUL then "" else [s[0]] + UpToNul(s[1..])
  }

  function Trimmed(s: string): string {
    var n := |s|;
    if n > 0 && s[n - 1] == '\n' then
      if n > 1 && s[n - 2] == '\r' then s[..n - 2] else s[..n - 1]
    else s
  }

  datatype Got = Line(line: string, rest: string) | End(rest: string) | Failed

  /** What reading one text line from the input s comes to. */
  function Read(s: string): (r: Got)
    ensures r.Line? ==> |r.rest| < |s|
  {
    if s == "" then Failed
    else
      var n := Taken(s, MAXCHAR - 1);
      var line := Trimmed(UpToNul(s[..n]));
      if line == "." then End(s[n..])
      else if |line| > 0 && line[0] == '.' then Line(line[1..], s[n..])
      else Line(line, s[n..])
  }

  /** All lines up to the end of the text, and the input behind it; nothing if the text has no end. */
  function ReadAll(s: string): Option<(seq<string>, string)>
    decreases |s|
  {
    match Read(s)
    case Failed => None
    case End(rest) => Some(([], rest))
    case Line(line, rest) => Before([line], ReadAll(rest))
  }

  function Before(lines: seq<string>, r: Option<(seq<string>, string)>): Option<(seq<string>, string)> {
    match r
    case None => None
    case Some(more) => Some((lines + more.0, more.1))
  }

  lemma TakenIs(s: string, room: nat, n: nat)
    requires n <= |s| && n <= room
    requires forall k :: 0 <= k < n - 1 ==> s[k] != '\n'
    requires n == room || (n > 0 && s[n - 1] == '\n')
    ensures Taken(s, room) == n
  {
  }

  // ---------- reading gives back what was written ----------

  /** The lines that reach the other side in one piece. */
  predicate Fits(line: string) {
    |Stuffed(line)| <= MAXCHAR - 1
  }

  lemma ReadFitting(l: string, rest: string)
    requires IsLine(l) && Fits(l)
    ensures Read(Stuffed(l) + rest) == Line(l, rest)
  {
    hide Taken;
    hide UpToNul;
    var w := Stuffed(l);
    var s := w + rest;
    TakenIs(s, MAXCHAR - 1, |w|);
    assert s[..|w|] == w && s[|w|..] == rest;
    assert NUL !in w;
    assert Trimmed(w) == w[..|w| - 2];
  }

  lemma ReadEnd(rest: string)
    ensures Read(END + rest) == End(rest)
  {
    var s := END + rest;
    TakenIs(s, MAXCHAR - 1, 3);
    assert s[..3] == END && s[3..] == rest;
    assert UpToNul(END) == END;
  }

  /** What stands on the wire for a text of these lines. */
  function Wire(lines: seq<string>, more: string): string {
    Sent("", Text(lines)) + END + more
  }

  lemma Associates(a: string, b: string, c: string, d: string)
    ensures a + b + c + d == a + (b + c + d)
  {
  }

  lemma WireFitting(lines: seq<string>, more: string)
    requires lines != [] && IsLine(lines[0]) && |lines[0]| <= MAXCHAR - 1
    ensures Wire(lines, more) == Stuffed(lines[0]) + Wire(lines[1..], more)
  {
    hide Stuffed;
    hide Sent;
    var rest := Text(lines[1..]);
    SentLine("", lines[0], rest);
    assert "" + lines[0] == lines[0];
    assert Text(lines) == lines[0] + "\n" + rest;
    Associates(Stuffed(lines[0]), Sent("", rest), END, more);
  }

  lemma WireRaw(lines: seq<string>, more: string)
    requires lines != [] && IsLine(lines[0]) && |lines[0]| > MAXCHAR - 1
    ensures lines[0][..MAXCHAR - 1] <= Wire(lines, more)
  {
    hide Sent;
    SentRaw("", lines[0], Text(lines[1..]));
    assert "" + lines[0] == lines[0];
  }

  /** What comes back of a line whose beginning w went out raw: something shorter. */
  lemma ReadRaw(l: string, s: string)
    requires IsLine(l) && |l| > MAXCHAR - 1 && l[..MAXCHAR - 1] <= s
    ensures Read(s).Line? ==> Read(s).line != l
  {
    var n := MAXCHAR - 1;
    assert s[..n] == l[..n];
    TakenIs(s, n, n);
    assert UpToNul(l[..n]) == l[..n];
  }

  /** What comes back of a line whose end did not fit into one read. */
  lemma ReadCut(l: string, rest: string)
    requires IsLine(l) && |l| <= MAXCHAR - 1 && !Fits(l)
    ensures var r := Read(Stuffed(l) + rest);
      r.Line? && r.line == l ==> r.rest == "\r\n" + rest
  {
    var n := MAXCHAR - 1;
    var w := Stuffed(l);
    var s := w + rest;
    var c := w[..n];
    assert s[..n] == c && s[n..] == w[n..] + rest;
    assert forall k :: 0 <= k < n ==> c[k] != '\n' && c[k] != NUL;
    TakenIs(s, n, n);
    assert UpToNul(c) == c;
    assert Trimmed(c) == c;
    if |w| == n + 2 {
      assert w[n..] == "\r\n";
    } else if |w| == n + 1 {
      assert c[n - 1] == '\r';
    }
  }

  /** A line that does not fit is read as something else, or as the line and an empty line. */
  lemma ReadUnfit(lines: seq<string>, more: string)
    requires lines != [] && IsLine(lines[0]) && !Fits(lines[0])
    ensures var r := Read(Wire(lines, more));
      r.Line? && r.line == lines[0] ==> Read(r.rest) == Line("", Wire(lines[1..], more))
  {
    var l := lines[0];
    if |l| > MAXCHAR - 1 {
      WireRaw(lines, more);
      ReadRaw(l, Wire(lines, more));
    } else {
      var rest := Wire(lines[1..], more);
      WireFitting(lines, more);
      ReadCut(l, rest);
      ReadFitting("", rest);
      hide Read;
      hide Wire;
      assert Stuffed("") == "\r\n";
    }
  }

  /** An empty line too many is never made up for. */
  lemma {:induction false} NoShift(lines: seq<string>, more: string)
    requires forall l <- lines :: IsLine(l)
    ensures var r := ReadAll(Wire(lines, more)); r.Some? ==> [""] + r.value.0 != lines
  {
    if lines != [] && lines[0] == "" {
      WireFitting(lines, more);
      ReadFitting("", Wire(lines[1..], more));
      NoShift(lines[1..], more);
    }
  }

  lemma UnfitFails(lines: seq<string>, more: string)
    requires lines != [] && (forall l <- lines :: IsLine(l)) && !Fits(lines[0])
    ensures ReadAll(Wire(lines, more)) != Some((lines, more))
  {
    hide Wire;
    hide Read;
    hide Fits;
    hide IsLine;
    var r := ReadAll(Wire(lines, more));
    assert lines[0] in lines && forall l <- lines[1..] :: l in lines;
    ReadUnfit(lines, more);
    NoShift(lines[1..], more);
  }

  lemma BeforeIs(line: string, lines: seq<string>, r: Option<(seq<string>, string)>, more: string)
    ensures Before([line], r) == Some(([line] + lines, more)) <==> r == Some((lines, more))
  {
    if r.Some? {
      assert ([line] + r.value.0)[1..] == r.value.0 && ([line] + lines)[1..] == lines;
    }
  }

  lemma FittingStep(lines: seq<string>, more: string)
    requires lines != [] && IsLine(lines[0]) && Fits(lines[0])
    ensures ReadAll(Wire(lines, more)) == Some((lines, more)) <==>
      ReadAll(Wire(lines[1..], more)) == Some((lines[1..], more))
  {
    hide Wire;
    hide Read;
    hide Before;
    var rest := Wire(lines[1..], more);
    WireFitting(lines, more);
    ReadFitting(lines[0], rest);
    BeforeIs(lines[0], lines[1..], ReadAll(rest), more);
    assert lines == [lines[0]] + lines[1..];
  }

  /** Reading gives back the lines, and stops right behind the end of the text, exactly when
      every line fits. */
  lemma {:induction false} RoundTrip(lines: seq<string>, more: string)
    requires forall l <- lines :: IsLine(l)
    ensures ReadAll(Wire(lines, more)) == Some((lines, more)) <==> forall l <- lines :: Fits(l)
  {
    if lines == [] {
      assert Wire(lines, more) == END + more;
      ReadEnd(more);
    } else {
      hide Wire;
      hide ReadAll;
      hide Fits;
      hide IsLine;
      assert lines[0] in lines;
      assert forall l :: l in lines <==> l == lines[0] || l in lines[1..];
      if Fits(lines[0]) {
        FittingStep(lines, more);
        RoundTrip(lines[1..], more);
      } else {
        UnfitFails(lines, more);
      }
    }
  }

  // ---------- the loops ----------

  /** A connection: what has been written and not yet read, and how much more it will take. */
  class Stream {
    var bytes: string
    var room: nat

    constructor (capacity: nat)
      ensures bytes == "" && room == capacity
    {
      bytes, room := "", capacity;
    }

    /** fprintf: the count of characters is right exactly when all of them went out. */
    method Print(s: string) returns (n: int)
      modifies this
      ensures n == |s| <==> |s| <= old(room)
      ensures bytes == old(bytes) + s[..if |s| <= old(room) then |s| else old(room)]
      ensures |bytes| + room == old(|bytes| + room)
    {
      if |s| <= room {
        n := |s|;
        bytes, room := bytes + s, room - |s|;
      } else {
        n := -1;
        bytes, room := bytes + s[..room], 0;
      }
    }

    /** fgets into a buffer of MAXCHAR characters. */
    method Gets(line: array<char>, timely: bool) returns (ok: bool)
      requires line.Length == MAXCHAR
      modifies this, line
      ensures ok <==> timely && old(bytes) != ""
      ensures ok ==> var n := Taken(old(bytes), MAXCHAR - 1);
        bytes == old(bytes)[n..] && line[..n] == old(bytes)[..n] && line[n] == NUL
    {
      ok := timely && bytes != "";
      if ok {
        var n := Taken(bytes, MAXCHAR - 1);
        forall k | 0 <= k < n {
          line[k] := bytes[k];
        }
        line[n] := NUL;
        bytes := bytes[n..];
      }
    }
  }

  method PutTxtLn(line: string, f: Stream) returns (ok: bool)
    modifies f
    ensures ok <==> |Stuffed(line)| <= old(f.room)
    ensures f.bytes == old(f.bytes) + Stuffed(line)[..if ok then |Stuffed(line)| else old(f.room)]
    ensures |f.bytes| + f.room == old(|f.bytes| + f.room)
  {
    var n;
    if |line| > 0 && line[0] == '.' {
      n := f.Print("." + line + "\r\n");
      ok := n == |line| + 3;
    } else {
      n := f.Print(line + "\r\n");
      ok := n == |line| + 2;
    }
  }

  method PutEndOfTxt(f: Stream) returns (ok: bool)
    modifies f
    ensures ok <==> |END| <= old(f.room)
    ensures f.bytes == old(f.bytes) + END[..if ok then |END| else old(f.room)]
    ensures |f.bytes| + f.room == old(|f.bytes| + f.room)
  {
    var n := f.Print(END);
    ok := n == 3;
  }

  lemma CutOff(p: string, s: string, room: nat, b: string, x: string, y: string, left: nat)
    requires p + s == b + (x + y) && |p| + room == |b| + left && |p| <= |b|
    requires left < |x|
    ensures room < |s| && p + s[..room] == b + x[..left]
  {
    assert (p + s)[..|p| + room] == p + s[..room];
    assert (b + (x + y))[..|b| + left] == b + x[..left];
  }

  /** Writes as much of what the text comes to as the connection takes. */
  method PutTxtBuf(buf: string, f: Stream) returns (ok: bool)
    modifies f
    ensures ok <==> |Sent("", buf)| <= old(f.room)
    ensures f.bytes == old(f.bytes) + Sent("", buf)[..if ok then |Sent("", buf)| else old(f.room)]
    ensures |f.bytes| + f.room == old(|f.bytes| + f.room)
  {
    hide Stuffed;
    var line := new char[MAXCHAR];
    var pBuf, pLn := 0, 0;
    ghost var all := f.bytes + Sent("", buf);
    while pBuf < |buf|
      invariant pBuf <= |buf| && pLn <= MAXCHAR - 1
      invariant |old(f.bytes)| <= |f.bytes|
      invariant all == f.bytes + Sent(line[..pLn], buf[pBuf..])
      invariant |f.bytes| + f.room == old(|f.bytes| + f.room)
      decreases |buf| - pBuf, pLn
    {
      ghost var rest := buf[pBuf..];
      ghost var c := line[..pLn];
      ghost var bytes, left := f.bytes, f.room;
      assert rest[0] == buf[pBuf] && rest[1..] == buf[pBuf + 1..];
      if buf[pBuf] == '\n' {
        line[pLn] := NUL;
        assert line[..pLn] == c;
        ok := PutTxtLn(line[..pLn], f);
        if !ok {
          CutOff(old(f.bytes), Sent("", buf), old(f.room), bytes, Stuffed(c), Sent("", rest[1..]), left);
          return false;
        }
        assert bytes + Sent(c, rest) == f.bytes + Sent("", rest[1..]);
        pLn := 0;
        pBuf := pBuf + 1;
      } else if pLn >= MAXCHAR - 1 {
        line[pLn] := NUL;
        assert line[..pLn] == c;
        var n := f.Print(line[..pLn]);
        if n != pLn {
          CutOff(old(f.bytes), Sent("", buf), old(f.room), bytes, c, Sent("", rest), left);
          return false;
        }
        assert bytes + Sent(c, rest) == f.bytes + Sent("", rest);
        pLn := 0;
      } else {
        line[pLn] := buf[pBuf];
        assert line[..pLn + 1] == c + [rest[0]];
        pLn, pBuf := pLn + 1, pBuf + 1;
      }
    }
    assert buf[pBuf..] == "" && f.bytes + "" == f.bytes == old(f.bytes) + Sent("", buf);
    assert Sent("", buf)[..|Sent("", buf)|] == Sent("", buf);
    ok := true;
  }

  lemma {:induction false} StringEnds(s: string, n: nat)
    requires n < |s| && s[n] == NUL && NUL !in s[..n]
    ensures UpToNul(s) == s[..n]
  {
    if n > 0 {
      assert s[..n][0] == s[0] && s[1..][..n - 1] == s[..n][1..];
      StringEnds(s[1..], n - 1);
    }
  }

  method Strlen(line: array<char>) returns (len: nat)
    requires NUL in line[..]
    ensures len < line.Length && line[len] == NUL && NUL !in line[..len]
    ensures UpToNul(line[..]) == line[..len]
  {
    len := 0;
    while line[len] != NUL
      invariant len < line.Length && NUL !in line[..len]
      decreases line.Length - len
    {
      len := len + 1;
    }
    StringEnds(line[..], len);
    assert line[..][..len] == line[..len];
  }

  lemma {:induction false} StringBefore(t: string, s: string)
    requires |t| < |s| && s[..|t|] == t && s[|t|] == NUL
    ensures UpToNul(s) == UpToNul(t)
  {
    if t != "" && t[0] != NUL {
      assert t[0] == s[..|t|][0] && t[1..] == s[1..][..|t| - 1];
      StringBefore(t[1..], s[1..]);
    }
  }

  /** Cuts off the end of a line in place. */
  method TrimLn(line: array<char>, len: nat)
    requires len < line.Length && line[len] == NUL && NUL !in line[..len]
    modifies line
    ensures NUL in line[..] && UpToNul(line[..]) == Trimmed(old(line[..len]))
  {
    ghost var u := line[..len];
    assert forall k :: 0 <= k < len ==> line[k] == u[k];
    ghost var end := len;
    if len > 0 && line[len - 1] == '\n' {
      line[len - 1] := NUL;
      end := len - 1;
      if len > 1 && line[len - 2] == '\r' {
        line[len - 2] := NUL;
        end := len - 2;
      }
    }
    assert line[..][..end] == u[..end];
    assert line[..][end] == NUL;
    StringEnds(line[..], end);
  }

  /** Reads one line and cuts off its end in place. */
  method GetLn(line: array<char>, f: Stream, timely: bool) returns (ok: bool)
    requires line.Length == MAXCHAR
    modifies line, f
    ensures ok <==> timely && old(f.bytes) != ""
    ensures ok ==> var n := Taken(old(f.bytes), MAXCHAR - 1);
      f.bytes == old(f.bytes)[n..] && NUL in line[..]
      && UpToNul(line[..]) == Trimmed(UpToNul(old(f.bytes)[..n]))
  {
    ok := f.Gets(line, timely);
    if !ok {
      return;
    }
    ghost var t := old(f.bytes)[..Taken(old(f.bytes), MAXCHAR - 1)];
    assert line[..][|t|] == NUL && line[..][..|t|] == t;
    StringBefore(t, line[..]);
    var len := Strlen(line);
    TrimLn(line, len);
  }

  /** strcpy from position i of one buffer to another. */
  method Copy(line: array<char>, buf: array<char>, i: nat, ghost u: string)
    requires line.Length == buf.Length == MAXCHAR && line != buf
    requires i <= |u| && u == UpToNul(buf[..]) && NUL in buf[..]
    modifies line
    ensures NUL in line[..] && UpToNul(line[..]) == u[i..]
  {
    var len := Strlen(buf);
    for k := i to len
      invariant forall j :: i <= j < k ==> line[j - i] == buf[j]
    {
      line[k - i] := buf[k];
    }
    line[len - i] := NUL;
    assert line[..][..len - i] == buf[i..len] == u[i..];
    assert line[..][len - i] == NUL;
    assert forall c :: c in line[..len - i] ==> c in buf[..len];
    StringEnds(line[..], len - i);
  }

  lemma StringStarts(s: string)
    requires |s| >= 2
    ensures UpToNul(s) == "" <==> s[0] == NUL
    ensures s[0] != NUL ==> UpToNul(s)[0] == s[0] && (|UpToNul(s)| == 1 <==> s[1] == NUL)
  {
    if s[0] != NUL {
      assert UpToNul(s) == [s[0]] + UpToNul(s[1..]);
      assert s[1..][0] == s[1];
    }
  }

  /** Reads one line of a text. */
  method GetTxtLn(line: array<char>, f: Stream, timely: bool) returns (more: bool, err: bool)
    requires line.Length == MAXCHAR
    modifies line, f
    ensures err <==> !timely || Read(old(f.bytes)).Failed?
    ensures !err ==>
      match Read(old(f.bytes))
      case Failed => false
      case End(rest) => !more && f.bytes == rest
      case Line(l, rest) => more && f.bytes == rest && NUL in line[..] && UpToNul(line[..]) == l
  {
    var buf := new char[MAXCHAR];
    var ok := GetLn(buf, f, timely);
    if !ok {
      return false, true;
    }
    err := false;
    ghost var u := UpToNul(buf[..]);
    StringStarts(buf[..]);
    hide Taken;
    hide UpToNul;
    hide Trimmed;
    if buf[0] == '.' {
      if buf[1] == NUL {
        more := false;
      } else {
        Copy(line, buf, 1, u);
        more := true;
      }
    } else {
      Copy(line, buf, 0, u);
      more := true;
    }
  }

  lemma BeforeLine(lines: seq<string>, line: string, r: Option<(seq<string>, string)>)
    ensures Before([], r) == r
    ensures Before(lines, Before([line], r)) == Before(lines + [line], r)
    ensures Before(lines, Some(([], line))) == Some((lines, line))
  {
    assert lines + [] == lines;
    if r.Some? {
      assert [] + r.value.0 == r.value.0;
      assert lines + ([line] + r.value.0) == lines + [line] + r.value.0;
    }
  }

  /** The first n reads are timely. */
  ghost predicate AllTimely(timely: nat -> bool, n: nat) {
    forall k: nat :: k < n ==> timely(k)
  }

  /** What reading a text comes to when ReadAll says `all` of the input: every line, or those
      before the first read that is not timely. */
  ghost predicate Collected(all: Option<(seq<string>, string)>, timely: nat -> bool, lines: seq<string>, err: bool,
    rest: string)
  {
    && AllTimely(timely, |lines|)
    && (all.None? ==> err)
    && (all.Some? ==>
          lines <= all.value.0 && (err <==> !AllTimely(timely, |all.value.0| + 1)) && (err ==> !timely(|lines|)))
    && (!err ==> all == Some((lines, rest)))
  }

  lemma CollectedAtEnd(all: Option<(seq<string>, string)>, timely: nat -> bool, lines: seq<string>, s: string, err: bool,
      rest: string)
    requires AllTimely(timely, |lines|) && all == Before(lines, ReadAll(s))
    requires err <==> !timely(|lines|) || Read(s).Failed?
    requires !err ==> Read(s) == End(rest)
    ensures Collected(all, timely, lines, err, rest)
  {
    hide Before;
    hide Read;
    BeforeBegins(lines, ReadAll(s));
    BeforeLine(lines, rest, None);
  }

  lemma ReadAllStep(s: string)
    ensures Read(s).Line? ==> ReadAll(s) == Before([Read(s).line], ReadAll(Read(s).rest))
  {
    hide Before;
    hide Read;
  }

  lemma MoreTimely(timely: nat -> bool, n: nat)
    ensures AllTimely(timely, 0)
    ensures AllTimely(timely, n) && timely(n) ==> AllTimely(timely, n + 1)
  {
  }

  lemma BeforeBegins(lines: seq<string>, r: Option<(seq<string>, string)>)
    ensures Before(lines, r).None? <==> r.None?
    ensures r.Some? ==> lines <= Before(lines, r).value.0
  {
  }

  /** Reads the lines of a text until there are no more. The k-th read is timely or not. */
  method GetTxt(f: Stream, timely: nat -> bool) returns (lines: seq<string>, err: bool)
    modifies f
    ensures Collected(ReadAll(old(f.bytes)), timely, lines, err, f.bytes)
  {
    hide Before;
    hide Read;
    hide ReadAll;
    hide Collected;
    hide UpToNul;
    hide AllTimely;
    var line := new char[MAXCHAR];
    lines := [];
    MoreTimely(timely, 0);
    ghost var all := ReadAll(f.bytes);
    BeforeLine([], "", all);
    while true
      invariant AllTimely(timely, |lines|)
      invariant all == Before(lines, ReadAll(f.bytes))
      decreases |f.bytes|
    {
      ghost var s := f.bytes;
      var more;
      ReadAllStep(s);
      more, err := GetTxtLn(line, f, timely(|lines|));
      if err || !more {
        CollectedAtEnd(all, timely, lines, s, err, f.bytes);
        return;
      }
      var l := Strlen(line);
      BeforeLine(lines, line[..l], ReadAll(f.bytes));
      MoreTimely(timely, |lines|);
      lines := lines + [line[..l]];
    }
  }

  /** Sending a text of whole lines and reading it on the other side: what is read is the text,
      and what was written behind it is still there, exactly when every line fits and all reads
      are timely. */
  method Transfer(lines: seq<string>, more: string, f: Stream, timely: nat -> bool)
    returns (sent: bool, received: seq<string>, err: bool)
    requires f.bytes == "" && forall l <- lines :: IsLine(l)
    modifies f
    ensures sent <==> |Wire(lines, more)| <= old(f.room)
    ensures sent ==>
      (!err && received == lines && f.bytes == more <==>
         (forall l <- lines :: Fits(l)) && AllTimely(timely, |lines| + 1))
  {
    received, err := [], true;
    sent := PutTxtBuf(Text(lines), f);
    if sent {
      sent := PutEndOfTxt(f);
    }
    if sent {
      var n := f.Print(more);
      sent := n == |more|;
    }
    if sent {
      assert f.bytes == Wire(lines, more);
      RoundTrip(lines, more);
      received, err := GetTxt(f, timely);
    }
  }
}
