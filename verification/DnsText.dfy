/** Domain names as dotted text with octal escapes: dns_domain_fromdot and
    dns_domain_todot_cat. */
module DnsText {
  import opened Bytes
  import opened Wrappers
  import opened DnsDomain

  const DOT: byte := 46
  const ZERO: byte := 48
  const BACKSLASH: byte := 92

  // ---- printing -------------------------------------------------------------

  /** Letters, digits, '-' and '_' are printed as they are. */
  predicate Plain(c: byte) { 97 <= c <= 122 || 48 <= c <= 57 || c == 45 || c == 95 }

  function Escape(c: byte): seq<byte> {
    if Plain(c) then [c] else [BACKSLASH, ZERO + c / 64, ZERO + c / 8 % 8, ZERO + c % 8]
  }

  function PrintLabel(l: seq<byte>): seq<byte> {
    if l == [] then [] else PrintLabel(l[..|l| - 1]) + Escape(LowerByte(l[|l| - 1]))
  }

  function PrintLabels(labels: seq<Label>): seq<byte>
    requires labels != []
  {
    if |labels| == 1 then PrintLabel(labels[0])
    else PrintLabels(labels[..|labels| - 1]) + [DOT] + PrintLabel(labels[|labels| - 1])
  }

  /** The text of a name: the root is a single dot. */
  function Print(labels: seq<Label>): seq<byte> {
    if labels == [] then [DOT] else PrintLabels(labels)
  }

  // ---- reading --------------------------------------------------------------

  /** A dot that separates labels, or a character of a label. */
  datatype Token = Dot | Char(c: byte)

  predicate Octal(c: byte) { ZERO <= c <= ZERO + 7 }

  /** The first token of text and the number of bytes it takes; None for a
      backslash at the end. */
  function FirstToken(s: seq<byte>): (r: Option<(Token, nat)>)
    requires s != []
    ensures r.Some? ==> 0 < r.value.1 <= |s|
  {
    if s[0] == DOT then Some((Dot, 1))
    else if s[0] != BACKSLASH then Some((Char(s[0]), 1))
    else if |s| == 1 then None
    else if !Octal(s[1]) then Some((Char(s[1]), 2))
    else if |s| == 2 || !Octal(s[2]) then Some((Char(s[1] - ZERO), 2))
    else if |s| == 3 || !Octal(s[3]) then Some((Char(8 * (s[1] - ZERO) + (s[2] - ZERO)), 3))
    else Some((Char((64 * (s[1] - ZERO) as int + 8 * (s[2] - ZERO) as int + (s[3] - ZERO) as int) % 256), 4))
  }

  function Tokens(s: seq<byte>): seq<Token>
    decreases |s|
  {
    if s == [] then []
    else match FirstToken(s) case None => [] case Some((t, n)) => [t] + Tokens(s[n..])
  }

  /** The labels between the dots, when cur has been collected already; empty
      labels are dropped. */
  function Split(ts: seq<Token>, cur: Label): seq<Label> {
    if ts == [] then (if cur == [] then [] else [cur])
    else match ts[0]
         case Dot => (if cur == [] then [] else [cur]) + Split(ts[1..], [])
         case Char(c) => Split(ts[1..], cur + [c])
  }

  function Labels(s: seq<byte>): seq<Label> { Split(Tokens(s), []) }

  // ---- reading what was printed ---------------------------------------------

  lemma OctalDigits(c: byte)
    ensures c / 64 < 4 && c / 8 % 8 < 8 && c % 8 < 8 && 64 * (c / 64) + 8 * (c / 8 % 8) + c % 8 == c
    ensures c / 8 / 8 == c / 64 && c / 64 % 8 == c / 64
  {
  }

  lemma FirstTokenOfOctal(s: seq<byte>, x: nat, y: nat, z: nat)
    requires |s| >= 4 && x < 4 && y < 8 && z < 8
    requires s[0] == BACKSLASH && s[1] == ZERO + x && s[2] == ZERO + y && s[3] == ZERO + z
    ensures FirstToken(s) == Some((Char(64 * x + 8 * y + z), 4))
  {
  }

  lemma FirstTokenOfEscape(c: byte, rest: seq<byte>)
    ensures FirstToken(Escape(c) + rest) == Some((Char(c), |Escape(c)|))
  {
    if !Plain(c) {
      var x, y, z := c / 64, c / 8 % 8, c % 8;
      OctalDigits(c);
      FirstTokenOfOctal([BACKSLASH, ZERO + x, ZERO + y, ZERO + z] + rest, x, y, z);
    }
  }

  lemma TokensOfEscape(c: byte, rest: seq<byte>)
    ensures Tokens(Escape(c) + rest) == [Char(c)] + Tokens(rest)
  {
    hide FirstToken;
    hide Escape;
    EscapeNonempty(c);
    FirstTokenOfEscape(c, rest);
    assert (Escape(c) + rest)[|Escape(c)|..] == rest;
  }

  lemma EscapeNonempty(c: byte)
    ensures Escape(c) != []
  {
  }

  lemma TokensOfDot(rest: seq<byte>)
    ensures Tokens([DOT] + rest) == [Dot] + Tokens(rest)
  {
    assert ([DOT] + rest)[1..] == rest;
  }

  lemma SplitAtDot(ts: seq<Token>, cur: Label)
    ensures Split([Dot] + ts, cur) == (if cur == [] then [] else [cur]) + Split(ts, [])
  {
    assert ([Dot] + ts)[1..] == ts;
  }

  function Chars(l: seq<byte>): seq<Token> { seq(|l|, i requires 0 <= i < |l| => Char(LowerByte(l[i]))) }

  lemma {:induction false} TokensOfLabel(l: seq<byte>, rest: seq<byte>)
    ensures Tokens(PrintLabel(l) + rest) == Chars(l) + Tokens(rest)
  {
    hide Escape;
    hide Tokens;
    if l == [] {
      assert PrintLabel(l) + rest == rest && Chars(l) + Tokens(rest) == Tokens(rest);
    } else {
      var init, c := l[..|l| - 1], LowerByte(l[|l| - 1]);
      var e := Escape(c);
      assert PrintLabel(l) + rest == PrintLabel(init) + (e + rest);
      TokensOfLabel(init, e + rest);
      TokensOfEscape(c, rest);
      assert Chars(l) + Tokens(rest) == Chars(init) + ([Char(c)] + Tokens(rest));
    }
  }

  lemma {:induction false} SplitChars(l: seq<byte>, cur: Label, rest: seq<Token>)
    ensures Split(Chars(l) + rest, cur) == Split(rest, cur + Lower(l))
  {
    if l == [] {
      assert Chars(l) + rest == rest && cur + Lower(l) == cur;
    } else {
      var ts := Chars(l) + rest;
      assert ts[0] == Char(LowerByte(l[0])) && ts[1..] == Chars(l[1..]) + rest;
      SplitChars(l[1..], cur + [LowerByte(l[0])], rest);
      assert cur + Lower(l) == cur + [LowerByte(l[0])] + Lower(l[1..]);
    }
  }

  lemma {:induction false} LabelsOfPrint(labels: seq<Label>, rest: seq<byte>)
    requires labels != [] && LabelsOk(labels)
    ensures Split(Tokens(PrintLabels(labels) + rest), []) ==
            LowerLabels(labels[..|labels| - 1]) + Split(Tokens(rest), Lower(labels[|labels| - 1]))
  {
    hide Tokens;
    hide Split;
    hide PrintLabel;
    var init, last := labels[..|labels| - 1], labels[|labels| - 1];
    var tail := PrintLabel(last) + rest;
    TokensOfLabel(last, rest);
    SplitChars(last, [], Tokens(rest));
    assert [] + Lower(last) == Lower(last);
    if init == [] {
      assert PrintLabels(labels) == PrintLabel(last);
      assert LowerLabels(init) + Split(Tokens(rest), Lower(last)) == Split(Tokens(rest), Lower(last));
    } else {
      assert PrintLabels(labels) + rest == PrintLabels(init) + ([DOT] + tail);
      LabelsOfPrint(init, [DOT] + tail);
      TokensOfDot(tail);
      var k := |init| - 1;
      SplitAtDot(Tokens(tail), Lower(init[k]));
      assert LowerLabels(init) == LowerLabels(init[..k]) + [Lower(init[k])];
      assert LowerLabels(init[..k]) + ([Lower(init[k])] + Split(Tokens(tail), []))
          == LowerLabels(init) + Split(Tokens(tail), []);
    }
  }

  lemma EmptyText(cur: Label)
    ensures Tokens([]) == [] && Split([], cur) == (if cur == [] then [] else [cur])
  {
  }

  /** Reading a printed name gives back its labels, in lower case. */
  lemma ReadPrint(labels: seq<Label>)
    requires LabelsOk(labels)
    ensures Labels(Print(labels)) == LowerLabels(labels)
  {
    hide Tokens;
    hide Split;
    hide PrintLabels;
    if labels == [] {
      TokensOfDot([]);
      SplitAtDot(Tokens([]), []);
      EmptyText([]);
      assert [DOT] + [] == [DOT];
    } else {
      assert PrintLabels(labels) + [] == PrintLabels(labels);
      LabelsOfPrint(labels, []);
      var k := |labels| - 1;
      EmptyText(Lower(labels[k]));
      assert LowerLabels(labels) == LowerLabels(labels[..k]) + [Lower(labels[k])];
    }
  }

  // ---- dns_domain_fromdot ---------------------------------------------------

  /** Labels with their length bytes, without the closing zero byte. */
  function OpenWire(labels: seq<Label>): seq<byte>
    requires forall i | 0 <= i < |labels| :: |labels[i]| <= MAXLABEL
  {
    if labels == [] then []
    else OpenWire(labels[..|labels| - 1]) + [|labels[|labels| - 1]|] + labels[|labels| - 1]
  }

  lemma {:induction false} WireOpens(labels: seq<Label>, more: seq<Label>)
    requires LabelsOk(labels) && LabelsOk(more)
    ensures Wire(labels + more) == OpenWire(labels) + Wire(more)
  {
    if labels == [] {
      assert labels + more == more && OpenWire(labels) + Wire(more) == Wire(more);
    } else {
      var init, last := labels[..|labels| - 1], labels[|labels| - 1];
      WireOpens(init, [last] + more);
      assert labels + more == init + ([last] + more);
      assert ([last] + more)[1..] == more;
      assert OpenWire(init) + ([|last|] + last + Wire(more)) == OpenWire(init) + [|last|] + last + Wire(more);
    }
  }

  lemma OpenWireLast(labels: seq<Label>, l: Label)
    requires LabelsOk(labels) && 1 <= |l| <= MAXLABEL
    ensures LabelsOk(labels + [l]) && OpenWire(labels + [l]) == OpenWire(labels) + [|l|] + l
  {
    assert (labels + [l])[..|labels|] == labels;
  }

  /** A label that has become too long stays in the result. */
  lemma {:induction false} TooLong(ts: seq<Token>, cur: Label)
    requires |cur| > MAXLABEL
    ensures !LabelsOk(Split(ts, cur))
  {
    if ts == [] {
      assert Split(ts, cur)[0] == cur;
    } else if ts[0] == Dot {
      assert Split(ts, cur)[0] == cur;
    } else {
      TooLong(ts[1..], cur + [ts[0].c]);
    }
  }

  lemma SuffixOk(a: seq<Label>, b: seq<Label>)
    ensures LabelsOk(a + b) ==> LabelsOk(a) && LabelsOk(b)
    ensures LabelsOk(a) && LabelsOk(b) ==> LabelsOk(a + b)
  {
    assert forall i | 0 <= i < |b| :: (a + b)[|a| + i] == b[i];
    assert forall i | 0 <= i < |a| :: (a + b)[i] == a[i];
  }

  /** A label that no longer fits makes the whole name too long. */
  lemma NoRoom(done: seq<Label>, l: Label, more: seq<Label>)
    requires LabelsOk(done) && 1 <= |l| <= MAXLABEL && |OpenWire(done)| + |l| + 1 > MAXNAME
    ensures !NameOk(done + ([l] + more))
  {
    SuffixOk(done, [l] + more);
    SuffixOk([l], more);
    if LabelsOk(done + ([l] + more)) {
      WireOpens(done, [l] + more);
      assert ([l] + more)[1..] == more;
    }
  }

  lemma OctalWrap(v: nat, d: nat)
    ensures (v * 8 % 256 + d) % 256 == (8 * v + d) % 256
  {
    assert v * 8 == v * 8 / 256 * 256 + v * 8 % 256;
  }

  /** Reading one character of a label, with a possible escape, at buf[i0]. None:
      a backslash at the end of the text. */
  method ReadChar(buf: seq<byte>, i0: nat) returns (r: Option<(byte, nat)>)
    requires i0 < |buf| && buf[i0] != DOT
    ensures match FirstToken(buf[i0..])
            case None => r == None
            case Some((t, n)) => r.Some? && t == Char(r.value.0) && r.value.1 == i0 + n
  {
    var i := i0;
    var ch := buf[i];
    i := i + 1;
    if ch == BACKSLASH {
      if i == |buf| {
        return None;
      }
      ch := buf[i];
      i := i + 1;
      if ch >= ZERO && ch <= ZERO + 7 {
        ch := ch - ZERO;
        if i < |buf| && buf[i] >= ZERO && buf[i] <= ZERO + 7 {
          ch := ch * 8;
          ch := ch + (buf[i] - ZERO);
          i := i + 1;
          if i < |buf| && buf[i] >= ZERO && buf[i] <= ZERO + 7 {
            OctalWrap(ch, buf[i] - ZERO);
            ch := ch as int * 8 % 256;
            ch := (ch as int + (buf[i] - ZERO) as int) % 256;
            i := i + 1;
          }
        }
      }
    }
    return Some((ch, i));
  }

  lemma TokenStep(s: seq<byte>, i: nat)
    requires i < |s|
    ensures match FirstToken(s[i..])
            case None => Tokens(s[i..]) == []
            case Some((t, n)) => i + n <= |s| && Tokens(s[i..]) == [t] + Tokens(s[i + n..])
  {
    if FirstToken(s[i..]).Some? {
      var n := FirstToken(s[i..]).value.1;
      assert s[i..][n..] == s[i + n..];
    }
  }

  lemma SplitChar(c: byte, ts: seq<Token>, cur: Label)
    ensures Split([Char(c)] + ts, cur) == Split(ts, cur + [c])
  {
    assert ([Char(c)] + ts)[1..] == ts;
  }

  /** byte_copy of the first n bytes of src to dst + at. */
  method CopyBytes(dst: array<byte>, at: nat, src: array<byte>, n: nat)
    requires at + n <= dst.Length && n <= src.Length && dst != src
    modifies dst
    ensures dst[..at + n] == old(dst[..at]) + src[..n]
  {
    for k := 0 to n
      invariant dst[..at + k] == old(dst[..at]) + src[..k]
    {
      dst[at + k] := src[k];
    }
  }

  /** Append the collected label to the name; false if it does not fit. */
  method Flush(name: array<byte>, namelen0: nat, lab: array<byte>, labellen: nat, ghost done: seq<Label>)
    returns (ok: bool, namelen: nat)
    requires name.Length == MAXNAME && lab.Length == MAXLABEL && name != lab
    requires namelen0 <= MAXNAME && labellen <= MAXLABEL
    requires LabelsOk(done) && name[..namelen0] == OpenWire(done)
    modifies name
    ensures ok <==> labellen == 0 || namelen0 + labellen + 1 <= MAXNAME
    ensures ok && labellen == 0 ==> namelen == namelen0 && name[..namelen] == OpenWire(done)
    ensures ok && labellen > 0 ==>
              namelen == namelen0 + labellen + 1 && LabelsOk(done + [old(lab[..labellen])])
              && name[..namelen] == OpenWire(done + [old(lab[..labellen])])
  {
    hide OpenWire;
    namelen := namelen0;
    if labellen > 0 {
      if namelen + labellen + 1 > name.Length {
        return false, namelen;
      }
      OpenWireLast(done, lab[..labellen]);
      name[namelen] := labellen;
      namelen := namelen + 1;
      assert name[..namelen] == OpenWire(done) + [labellen];
      CopyBytes(name, namelen, lab, labellen);
      namelen := namelen + labellen;
    }
    ok := true;
  }

  /** Closing the current label: it joins the finished ones, if it is not empty
      and there is room. */
  lemma DotStep(done: seq<Label>, cur: Label, more: seq<Label>)
    ensures var all := done + ((if cur == [] then [] else [cur]) + more);
            all == (if |cur| > 0 then done + [cur] else done) + more
            && (LabelsOk(done) && 1 <= |cur| <= MAXLABEL && |OpenWire(done)| + |cur| + 1 > MAXNAME ==> !NameOk(all))
  {
    if LabelsOk(done) && 1 <= |cur| <= MAXLABEL && |OpenWire(done)| + |cur| + 1 > MAXNAME {
      NoRoom(done, cur, more);
    }
  }

  /** dns_domain_fromdot: the wire form of exactly the labels in the text, provided
      they form a legal name. */
  method FromDot(buf: seq<byte>) returns (r: Option<seq<byte>>)
    ensures r == if NameOk(Labels(buf)) then Some(Wire(Labels(buf))) else None
  {
    hide Tokens;
    hide Split;
    hide FirstToken;
    hide Wire;
    hide OpenWire;
    var lab := new byte[MAXLABEL](_ => 0);
    var labellen: nat := 0;
    var name := new byte[MAXNAME](_ => 0);
    var namelen: nat := 0;
    ghost var done: seq<Label> := [];
    var i := 0;
    Start(buf);
    while i < |buf|
      invariant i <= |buf| && labellen <= MAXLABEL && namelen <= MAXNAME
      invariant LabelsOk(done) && name[..namelen] == OpenWire(done)
      invariant Labels(buf) == done + Split(Tokens(buf[i..]), lab[..labellen])
      decreases |buf| - i
    {
      TokenStep(buf, i);
      ghost var cur := lab[..labellen];
      if buf[i] == DOT {
        DotFirst(buf, i);
        SplitAtDot(Tokens(buf[i + 1..]), cur);
        i := i + 1;
        var ok;
        DotStep(done, cur, Split(Tokens(buf[i..]), []));
        ok, namelen := Flush(name, namelen, lab, labellen, done);
        if !ok {
          return None;
        }
        done := if labellen > 0 then done + [cur] else done;
        labellen := 0;
      } else {
        var c := ReadChar(buf, i);
        if c == None {
          break;
        }
        var (ch, next) := c.value;
        SplitChar(ch, Tokens(buf[next..]), cur);
        i := next;
        if labellen >= lab.Length {
          TooLong(Tokens(buf[i..]), cur + [ch]);
          SuffixOk(done, Split(Tokens(buf[i..]), cur + [ch]));
          return None;
        }
        lab[labellen] := ch;
        labellen := labellen + 1;
        assert lab[..labellen] == cur + [ch];
      }
    }
    assert buf[|buf|..] == [];
    EmptyText(lab[..labellen]);
    assert Tokens(buf[i..]) == [];
    DotStep(done, lab[..labellen], []);
    r := Finish(name, namelen, lab, labellen, done);
  }

  /** The end of dns_domain_fromdot: the last label, the zero byte, the copy. */
  method Finish(name: array<byte>, namelen0: nat, lab: array<byte>, labellen: nat, ghost done: seq<Label>)
    returns (r: Option<seq<byte>>)
    requires name.Length == MAXNAME && lab.Length == MAXLABEL && name != lab
    requires namelen0 <= MAXNAME && labellen <= MAXLABEL
    requires LabelsOk(done) && name[..namelen0] == OpenWire(done)
    modifies name
    ensures var cur := old(lab[..labellen]);
            var all := done + if cur == [] then [] else [cur];
            LabelsOk(all) && r == if NameOk(all) then Some(Wire(all)) else None
  {
    hide OpenWire;
    hide Wire;
    ghost var cur := lab[..labellen];
    ghost var all := done + if cur == [] then [] else [cur];
    SuffixOk(done, if cur == [] then [] else [cur]);
    if cur != [] {
      OpenWireLast(done, cur);
    } else {
      assert all == done;
    }
    WireOpens(all, []);
    WireOfNone();
    assert all + [] == all;
    var ok, namelen := Flush(name, namelen0, lab, labellen, done);
    if !ok {
      return None;
    }
    if namelen + 1 > name.Length {
      return None;
    }
    name[namelen] := 0;
    namelen := namelen + 1;
    assert name[..namelen] == OpenWire(all) + [0];
    return Some(name[..namelen]);
  }

  lemma WireOfNone()
    ensures Wire([]) == [0]
  {
  }

  lemma Start(buf: seq<byte>)
    ensures buf[0..] == buf && [] + Split(Tokens(buf), []) == Labels(buf) && OpenWire([]) == []
  {
  }

  lemma DotFirst(s: seq<byte>, i: nat)
    requires i < |s| && s[i] == DOT
    ensures FirstToken(s[i..]) == Some((Dot, 1))
  {
  }

  // ---- dns_domain_todot_cat -------------------------------------------------

  /** One character of a label, in lower case and escaped if need be. */
  method AppendChar(out0: seq<byte>, c: byte) returns (out: seq<byte>)
    ensures out == out0 + Escape(LowerByte(c))
  {
    var ch2 := c;
    if ch2 >= 65 && ch2 <= 90 {
      ch2 := ch2 + 32;
    }
    if (ch2 >= 97 && ch2 <= 122) || (ch2 >= 48 && ch2 <= 57) || ch2 == 45 || ch2 == 95 {
      out := out0 + [ch2];
    } else {
      var buf := new byte[4](_ => 0);
      var ch3 := ch2;
      buf[3] := ZERO + ch3 % 8;
      ch3 := ch3 / 8;
      buf[2] := ZERO + ch3 % 8;
      ch3 := ch3 / 8;
      buf[1] := ZERO + ch3 % 8;
      buf[0] := BACKSLASH;
      OctalDigits(ch2);
      assert buf[..] == [BACKSLASH, ZERO + ch2 / 64, ZERO + ch2 / 8 % 8, ZERO + ch2 % 8];
      out := out0 + buf[..];
    }
  }

  lemma PrintNext(l: Label, j: nat)
    requires j < |l|
    ensures PrintLabel(l[..j + 1]) == PrintLabel(l[..j]) + Escape(LowerByte(l[j]))
  {
    assert l[..j + 1][..j] == l[..j];
  }

  lemma PrintLabelsNext(labels: seq<Label>, k: nat)
    requires k < |labels|
    ensures PrintLabels(labels[..k + 1]) == (if k == 0 then [] else PrintLabels(labels[..k]) + [DOT]) + PrintLabel(labels[k])
  {
    assert labels[..k + 1][..k] == labels[..k];
    if k == 0 {
      assert [] + PrintLabel(labels[0]) == PrintLabel(labels[0]);
    }
  }

  /** The inner loop of dns_domain_todot_cat: append the ch bytes of a label. */
  method AppendLabel(out0: seq<byte>, d: seq<byte>, x: nat, ch: nat) returns (out: seq<byte>)
    requires x + ch <= |d|
    ensures out == out0 + PrintLabel(d[x..x + ch])
  {
    ghost var l := d[x..x + ch];
    out := out0;
    for j := 0 to ch
      invariant out == out0 + PrintLabel(l[..j])
    {
      PrintNext(l, j);
      out := AppendChar(out, d[x + j]);
    }
    assert l[..ch] == l;
  }

  /** dns_domain_todot_cat: append the text of the name at the front of d. */
  method TodotCat(out0: seq<byte>, d: seq<byte>, ghost labels: seq<Label>) returns (out: seq<byte>)
    requires LabelsOk(labels) && Wire(labels) <= d
    ensures out == out0 + Print(labels)
  {
    hide Wire;
    hide PrintLabels;
    hide PrintLabel;
    assert labels[0..] == labels;
    WireStep(labels, 0);
    if d[0] == 0 {
      return out0 + [DOT];
    }
    out := out0;
    var x: nat := 0;
    ghost var k := 0;
    ghost var before: seq<byte> := [];
    assert out0 + [] == out0;
    while true
      invariant k < |labels| && x == |Wire(labels)| - |Wire(labels[k..])|
      invariant before == (if k == 0 then [] else PrintLabels(labels[..k]) + [DOT]) && out == out0 + before
      decreases |labels| - k
    {
      WireStep(labels, k);
      var ch: nat := d[x];
      x := x + 1;
      ghost var l := labels[k];
      LabelBytes(labels, k, d);
      out := AppendLabel(out, d, x, ch);
      x := x + ch;
      assert out0 + before + PrintLabel(l) == out0 + (before + PrintLabel(l));
      PrintLabelsNext(labels, k);
      k := k + 1;
      WireStep(labels, k);
      if d[x] == 0 {
        assert labels[..k] == labels;
        return;
      }
      out := out + [DOT];
      before := PrintLabels(labels[..k]) + [DOT];
    }
  }

  /** The bytes of label k, where it stands in memory that starts with the name. */
  lemma LabelBytes(labels: seq<Label>, k: nat, d: seq<byte>)
    requires LabelsOk(labels) && k < |labels| && Wire(labels) <= d
    ensures var x := |Wire(labels)| - |Wire(labels[k..])| + 1;
            0 <= x && x + |labels[k]| < |Wire(labels)| && d[x..x + |labels[k]|] == labels[k]
  {
    WireAt(labels, k);
    WireStep(labels, k);
    var x, n := |Wire(labels)| - |Wire(labels[k..])|, |labels[k]|;
    var tail := Wire(labels)[x..];
    assert tail == [n] + labels[k] + Wire(labels[k..][1..]);
    assert tail[1..1 + n] == labels[k];
    assert forall j | x + 1 <= j < x + 1 + n :: d[j] == tail[j - x];
  }

  /** Print a legal name, read the text back: the same name in lower case. */
  method PrintThenRead(d: seq<byte>, ghost labels: seq<Label>) returns (r: Option<seq<byte>>)
    requires NameOk(labels) && d == Wire(labels)
    ensures r == Some(Lower(d))
  {
    var text := TodotCat([], d, labels);
    assert [] + Print(labels) == Print(labels);
    ReadPrint(labels);
    LowerWire(labels);
    r := FromDot(text);
  }
}
