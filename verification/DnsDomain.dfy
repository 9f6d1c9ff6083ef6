/** Domain names in wire form (section 3.1 of RFC 1035): length-prefixed labels,
    closed by a zero byte. */
module DnsDomain {
  import opened Bytes
  import opened Wrappers

  type Label = seq<byte>

  const MAXLABEL: nat := 63
  const MAXNAME: nat := 255

  function Wire(labels: seq<Label>): (d: seq<byte>)
    requires forall i | 0 <= i < |labels| :: |labels[i]| <= MAXLABEL
    ensures d != []
  {
    if labels == [] then [0] else [|labels[0]|] + labels[0] + Wire(labels[1..])
  }

  ghost predicate LabelsOk(labels: seq<Label>) {
    forall i | 0 <= i < |labels| :: 1 <= |labels[i]| <= MAXLABEL
  }

  /** The limits of section 2.3.4 of RFC 1035. */
  ghost predicate NameOk(labels: seq<Label>) { LabelsOk(labels) && |Wire(labels)| <= MAXNAME }

  // ---- letter case ----------------------------------------------------------

  function LowerByte(c: byte): byte { if 65 <= c <= 90 then c + 32 else c }

  function Lower(s: seq<byte>): (t: seq<byte>)
    ensures |t| == |s|
  {
    seq(|s|, i requires 0 <= i < |s| => LowerByte(s[i]))
  }

  function LowerLabels(labels: seq<Label>): (t: seq<Label>)
    ensures |t| == |labels|
  {
    seq(|labels|, i requires 0 <= i < |labels| => Lower(labels[i]))
  }

  /** Length bytes are below 'A', so folding the case of a wire name folds its labels. */
  lemma {:induction false} LowerWire(labels: seq<Label>)
    requires LabelsOk(labels)
    ensures LabelsOk(LowerLabels(labels)) && Lower(Wire(labels)) == Wire(LowerLabels(labels))
  {
    var low := LowerLabels(labels);
    if labels != [] {
      LowerWire(labels[1..]);
      assert low[1..] == LowerLabels(labels[1..]);
      var head, tail := [|labels[0]|] + labels[0], Wire(labels[1..]);
      assert Lower(head + tail) == Lower(head) + Lower(tail);
      assert Lower(head) == [|labels[0]|] + Lower(labels[0]);
    }
  }

  /** A wire name determines its labels. */
  lemma {:induction false} WireInjective(a: seq<Label>, b: seq<Label>)
    requires LabelsOk(a) && LabelsOk(b) && Wire(a) == Wire(b)
    ensures a == b
  {
    assert a != [] ==> Wire(a)[0] == |a[0]|;
    assert b != [] ==> Wire(b)[0] == |b[0]|;
    if a != [] && b != [] {
      assert Wire(a)[0] == |a[0]| && Wire(b)[0] == |b[0]|;
      assert a[0] == Wire(a)[1..1 + |a[0]|] && b[0] == Wire(b)[1..1 + |b[0]|];
      assert Wire(a[1..]) == Wire(a)[1 + |a[0]|..] && Wire(b[1..]) == Wire(b)[1 + |b[0]|..];
      WireInjective(a[1..], b[1..]);
      assert a == [a[0]] + a[1..] && b == [b[0]] + b[1..];
    }
  }

  // ---- walking over a name --------------------------------------------------

  /** The name that starts with label k begins here. */
  lemma {:induction false} WireAt(labels: seq<Label>, k: nat)
    requires LabelsOk(labels) && k <= |labels|
    ensures |Wire(labels[k..])| <= |Wire(labels)|
    ensures Wire(labels)[|Wire(labels)| - |Wire(labels[k..])|..] == Wire(labels[k..])
  {
    if k > 0 {
      WireAt(labels[1..], k - 1);
      assert labels[1..][k - 1..] == labels[k..];
      var head, tail := [|labels[0]|] + labels[0], Wire(labels[1..]);
      assert Wire(labels) == head + tail;
      var n := |tail| - |Wire(labels[k..])|;
      assert (head + tail)[|head| + n..] == tail[n..];
    } else {
      assert labels[0..] == labels;
    }
  }

  /** Stepping over one label. */
  lemma WireStep(labels: seq<Label>, k: nat)
    requires LabelsOk(labels) && k <= |labels|
    ensures var x := |Wire(labels)| - |Wire(labels[k..])|;
            0 <= x < |Wire(labels)|
            && if k == |labels| then Wire(labels)[x] == 0 && x + 1 == |Wire(labels)|
               else Wire(labels)[x] == |labels[k]| && x + 1 + |labels[k]| == |Wire(labels)| - |Wire(labels[k + 1..])|
  {
    WireAt(labels, k);
    var x := |Wire(labels)| - |Wire(labels[k..])|;
    assert Wire(labels)[x] == Wire(labels)[x..][0];
    if k < |labels| {
      assert labels[k..][1..] == labels[k + 1..];
    }
  }

  /** dns_domain_length, on memory that starts with a name. */
  method DomainLength(dn: seq<byte>, ghost labels: seq<Label>) returns (len: nat)
    requires LabelsOk(labels) && Wire(labels) <= dn
    ensures len == |Wire(labels)|
  {
    hide Wire;
    ghost var k := 0;
    assert labels[0..] == labels;
    var x: nat := 0;
    WireStep(labels, 0);
    var c := dn[x];
    x := x + 1;
    while c != 0
      invariant k <= |labels| && x == |Wire(labels)| - |Wire(labels[k..])| + 1 <= |Wire(labels)|
      invariant c == Wire(labels)[x - 1] && (c == 0 <==> k == |labels|) && (c != 0 ==> c == |labels[k]|)
      decreases |labels| - k
    {
      WireStep(labels, k);
      x := x + c;
      k := k + 1;
      WireStep(labels, k);
      c := dn[x];
      x := x + 1;
    }
    WireStep(labels, k);
    return x;
  }

  /** case_diffb: do two byte strings of length len differ, letter case aside? */
  method CaseDiffb(s: seq<byte>, len: nat, t: seq<byte>) returns (diff: bool)
    requires len <= |s| && len <= |t|
    ensures diff <==> Lower(s[..len]) != Lower(t[..len])
  {
    var i := 0;
    while i < len
      invariant i <= len
      invariant forall k | 0 <= k < i :: LowerByte(s[k]) == LowerByte(t[k])
    {
      var x := (s[i] as int + 256 - 65) % 256;
      x := if x <= 25 then x + 97 else (x + 65) % 256;
      var y := (t[i] as int + 256 - 65) % 256;
      y := if y <= 25 then y + 97 else (y + 65) % 256;
      assert x == LowerByte(s[i]) && y == LowerByte(t[i]);
      if x != y {
        assert Lower(s[..len])[i] != Lower(t[..len])[i];
        return true;
      }
      i := i + 1;
    }
    assert Lower(s[..len]) == Lower(t[..len]);
    return false;
  }

  /** Names in memory are equal, letter case aside, exactly when their labels are. */
  method DomainEqual(dn1: seq<byte>, dn2: seq<byte>, ghost a: seq<Label>, ghost b: seq<Label>) returns (eq: bool)
    requires LabelsOk(a) && Wire(a) <= dn1 && LabelsOk(b) && Wire(b) <= dn2
    ensures eq <==> LowerLabels(a) == LowerLabels(b)
  {
    var len := DomainLength(dn1, a);
    var len2 := DomainLength(dn2, b);
    LowerWire(a);
    LowerWire(b);
    if len != len2 {
      return false;
    }
    var diff := CaseDiffb(dn1, len, dn2);
    assert dn1[..len] == Wire(a) && dn2[..len] == Wire(b);
    if !diff {
      WireInjective(LowerLabels(a), LowerLabels(b));
    }
    return !diff;
  }

  /** dns_domain_suffix: the position of the longest suffix of big that is the
      name little, letter case aside; None if there is none. */
  method DomainSuffix(big: seq<byte>, little: seq<byte>, ghost a: seq<Label>, ghost b: seq<Label>)
    returns (r: Option<nat>, ghost k: nat)
    requires LabelsOk(a) && Wire(a) <= big && LabelsOk(b) && Wire(b) <= little
    ensures r == None ==> forall j | 0 <= j <= |a| :: LowerLabels(a[j..]) != LowerLabels(b)
    ensures r.Some? ==> k <= |a| && r.value + |Wire(a[k..])| == |Wire(a)| && LowerLabels(a[k..]) == LowerLabels(b)
    ensures r.Some? ==> forall j | 0 <= j < k :: LowerLabels(a[j..]) != LowerLabels(b)
  {
    k := 0;
    var x := 0;
    assert a[0..] == a;
    while true
      invariant k <= |a| && x == |Wire(a)| - |Wire(a[k..])|
      invariant forall j | 0 <= j < k :: LowerLabels(a[j..]) != LowerLabels(b)
      decreases |a| - k
    {
      WireAt(a, k);
      WireStep(a, k);
      assert Wire(a[k..]) <= big[x..] by {
        assert forall i | 0 <= i < |Wire(a[k..])| :: big[x..][i] == Wire(a)[x + i];
      }
      var eq := DomainEqual(big[x..], little, a[k..], b);
      if eq {
        return Some(x), k;
      }
      var c := big[x];
      if c == 0 {
        return None, k;
      }
      x := x + 1 + c;
      k := k + 1;
    }
  }
}
