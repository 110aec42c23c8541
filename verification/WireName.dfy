/**
 Expansion of names in a message: ns_name_unpack and ns_name_skip of libsres/ns_name.c
 (sections 3.1 and 4.1.4 of RFC 1035).  Positions are offsets from the start of the message.
*/
module WireName {
  import opened Names

  const BITSTRING := 0x41

  /** labellen: octets of data after the label octet at 'p', or -1.  A bit-string label
      whose count octet would lie outside the message is rejected by every caller, as here. */
  function LabelLen(m: seq<Byte>, p: nat): (l: int)
    requires p < |m|
    ensures l >= -1
    ensures 0 < m[p] < 64 || 128 <= m[p] < 192 ==> l == m[p]
  {
    var b := m[p];
    if b >= 192 then -1
    else if 64 <= b < 128 then
      if b != BITSTRING || p + 1 >= |m| then -1
      else
        var bits: int := if m[p + 1] == 0 then 256 else m[p + 1];
        (bits + 7) / 8 + 1
    else b
  }

  /** A label of the two types that carry their data in line. */
  predicate InLine(m: seq<Byte>, p: nat) {
    p < |m| && 0 < m[p] < 128 && LabelLen(m, p) >= 0 && p + 1 + LabelLen(m, p) < |m|
  }

  predicate IsPointer(m: seq<Byte>, p: nat) {
    p + 1 < |m| && m[p] >= 192
  }

  function Target(m: seq<Byte>, p: nat): (t: nat)
    requires IsPointer(m, p)
    ensures t < 0x4000
  {
    (m[p] as int - 192) * 256 + m[p + 1] as int
  }

  // ----- what a name in a message means -----

  /** The uncompressed octets; and the octets read up to and including the last pointer, 0 without one. */
  datatype Expansion = Expansion(wire: seq<Byte>, cost: nat)

  /** The plain recursive reading of a name, following at most 'hops' pointers. */
  function Expand(m: seq<Byte>, p: nat, hops: nat): (e: Option<Expansion>)
    ensures e.Some? ==> |e.value.wire| > 0
    decreases hops, |m| - p
  {
    if p >= |m| then None
    else if m[p] == 0 then Some(Expansion([0], 0))
    else if InLine(m, p) then
      var q := p + 1 + LabelLen(m, p);
      var rest := Expand(m, q, hops);
      if rest.None? then None
      else Some(Expansion(m[p..q] + rest.value.wire, if rest.value.cost == 0 then 0 else q - p + rest.value.cost))
    else if IsPointer(m, p) && hops > 0 then
      var rest := Expand(m, Target(m, p), hops - 1);
      if rest.None? then None else Some(Expansion(rest.value.wire, 2 + rest.value.cost))
    else None
  }

  /** Octets of the name before the first jump, the terminator included. */
  function SegmentLen(m: seq<Byte>, p: nat): (l: nat)
    decreases |m| - p
  {
    if p >= |m| then 0
    else if InLine(m, p) then 1 + LabelLen(m, p) + SegmentLen(m, p + 1 + LabelLen(m, p))
    else if m[p] >= 192 then 2 else 1
  }

  /** More hops never change a name that could be read with fewer. */
  lemma {:induction false} ExpandMonotone(m: seq<Byte>, p: nat, h: nat, k: nat)
    requires h <= k && Expand(m, p, h).Some?
    ensures Expand(m, p, k) == Expand(m, p, h)
    decreases h, |m| - p
  {
    if InLine(m, p) {
      ExpandMonotone(m, p + 1 + LabelLen(m, p), h, k);
    } else if m[p] != 0 {
      ExpandMonotone(m, Target(m, p), h - 1, k - 1);
    }
  }

  // ----- ns_name_unpack -----

  predicate Accepts(m: seq<Byte>, src: int, dstsiz: nat) {
    && 0 <= src < |m|
    && Expand(m, src, |m|).Some?
    && |Expand(m, src, |m|).value.wire| <= dstsiz
    && Expand(m, src, |m|).value.cost < |m|
  }

  /** What is still to be read from 'p' completes 'done' octets and 'checked' to the whole name. */
  ghost predicate Progress(m: seq<Byte>, src: nat, p: nat, hops: nat, done: seq<Byte>, checked: nat, last: nat) {
    var whole, rest := Expand(m, src, |m|), Expand(m, p, hops);
    && (whole.Some? <==> rest.Some?)
    && (whole.Some? ==>
          && whole.value.wire == done + rest.value.wire
          && whole.value.cost == if rest.value.cost == 0 then last else checked + rest.value.cost)
  }

  lemma ProgressLabel(m: seq<Byte>, src: nat, p: nat, hops: nat, done: seq<Byte>, checked: nat, last: nat)
    requires InLine(m, p) && Progress(m, src, p, hops, done, checked, last)
    ensures var q := p + 1 + LabelLen(m, p); Progress(m, src, q, hops, done + m[p..q], checked + (q - p), last)
  {
    var q := p + 1 + LabelLen(m, p);
    var rest := Expand(m, q, hops);
    if rest.Some? {
      assert done + (m[p..q] + rest.value.wire) == done + m[p..q] + rest.value.wire;
    }
  }

  lemma ProgressPointer(m: seq<Byte>, src: nat, p: nat, hops: nat, done: seq<Byte>, checked: nat, last: nat)
    requires IsPointer(m, p) && hops > 0 && Progress(m, src, p, hops, done, checked, last)
    ensures Progress(m, src, Target(m, p), hops - 1, done, checked + 2, checked + 2)
  {
  }

  lemma ProgressStops(m: seq<Byte>, src: nat, p: nat, hops: nat, done: seq<Byte>, checked: nat, last: nat)
    requires Progress(m, src, p, hops, done, checked, last)
    ensures p < |m| && m[p] == 0 ==> Expand(m, src, |m|) == Some(Expansion(done + [0], last))
    ensures p >= |m| || (m[p] != 0 && !InLine(m, p) && !IsPointer(m, p)) ==> Expand(m, src, |m|).None?
    ensures Expand(m, src, |m|).Some? ==> |done| < |Expand(m, src, |m|).value.wire|
    ensures Expand(m, src, |m|).Some? && InLine(m, p) ==> |done| + 1 + LabelLen(m, p) < |Expand(m, src, |m|).value.wire|
    ensures Expand(m, src, |m|).Some? ==> Expand(m, src, |m|).value.cost >= last || Expand(m, p, hops).value.cost > 0
    ensures Expand(m, src, |m|).Some? && last <= checked ==> Expand(m, src, |m|).value.cost >= last
  {
    if InLine(m, p) {
      var q := p + 1 + LabelLen(m, p);
      var rest := Expand(m, q, hops);
    }
  }

  lemma ProgressStart(m: seq<Byte>, src: nat)
    ensures Progress(m, src, src, |m|, [], 0, 0)
  {
    var e := Expand(m, src, |m|);
    if e.Some? { assert [] + e.value.wire == e.value.wire; }
  }

  /** The consumed length is fixed by the first segment. */
  lemma SegmentLenStep(m: seq<Byte>, p: nat)
    requires p < |m|
    ensures InLine(m, p) ==> SegmentLen(m, p) == 1 + LabelLen(m, p) + SegmentLen(m, p + 1 + LabelLen(m, p))
    ensures m[p] == 0 ==> SegmentLen(m, p) == 1
    ensures m[p] >= 192 ==> SegmentLen(m, p) == 2
  {
  }

  method Unpack(msg: seq<Byte>, src: int, dst: array<Byte>) returns (n: int)
    requires dst.Length >= 1
    modifies dst
    ensures n >= 0 <==> Accepts(msg, src, dst.Length)
    ensures n >= 0 ==> 0 <= src && n == SegmentLen(msg, src)
    ensures n >= 0 ==> 0 <= src && var w := Expand(msg, src, |msg|).value.wire; |w| <= dst.Length && dst[..|w|] == w
    ensures n < 0 ==> n == -1
  {
    hide Expand, LabelLen, Progress, SegmentLen;
    var len := -1;
    var checked := 0;
    var dstp := 0;
    var srcp := src;
    if srcp < 0 || srcp >= |msg| {
      return -1;
    }
    ghost var hops, last := |msg|, 0;
    ProgressStart(msg, src);
    assert dst[..0] == [];
    while msg[srcp] != 0
      invariant 0 <= srcp < |msg| && 0 <= dstp < dst.Length
      invariant 0 <= last <= checked && last < |msg|
      invariant 0 <= hops <= |msg| && 2 * (|msg| - hops) <= last
      invariant Progress(msg, src, srcp, hops, dst[..dstp], checked, last)
      invariant len < 0 ==> len == -1 && srcp - src + SegmentLen(msg, srcp) == SegmentLen(msg, src)
      invariant len >= 0 ==> len == SegmentLen(msg, src)
      decreases dst.Length - dstp, |msg| - last
    {
      var b := msg[srcp];
      ProgressStops(msg, src, srcp, hops, dst[..dstp], checked, last);
      SegmentLenStep(msg, srcp);
      if b < 128 {
        var l := LabelLen(msg, srcp);
        if l < 0 {
          return -1;
        }
        if dstp + l + 1 >= dst.Length || srcp + 1 + l >= |msg| {
          return -1;
        }
        checked := checked + l + 1;
        ProgressLabel(msg, src, srcp, hops, dst[..dstp], checked - l - 1, last);
        label Before:
        forall k | 0 <= k < l + 1 { dst[dstp + k] := msg[srcp + k]; }
        assert dst[..dstp + l + 1] == old@Before(dst[..dstp]) + msg[srcp..srcp + l + 1];
        dstp := dstp + l + 1;
        srcp := srcp + 1 + l;
      } else if b >= 192 {
        if srcp + 1 >= |msg| {
          return -1;
        }
        if len < 0 {
          len := srcp - src + 2;
        }
        var t := Target(msg, srcp);
        if t >= |msg| {
          OutOfRange(msg, src, srcp, hops, dst[..dstp], checked, last);
          return -1;
        }
        ProgressPointer(msg, src, srcp, hops, dst[..dstp], checked, last);
        srcp := t;
        checked := checked + 2;
        last, hops := checked, hops - 1;
        if checked >= |msg| {
          ProgressStops(msg, src, srcp, hops, dst[..dstp], checked, last);
          return -1;
        }
      } else {
        return -1;
      }
    }
    ProgressStops(msg, src, srcp, hops, dst[..dstp], checked, last);
    SegmentLenStep(msg, srcp);
    dst[dstp] := 0;
    if len < 0 {
      len := srcp + 1 - src;
    }
    return len;
  }

  lemma OutOfRange(m: seq<Byte>, src: nat, p: nat, hops: nat, done: seq<Byte>, checked: nat, last: nat)
    requires IsPointer(m, p) && Target(m, p) >= |m| && Progress(m, src, p, hops, done, checked, last)
    ensures Expand(m, src, |m|).None?
  {
    if hops > 0 {
      assert Expand(m, Target(m, p), hops - 1).None?;
    }
  }

  // ----- ns_name_skip -----

  /** Where the name at 'p' ends; reading may also stop exactly at the end of the message. */
  function SkipTo(m: seq<Byte>, p: nat): (q: Option<nat>)
    ensures q.Some? ==> p <= q.value <= |m|
    decreases |m| - p
  {
    if p > |m| then None
    else if p == |m| then Some(p)
    else if m[p] == 0 then Some(p + 1)
    else if m[p] < 128 then
      if LabelLen(m, p) < 0 then None else SkipTo(m, p + 1 + LabelLen(m, p))
    else if m[p] >= 192 then if p + 2 <= |m| then Some(p + 2) else None
    else None
  }

  /** The outcome is the new position, or -1. */
  method Skip(m: seq<Byte>, ptr: nat) returns (r: int)
    ensures r == if SkipTo(m, ptr).Some? then SkipTo(m, ptr).value else -1
  {
    hide LabelLen;
    var cp := ptr;
    while cp < |m|
      invariant SkipTo(m, cp) == SkipTo(m, ptr)
      decreases |m| - cp
    {
      var n := m[cp];
      if n == 0 {
        cp := cp + 1;
        return cp;
      }
      if n < 128 {
        var l := LabelLen(m, cp);
        if l < 0 {
          return -1;
        }
        cp := cp + 1 + l;
        continue;
      } else if n >= 192 {
        cp := cp + 2;
        if cp > |m| {
          return -1;
        }
        return cp;
      } else {
        return -1;
      }
    }
    if cp > |m| {
      return -1;
    }
    return cp;
  }

  /** A name that unpacks is skipped over exactly. */
  lemma {:induction false} UnpackAgreesWithSkip(m: seq<Byte>, p: nat, hops: nat)
    requires Expand(m, p, hops).Some?
    ensures SkipTo(m, p) == Some(p + SegmentLen(m, p)) && SegmentLen(m, p) > 0
    decreases hops, |m| - p
  {
    hide LabelLen;
    if InLine(m, p) {
      UnpackAgreesWithSkip(m, p + 1 + LabelLen(m, p), hops);
    }
  }

  // ----- names whose segments lie one before the other -----

  /**
   The name read at 'p' inside the segment that starts at 'seg' and ends before 'lim', when it
   is made of ordinary labels and every pointer leads to a segment lying wholly before the one
   that holds it.  With 'named', no pointer leads straight to a pointer or to the root.
  */
  function Back(m: seq<Byte>, p: nat, seg: nat, lim: nat, named: bool): (n: Option<Name>)
    requires lim <= |m|
    decreases seg, lim - p
  {
    if p >= lim then None
    else if m[p] == 0 then Some([])
    else if m[p] <= MAXLABEL then
      var q: nat := p + 1 + m[p] as int;
      if q > lim then None else
        var rest := Back(m, q, seg, lim, named);
        if rest.None? then None else Some([m[p + 1..q]] + rest.value)
    else if m[p] >= 192 && p + 1 < lim && Target(m, p) < seg <= lim then
      var t := Target(m, p);
      if named && !(1 <= m[t] <= MAXLABEL) then None else Back(m, t, t, seg, named)
    else None
  }

  lemma {:induction false} BackValid(m: seq<Byte>, p: nat, seg: nat, lim: nat, named: bool)
    requires lim <= |m| && Back(m, p, seg, lim, named).Some?
    ensures ValidLabels(Back(m, p, seg, lim, named).value)
    decreases seg, lim - p
  {
    if m[p] != 0 {
      if m[p] <= MAXLABEL {
        BackValid(m, p + 1 + m[p] as int, seg, lim, named);
      } else {
        BackValid(m, Target(m, p), Target(m, p), seg, named);
      }
    }
  }

  /** Such a name always expands, to its own labels, and the octets read on the way are disjoint. */
  lemma {:induction false} BackExpands(m: seq<Byte>, p: nat, seg: nat, lim: nat, named: bool, hops: nat)
    requires lim <= |m| && Back(m, p, seg, lim, named).Some? && hops >= seg
    ensures ValidLabels(Back(m, p, seg, lim, named).value)
    ensures Expand(m, p, hops).Some?
    ensures Expand(m, p, hops).value.wire == Encode(Back(m, p, seg, lim, named).value)
    ensures var c := Expand(m, p, hops).value.cost; c == 0 || c < (lim - p) + seg
    decreases seg, lim - p
  {
    BackExpandsTo(m, p, seg, lim, named, hops);
    BackValid(m, p, seg, lim, named);
    hide Expand, Back, Encode;
  }

  /** The name at 'p' expands to 'n', with fewer than 'bound' octets counted. */
  predicate ExpandsTo(m: seq<Byte>, p: nat, hops: nat, n: Name, bound: int)
    requires ValidLabels(n)
  {
    var e := Expand(m, p, hops);
    e.Some? && e.value.wire == Encode(n) && (e.value.cost == 0 || e.value.cost < bound)
  }

  lemma {:induction false} BackExpandsTo(m: seq<Byte>, p: nat, seg: nat, lim: nat, named: bool, hops: nat)
    requires lim <= |m| && Back(m, p, seg, lim, named).Some? && hops >= seg
    ensures ValidLabels(Back(m, p, seg, lim, named).value)
    ensures ExpandsTo(m, p, hops, Back(m, p, seg, lim, named).value, lim - p + seg)
    decreases seg, lim - p
  {
    BackValid(m, p, seg, lim, named);
    BackStep(m, p, seg, lim, named);
    hide *;
    var n := Back(m, p, seg, lim, named).value;
    if m[p] == 0 {
      RootExpands(m, p, hops, lim - p + seg);
    } else if m[p] < 192 {
      var q := p + 1 + m[p] as int;
      BackExpandsTo(m, q, seg, lim, named, hops);
      LabelExpands(m, p, q, hops, n, lim - q + seg);
    } else {
      BackExpandsTo(m, Target(m, p), Target(m, p), seg, named, hops - 1);
      PointerExpands(m, p, hops, n, seg, lim - p + seg);
    }
  }

  lemma RootExpands(m: seq<Byte>, p: nat, hops: nat, bound: int)
    requires p < |m| && m[p] == 0
    ensures ExpandsTo(m, p, hops, [], bound)
  {
  }

  lemma LabelExpands(m: seq<Byte>, p: nat, q: nat, hops: nat, n: Name, bound: int)
    requires ValidLabels(n) && n != [] && q == p + 1 + |n[0]| < |m| && m[p] == |n[0]| && n[0] == m[p + 1..q]
    requires ExpandsTo(m, q, hops, n[1..], bound)
    ensures ExpandsTo(m, p, hops, n, bound + q - p)
  {
    hide Encode;
    EncodeLabel(m, p, n);
  }

  lemma PointerExpands(m: seq<Byte>, p: nat, hops: nat, n: Name, bound: int, more: int)
    requires ValidLabels(n) && IsPointer(m, p) && hops > 0 && more >= bound + 2 > 2
    requires ExpandsTo(m, Target(m, p), hops - 1, n, bound)
    ensures ExpandsTo(m, p, hops, n, more)
  {
    hide Encode;
  }

  lemma BackStep(m: seq<Byte>, p: nat, seg: nat, lim: nat, named: bool)
    requires lim <= |m| && Back(m, p, seg, lim, named).Some?
    ensures p < lim && (m[p] <= MAXLABEL || m[p] >= 192)
    ensures var n := Back(m, p, seg, lim, named).value;
            if m[p] == 0 then n == []
            else if m[p] < 192 then
              var q := p + 1 + m[p] as int;
              q < lim && Back(m, q, seg, lim, named).Some? && n != []
              && n[0] == m[p + 1..q] && n[1..] == Back(m, q, seg, lim, named).value
            else
              p + 1 < lim && IsPointer(m, p) && Target(m, p) < seg <= lim
              && Back(m, Target(m, p), Target(m, p), seg, named) == Some(n)
  {
  }

  lemma EncodeLabel(m: seq<Byte>, p: nat, n: Name)
    requires ValidLabels(n) && n != [] && p + 1 + |n[0]| <= |m|
    requires m[p] == |n[0]| && m[p + 1..p + 1 + |n[0]|] == n[0]
    ensures Encode(n) == m[p..p + 1 + |n[0]|] + Encode(n[1..])
  {
    assert [|n[0]|] + n[0] == m[p..p + 1 + |n[0]|];
  }

  /**
   The loop guard of ns_name_unpack counts the octets read and gives up when they reach the
   size of the message.  It never rejects a name whose segments lie one before the other.
  */
  lemma GuardNeverRejects(m: seq<Byte>, p: nat, dstsiz: nat)
    requires p < |m| && Back(m, p, p, |m|, false).Some?
    requires WireLen(Back(m, p, p, |m|, false).value) <= dstsiz
    ensures Accepts(m, p, dstsiz)
    ensures ValidLabels(Back(m, p, p, |m|, false).value)
    ensures Expand(m, p, |m|).value.wire == Encode(Back(m, p, p, |m|, false).value)
  {
    BackExpands(m, p, p, |m|, false, |m|);
    hide Back, Expand;
  }

  // ----- stability of such names -----

  lemma OctetBelow(m: seq<Byte>, m': seq<Byte>, lim: nat, p: nat)
    requires p < lim <= |m| && lim <= |m'| && m[..lim] == m'[..lim]
    ensures m[p] == m'[p]
  {
    assert m[p] == m[..lim][p] == m'[..lim][p];
  }

  lemma SliceBelow(m: seq<Byte>, m': seq<Byte>, lim: nat, a: nat, b: nat)
    requires a <= b <= lim <= |m| && lim <= |m'| && m[..lim] == m'[..lim]
    ensures m[a..b] == m'[a..b]
    ensures a == 0 ==> m[..b] == m'[..b]
  {
    assert m[a..b] == m[..lim][a..b] && m'[a..b] == m'[..lim][a..b];
  }

  /** Only octets below 'lim' matter. */
  lemma {:induction false} BackStable(m: seq<Byte>, m': seq<Byte>, p: nat, seg: nat, lim: nat, named: bool)
    requires lim <= |m| && lim <= |m'| && m[..lim] == m'[..lim]
    ensures Back(m, p, seg, lim, named) == Back(m', p, seg, lim, named)
    decreases seg, lim - p
  {
    if p < lim {
      OctetBelow(m, m', lim, p);
      if 0 < m[p] <= MAXLABEL {
        var q := p + 1 + m[p] as int;
        if q <= lim {
          SliceBelow(m, m', lim, p + 1, q);
          BackStable(m, m', q, seg, lim, named);
        }
      } else if m[p] >= 192 && p + 1 < lim {
        OctetBelow(m, m', lim, p + 1);
        var t := Target(m, p);
        if t < seg <= lim {
          OctetBelow(m, m', lim, t);
          SliceBelow(m, m', lim, 0, seg);
          BackStable(m, m', t, t, seg, named);
        }
      }
    }
  }

  /** A later end of the segment, or a later start of it, allows no less. */
  lemma {:induction false} BackGrows(m: seq<Byte>, p: nat, seg: nat, lim: nat, seg': nat, lim': nat, named: bool)
    requires lim <= lim' <= |m| && seg <= seg' <= lim' && Back(m, p, seg, lim, named).Some?
    ensures Back(m, p, seg', lim', named) == Back(m, p, seg, lim, named)
    decreases seg, lim - p
  {
    if m[p] != 0 {
      if m[p] <= MAXLABEL {
        BackGrows(m, p + 1 + m[p] as int, seg, lim, seg', lim', named);
      } else {
        BackGrows(m, Target(m, p), Target(m, p), seg, Target(m, p), seg', named);
      }
    }
  }
}
