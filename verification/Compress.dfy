/**
 Name compression over a whole message: dn_find, ns_name_pack and ns_name_rollback of
 libsres/ns_name.c (section 4.1.4 of RFC 1035).
*/
module Compress {
  import opened Names
  import opened WireName

  const OFFSET_LIMIT := 0x4000

  // ----- the search for an earlier occurrence -----

  /** The name that starts at the label 'sp' is 'dom', ignoring case. */
  predicate IsMatch(m: seq<Byte>, sp: nat, dom: Name)
    requires sp < |m|
  {
    var n := Back(m, sp, sp, |m|, true);
    n.Some? && Same(n.value, dom)
  }

  /** The first label start from 'sp' on, in the segment that holds it, where 'dom' starts. */
  function ScanSegment(m: seq<Byte>, sp: nat, dom: Name): (t: Option<nat>)
    ensures t.Some? ==> sp <= t.value < |m| && t.value < OFFSET_LIMIT &&
                        1 <= m[t.value] <= MAXLABEL && IsMatch(m, t.value, dom)
    decreases |m| - sp
  {
    if sp >= |m| || sp >= OFFSET_LIMIT || !(1 <= m[sp] <= MAXLABEL) then None
    else if IsMatch(m, sp, dom) then Some(sp)
    else ScanSegment(m, sp + 1 + m[sp] as int, dom)
  }

  function Find(m: seq<Byte>, table: seq<nat>, dom: Name, k: nat): (t: Option<nat>)
    requires k <= |table|
    ensures t.Some? ==> t.value < |m| && t.value < OFFSET_LIMIT &&
                        1 <= m[t.value] <= MAXLABEL && IsMatch(m, t.value, dom)
    decreases |table| - k
  {
    if k == |table| then None
    else
      var t := ScanSegment(m, table[k], dom);
      if t.Some? then t else Find(m, table, dom, k + 1)
  }

  /** Every entry is the start of a readable name of the message, and the entries increase. */
  predicate TableOk(m: seq<Byte>, table: seq<nat>) {
    && (forall i :: 0 <= i < |table| ==> table[i] < |m| && Back(m, table[i], table[i], |m|, true).Some?)
    && (forall i, j :: 0 <= i < j < |table| ==> table[i] < table[j])
  }

  /** Compares 'n' octets through mklower. */
  method LabelEqual(a: seq<Byte>, i: nat, b: seq<Byte>, j: nat, n: nat) returns (eq: bool)
    requires i + n <= |a| && j + n <= |b|
    ensures eq <==> FoldLabel(a[i..i + n]) == FoldLabel(b[j..j + n])
  {
    ghost var x, y := FoldLabel(a[i..i + n]), FoldLabel(b[j..j + n]);
    var k := 0;
    while k < n
      invariant 0 <= k <= n
      invariant forall z :: 0 <= z < k ==> x[z] == y[z]
    {
      assert x[k] == Lower(a[i + k]) && y[k] == Lower(b[j + k]);
      if Lower(a[i + k]) != Lower(b[j + k]) {
        return false;
      }
      k := k + 1;
    }
    return true;
  }

  lemma BackLabel(m: seq<Byte>, p: nat, seg: nat, lim: nat)
    requires lim <= |m| && Back(m, p, seg, lim, true).Some? && p < lim && m[p] < 64
    ensures m[p] == 0 ==> Back(m, p, seg, lim, true).value == []
    ensures m[p] != 0 ==> var q := p + 1 + m[p] as int; var n := Back(m, p, seg, lim, true).value;
                          q < lim && Back(m, q, seg, lim, true).Some? &&
                          n != [] && n[0] == m[p + 1..q] && n[1..] == Back(m, q, seg, lim, true).value
  {
  }

  lemma BackPointer(m: seq<Byte>, p: nat, seg: nat, lim: nat)
    requires lim <= |m| && Back(m, p, seg, lim, true).Some? && p < lim && m[p] >= 64
    ensures IsPointer(m, p) && Target(m, p) < seg <= |m| && 1 <= m[Target(m, p)] <= MAXLABEL
    ensures Back(m, Target(m, p), Target(m, p), seg, true) == Back(m, p, seg, lim, true)
    ensures Back(m, p, seg, lim, true).value != []
  {
  }

  /** dn_find's comparison of the name at 'sp' with the domain, following pointers. */
  method NameMatches(domain: seq<Byte>, pos: nat, msg: seq<Byte>, sp: nat) returns (eq: bool)
    requires IsNameAt(domain, pos) && NameAt(domain, pos) != []
    requires sp < |msg| && Back(msg, sp, sp, |msg|, true).Some?
    ensures eq <==> IsMatch(msg, sp, NameAt(domain, pos))
  {
    hide NameAt, IsNameAt, Back, Target, Same, FoldLabel;
    var dn, cp := pos, sp;
    ghost var seg, lim := sp, |msg|;
    NameEmpty(domain, dn);
    while msg[cp] != 0
      invariant 0 <= cp < lim <= |msg| && 0 <= seg
      invariant Back(msg, cp, seg, lim, true).Some?
      invariant 0 <= dn < |domain| && IsNameAt(domain, dn) && NameAt(domain, dn) != []
      invariant IsMatch(msg, sp, NameAt(domain, pos)) <==> Same(Back(msg, cp, seg, lim, true).value, NameAt(domain, dn))
      decreases seg, lim - cp
    {
      var n := msg[cp];
      if n < 64 {
        BackLabel(msg, cp, seg, lim);
        NameEmpty(domain, dn);
        NameAtCons(domain, dn);
        ghost var x, y := Back(msg, cp, seg, lim, true).value, NameAt(domain, dn);
        SameHeadTail(x, y);
        if n != domain[dn] {
          return false;
        }
        var l: int := n;
        var same := LabelEqual(domain, dn + 1, msg, cp + 1, l);
        if !same {
          return false;
        }
        dn, cp := dn + 1 + l, cp + 1 + l;
        NameEmpty(domain, dn);
        BackEmpty(msg, cp, seg, lim);
        SameEmpty(x[1..], y[1..]);
        if domain[dn] == 0 && msg[cp] == 0 {
          return true;
        }
        if domain[dn] != 0 {
          continue;
        }
        return false;
      } else {
        BackPointer(msg, cp, seg, lim);
        cp := Target(msg, cp);
        lim := seg;
        seg := cp;
      }
    }
    BackEmpty(msg, cp, seg, lim);
    SameEmpty(Back(msg, cp, seg, lim, true).value, NameAt(domain, dn));
    return false;
  }

  lemma NameEmpty(w: seq<Byte>, p: nat)
    requires IsNameAt(w, p)
    ensures p < |w| && (w[p] == 0 <==> NameAt(w, p) == [])
  {
  }

  lemma BackEmpty(m: seq<Byte>, p: nat, seg: nat, lim: nat)
    requires lim <= |m| && Back(m, p, seg, lim, true).Some?
    ensures p < lim && (m[p] == 0 <==> Back(m, p, seg, lim, true).value == [])
  {
    if p < lim && m[p] >= 64 { BackPointer(m, p, seg, lim); }
  }

  lemma SameEmpty(x: Name, y: Name)
    ensures x == [] && y == [] ==> Same(x, y)
    ensures (x == []) != (y == []) ==> !Same(x, y)
  {
  }

  /** The offset of an earlier occurrence of the domain, or -1. */
  method DnFind(domain: seq<Byte>, pos: nat, msg: seq<Byte>, table: seq<nat>) returns (l: int)
    requires IsNameAt(domain, pos) && NameAt(domain, pos) != [] && TableOk(msg, table)
    ensures var t := Find(msg, table, NameAt(domain, pos), 0); l == if t.Some? then t.value else -1
  {
    hide Back, IsMatch, NameAt, IsNameAt;
    ghost var dom := NameAt(domain, pos);
    var cpp := 0;
    while cpp < |table|
      invariant 0 <= cpp <= |table|
      invariant Find(msg, table, dom, 0) == Find(msg, table, dom, cpp)
    {
      var sp := table[cpp];
      BackEmpty(msg, sp, sp, |msg|);
      while msg[sp] != 0 && msg[sp] < 64 && sp < OFFSET_LIMIT
        invariant table[cpp] <= sp < |msg| && Back(msg, sp, table[cpp], |msg|, true).Some?
        invariant ScanSegment(msg, table[cpp], dom) == ScanSegment(msg, sp, dom)
        decreases |msg| - sp
      {
        BackLabel(msg, sp, table[cpp], |msg|);
        BackGrows(msg, sp, table[cpp], |msg|, sp, |msg|, true);
        var eq := NameMatches(domain, pos, msg, sp);
        if eq {
          return sp;
        }
        sp := sp + 1 + msg[sp] as int;
        BackEmpty(msg, sp, table[cpp], |msg|);
      }
      cpp := cpp + 1;
    }
    return -1;
  }

  // ----- what a packed name looks like -----

  function PointerOctets(t: nat): (o: seq<Byte>)
    requires t < OFFSET_LIMIT
    ensures |o| == 2
  {
    [192 + t / 256, t % 256]
  }

  /** Labels in full until the rest of the name occurs earlier; then a pointer to it. */
  function PackOctets(m: seq<Byte>, table: seq<nat>, n: Name): (o: seq<Byte>)
    requires ValidLabels(n)
    ensures |o| > 0
  {
    if n == [] then [0]
    else
      var t := Find(m, table, n, 0);
      if t.Some? then PointerOctets(t.value) else LabelOctets(n[0]) + PackOctets(m, table, n[1..])
  }

  predicate UsesPointer(m: seq<Byte>, table: seq<nat>, n: Name) {
    n != [] && (Find(m, table, n, 0).Some? || UsesPointer(m, table, n[1..]))
  }

  /** 'o', written after m + pre, completes the name 'n'. */
  predicate Completes(m: seq<Byte>, pre: seq<Byte>, o: seq<Byte>, n: Name) {
    var w := m + pre + o;
    var r := Back(w, |m| + |pre|, |m|, |w|, true);
    r.Some? && Same(r.value, n)
  }

  /** The octets still to come after 'pre' octets of the same name make up the rest of it. */
  lemma {:induction false} PackedTail(m: seq<Byte>, table: seq<nat>, n: Name, pre: seq<Byte>)
    requires TableOk(m, table) && ValidLabels(n)
    ensures Completes(m, pre, PackOctets(m, table, n), n)
    decreases |n|
  {
    PackOctetsRoom(m, table, n);
    hide *;
    if n == [] {
      PackedRoot(m, pre);
    } else {
      var t := Find(m, table, n, 0);
      if t.Some? {
        PackedPointer(m, pre, t.value, n);
      } else {
        ValidTail(n);
        var head: seq<Byte> := LabelOctets(n[0]);
        PackedTail(m, table, n[1..], pre + head);
        PackedLabel(m, pre, n, PackOctets(m, table, n[1..]));
      }
    }
  }

  function LabelOctets(l: Label): seq<Byte>
    requires ValidLabel(l)
  {
    [|l|] + l
  }

  lemma PackedRoot(m: seq<Byte>, pre: seq<Byte>)
    ensures Completes(m, pre, [0], [])
  {
  }

  lemma PackedPointer(m: seq<Byte>, pre: seq<Byte>, t: nat, n: Name)
    requires t < |m| && t < OFFSET_LIMIT && 1 <= m[t] <= MAXLABEL && IsMatch(m, t, n)
    ensures Completes(m, pre, PointerOctets(t), n)
  {
    hide Same;
    var w, p := m + pre + PointerOctets(t), |m| + |pre|;
    assert w[p] == 192 + t / 256 && w[p + 1] == t % 256;
    assert Target(w, p) == t;
    assert w[..|m|] == m[..|m|];
    BackStable(m, w, t, t, |m|, true);
    assert w[t] == m[t];
  }

  lemma PackedLabel(m: seq<Byte>, pre: seq<Byte>, n: Name, o: seq<Byte>)
    requires n != [] && ValidLabel(n[0]) && Completes(m, pre + LabelOctets(n[0]), o, n[1..])
    ensures Completes(m, pre, LabelOctets(n[0]) + o, n)
  {
    hide Same;
    var l := LabelOctets(n[0]);
    var w, p, q := m + pre + (l + o), |m| + |pre|, |m| + |pre| + |l|;
    assert m + (pre + l) + o == w;
    assert w[p..q] == l;
    assert w[p] == l[0] && w[p + 1..q] == l[1..];
    SameHeadTail([n[0]] + Back(w, q, |m|, |w|, true).value, n);
  }

  /** A packed name reads back as the name given, ignoring case, by jumps that only go backwards. */
  lemma PackedReadsBack(m: seq<Byte>, table: seq<nat>, n: Name)
    requires TableOk(m, table) && ValidLabels(n)
    ensures var w := m + PackOctets(m, table, n);
            Back(w, |m|, |m|, |w|, true).Some? && Same(Back(w, |m|, |m|, |w|, true).value, n)
  {
    PackedTail(m, table, n, []);
    hide TableOk, PackOctets, Back;
    assert m + [] == m;
  }

  // ----- a whole message -----

  /** The octets written so far, the active entries of dnptrs, and every name packed with its offset. */
  datatype Message = Message(m: seq<Byte>, table: seq<nat>, log: seq<(nat, Name)>)

  /** Other data followed by one name; 'room' says whether dnptrs can take another entry. */
  datatype Item = Item(filler: seq<Byte>, name: Name, room: bool)

  function NewTable(m: seq<Byte>, table: seq<nat>, n: Name, room: bool): seq<nat> {
    if n != [] && Find(m, table, n, 0).None? && |m| < OFFSET_LIMIT && room then table + [|m|] else table
  }

  function AddItem(s: Message, item: Item): Message
    requires ValidLabels(item.name)
  {
    var m := s.m + item.filler;
    Message(m + PackOctets(m, s.table, item.name), NewTable(m, s.table, item.name, item.room),
            s.log + [(|m|, item.name)])
  }

  predicate ReadsAs(m: seq<Byte>, at: nat, n: Name) {
    at < |m| && Back(m, at, at, |m|, true).Some? && Same(Back(m, at, at, |m|, true).value, n)
  }

  predicate Inv(s: Message) {
    TableOk(s.m, s.table) && forall i :: 0 <= i < |s.log| ==> ReadsAs(s.m, s.log[i].0, s.log[i].1)
  }

  /** Octets added at the end change no name and no entry. */
  lemma Extend(m: seq<Byte>, more: seq<Byte>, table: seq<nat>, log: seq<(nat, Name)>)
    requires Inv(Message(m, table, log))
    ensures Inv(Message(m + more, table, log))
  {
    hide Same, Back;
    var w := m + more;
    assert w[..|m|] == m[..|m|];
    forall i | 0 <= i < |table| ensures table[i] < |w| && Back(w, table[i], table[i], |w|, true).Some? {
      BackStable(m, w, table[i], table[i], |m|, true);
      BackGrows(w, table[i], table[i], |m|, table[i], |w|, true);
    }
    forall i | 0 <= i < |log| ensures ReadsAs(w, log[i].0, log[i].1) {
      assert ReadsAs(m, log[i].0, log[i].1);
      BackStable(m, w, log[i].0, log[i].0, |m|, true);
      BackGrows(w, log[i].0, log[i].0, |m|, log[i].0, |w|, true);
    }
  }

  lemma AddItemKeeps(s: Message, item: Item)
    requires Inv(s) && ValidLabels(item.name)
    ensures Inv(AddItem(s, item))
  {
    hide PackOctets, Find, Same, Back;
    Extend(s.m, item.filler, s.table, s.log);
    var m := s.m + item.filler;
    var o := PackOctets(m, s.table, item.name);
    PackedReadsBack(m, s.table, item.name);
    Extend(m, o, s.table, s.log);
    assert forall i :: 0 <= i < |s.table| ==> s.table[i] < |s.m|;
    var s' := AddItem(s, item);
    forall i | 0 <= i < |s'.log| ensures ReadsAs(s'.m, s'.log[i].0, s'.log[i].1) {
      if i < |s.log| {
        assert s'.log[i] == s.log[i];
        assert ReadsAs(m + o, s.log[i].0, s.log[i].1);
      }
    }
  }

  predicate AllNames(items: seq<Item>) {
    forall i :: 0 <= i < |items| ==> ValidLabels(items[i].name)
  }

  function Run(s: Message, items: seq<Item>): Message
    requires AllNames(items)
    decreases |items|
  {
    if items == [] then s else Run(AddItem(s, items[0]), items[1..])
  }

  /** An unpacking of the message at 'at' succeeds and gives 'n', ignoring case. */
  predicate Unpacks(m: seq<Byte>, at: nat, n: Name) {
    && Accepts(m, at, MAXCDNAME)
    && IsNameAt(Expand(m, at, |m|).value.wire, 0)
    && Same(NameAt(Expand(m, at, |m|).value.wire, 0), n)
  }

  lemma ReadsAsUnpacks(m: seq<Byte>, at: nat, n: Name)
    requires ReadsAs(m, at, n) && ValidName(n)
    ensures Unpacks(m, at, n)
  {
    hide Same, Back, Expand, Encode, NameAt, IsNameAt, ValidLabels;
    var b := Back(m, at, at, |m|, true).value;
    NamedIsBack(m, at, at, |m|);
    SameWireLen(b, n);
    GuardNeverRejects(m, at, MAXCDNAME);
    var w := Encode(b);
    assert w[0..0 + WireLen(b)] == w;
    NameAtEncode(w, 0, b);
  }

  lemma {:induction false} NamedIsBack(m: seq<Byte>, p: nat, seg: nat, lim: nat)
    requires lim <= |m| && Back(m, p, seg, lim, true).Some?
    ensures Back(m, p, seg, lim, false) == Back(m, p, seg, lim, true)
    decreases seg, lim - p
  {
    if m[p] != 0 {
      if m[p] <= MAXLABEL {
        NamedIsBack(m, p + 1 + m[p] as int, seg, lim);
      } else {
        NamedIsBack(m, Target(m, p), Target(m, p), seg);
      }
    }
  }

  lemma {:induction false} RunKeeps(s: Message, items: seq<Item>)
    requires Inv(s) && AllNames(items)
    ensures Inv(Run(s, items))
    ensures |Run(s, items).log| == |s.log| + |items| && s.log <= Run(s, items).log
    ensures forall i :: 0 <= i < |items| ==> Run(s, items).log[|s.log| + i].1 == items[i].name
    decreases |items|
  {
    hide Inv, PackOctets, NewTable, ValidLabels;
    if items != [] {
      AddItemKeeps(s, items[0]);
      RunKeeps(AddItem(s, items[0]), items[1..]);
    }
  }

  /**
   Compression preserves meaning over a whole message: whatever is packed and written, in any
   order, and whatever follows, every name still unpacks to the name given, ignoring case.
  */
  lemma EveryNameUnpacks(items: seq<Item>, tail: seq<Byte>, k: nat)
    requires AllNames(items) && k < |items| && ValidName(items[k].name)
    ensures var s := Run(Message([], [], []), items);
            |s.log| == |items| && Unpacks(s.m + tail, s.log[k].0, items[k].name)
  {
    hide Same, Back, Run, Expand;
    var s0 := Message([], [], []);
    RunKeeps(s0, items);
    var s := Run(s0, items);
    Extend(s.m, tail, s.table, s.log);
    assert ReadsAs(s.m + tail, s.log[k].0, s.log[k].1);
    assert s.log[k].1 == s.log[|s0.log| + k].1;
    ReadsAsUnpacks(s.m + tail, s.log[k].0, items[k].name);
  }

  // ----- names that compress -----

  lemma SameThrough(a: Name, b: Name, c: Name)
    requires Same(a, b) && Same(b, c)
    ensures Same(a, c)
  {
    forall i | 0 <= i < |a| ensures SameLabel(a[i], c[i]) {
      assert SameLabel(a[i], b[i]) && SameLabel(b[i], c[i]);
    }
  }

  lemma MatchGrows(m: seq<Byte>, w: seq<Byte>, sp: nat, dom: Name, dom': Name)
    requires m <= w && sp < |m| && IsMatch(m, sp, dom) && Same(dom, dom')
    ensures IsMatch(w, sp, dom')
  {
    hide Same, Back;
    assert w[..|m|] == m[..|m|];
    BackStable(m, w, sp, sp, |m|, true);
    BackGrows(w, sp, sp, |m|, sp, |w|, true);
    SameThrough(Back(m, sp, sp, |m|, true).value, dom, dom');
  }

  lemma {:induction false} ScanGrows(m: seq<Byte>, w: seq<Byte>, sp: nat, dom: Name, dom': Name)
    requires m <= w && ScanSegment(m, sp, dom).Some? && Same(dom, dom')
    ensures ScanSegment(w, sp, dom').Some?
    decreases |m| - sp
  {
    hide IsMatch, Same;
    assert w[sp] == m[sp];
    if IsMatch(m, sp, dom) {
      MatchGrows(m, w, sp, dom, dom');
    } else {
      ScanGrows(m, w, sp + 1 + m[sp] as int, dom, dom');
    }
  }

  /** An occurrence stays when octets and entries are added. */
  lemma {:induction false} FindGrows(m: seq<Byte>, table: seq<nat>, w: seq<Byte>, table': seq<nat>,
                                     dom: Name, dom': Name, k: nat)
    requires m <= w && table <= table' && k <= |table| && Find(m, table, dom, k).Some? && Same(dom, dom')
    ensures Find(w, table', dom', k).Some?
    decreases |table| - k
  {
    hide ScanSegment, Same;
    if ScanSegment(m, table[k], dom).Some? {
      ScanGrows(m, w, table[k], dom, dom');
    } else {
      FindGrows(m, table, w, table', dom, dom', k + 1);
    }
  }

  lemma {:induction false} FindIn(m: seq<Byte>, table: seq<nat>, dom: Name, k: nat, j: nat)
    requires k <= j < |table| && ScanSegment(m, table[j], dom).Some?
    ensures Find(m, table, dom, k).Some?
    decreases j - k
  {
    hide ScanSegment;
    if k < j { FindIn(m, table, dom, k + 1, j); }
  }

  /** A name that has been packed, with room for an entry and a place that a pointer can reach, can be found. */
  lemma AddedIsFound(s: Message, item: Item)
    requires Inv(s) && ValidLabels(item.name) && item.name != []
    requires item.room && |s.m| + |item.filler| < 0x4000
    ensures Find(AddItem(s, item).m, AddItem(s, item).table, item.name, 0).Some?
  {
    var m, s' := s.m + item.filler, AddItem(s, item);
    SameItself(item.name);
    if Find(m, s.table, item.name, 0).Some? {
      FindGrows(m, s.table, s'.m, s'.table, item.name, item.name, 0);
    } else {
      Extend(s.m, item.filler, s.table, s.log);
      PackedReadsBack(m, s.table, item.name);
      assert s'.m[|m|] == |item.name[0]| by { FirstOctet(m, s.table, item.name); }
      assert ScanSegment(s'.m, |m|, item.name).Some?;
      hide Find, ScanSegment, Back, Same, PackOctets;
      FindIn(s'.m, s'.table, item.name, 0, |s.table|);
    }
  }

  lemma SameItself(n: Name)
    ensures Same(n, n)
  {
  }

  lemma FirstOctet(m: seq<Byte>, table: seq<nat>, n: Name)
    requires ValidLabels(n) && n != [] && Find(m, table, n, 0).None?
    ensures (m + PackOctets(m, table, n))[|m|] == |n[0]| && 1 <= |n[0]| <= 63
  {
    hide Find;
    assert PackOctets(m, table, n) == LabelOctets(n[0]) + PackOctets(m, table, n[1..]);
  }

  lemma {:induction false} RunGrows(s: Message, items: seq<Item>)
    requires AllNames(items)
    ensures s.m <= Run(s, items).m && s.table <= Run(s, items).table
    decreases |items|
  {
    hide PackOctets, Find, ValidLabels;
    if items != [] {
      assert s.m <= AddItem(s, items[0]).m;
      RunGrows(AddItem(s, items[0]), items[1..]);
    }
  }

  /**
   Compression does compress: a name that has been packed, with room in the table and within the
   reach of a pointer, takes two octets whenever it is packed again, in any case of letters, after
   any other names and octets.
  */
  lemma PackedAgain(s: Message, item: Item, items: seq<Item>, filler: seq<Byte>, n: Name)
    requires Inv(s) && ValidLabels(item.name) && item.name != [] && AllNames(items) && ValidLabels(n)
    requires item.room && |s.m| + |item.filler| < 0x4000 && Same(item.name, n)
    ensures var r := Run(AddItem(s, item), items); |PackOctets(r.m + filler, r.table, n)| == 2
  {
    var s' := AddItem(s, item);
    AddedIsFound(s, item);
    RunGrows(s', items);
    var r := Run(s', items);
    hide AddItem, Find, Run, Same, ValidLabels, Inv, AllNames;
    assert s'.m <= r.m + filler;
    FindGrows(s'.m, s'.table, r.m + filler, r.table, item.name, n, 0);
  }

  // ----- ns_name_pack and ns_name_rollback on the buffers themselves -----

  const NULL := -1

  /** The pointer array is NULL-terminated at 'k'; its first element is the start of the message. */
  predicate EndsAt(ptrs: seq<int>, k: nat) {
    1 <= k < |ptrs| && ptrs[k] == NULL && forall i :: 1 <= i < k ==> ptrs[i] >= 0
  }

  ghost predicate Terminated(ptrs: seq<int>) {
    exists k: nat :: EndsAt(ptrs, k)
  }

  /** Compression is on when there is an array and its first element points at the message. */
  predicate Compressing(ptrs: seq<int>) {
    |ptrs| > 0 && ptrs[0] != NULL
  }

  function Entries(ptrs: seq<int>, k: nat): (t: seq<nat>)
    requires EndsAt(ptrs, k)
    ensures |t| == k - 1 && forall i :: 0 <= i < |t| ==> t[i] == ptrs[i + 1]
  {
    seq(k - 1, i requires 0 <= i < k - 1 => ptrs[i + 1])
  }

  lemma EndUnique(ptrs: seq<int>, j: nat, k: nat)
    requires EndsAt(ptrs, j) && EndsAt(ptrs, k)
    ensures j == k
  {
  }

  /** The active entries: those after the first and before the terminator. */
  ghost function Active(ptrs: seq<int>): (t: seq<nat>)
    requires Compressing(ptrs) ==> Terminated(ptrs)
  {
    if Compressing(ptrs) then
      var k: nat :| EndsAt(ptrs, k);
      Entries(ptrs, k)
    else []
  }

  lemma ActiveIs(ptrs: seq<int>, k: nat)
    requires Compressing(ptrs) && EndsAt(ptrs, k)
    ensures Terminated(ptrs) && Active(ptrs) == Entries(ptrs, k)
  {
    assert Terminated(ptrs);
    var j: nat :| EndsAt(ptrs, j) && Active(ptrs) == Entries(ptrs, j);
    EndUnique(ptrs, j, k);
  }

  /** The legality scan of ns_name_pack stays inside the source octets and meets no bit-string or
      0x80-type label. */
  predicate Scannable(src: seq<Byte>, p: nat)
    decreases |src| - p
  {
    p > MAXCDNAME ||
    (p < |src| &&
     (src[p] == 0 || src[p] >= 192 || (64 <= src[p] < 128 && src[p] != BITSTRING) ||
      (src[p] < 64 && Scannable(src, p + 1 + src[p] as int))))
  }

  predicate LegalName(src: seq<Byte>) {
    IsNameAt(src, 0) && WireLen(NameAt(src, 0)) <= MAXCDNAME
  }

  /** The first loop of ns_name_pack. */
  method CheckName(src: seq<Byte>) returns (ok: bool)
    requires Scannable(src, 0)
    ensures ok <==> LegalName(src)
  {
    hide NameAt, IsNameAt, WireLen;
    var l, n := 0, 1;
    var done := false;
    while !done
      invariant done ==> LegalName(src)
      invariant !done ==> Scannable(src, l) && 0 <= l <= MAXCDNAME
      invariant !done ==> (LegalName(src) <==> IsNameAt(src, l) && l + WireLen(NameAt(src, l)) <= MAXCDNAME)
      decreases !done, |src| - l
    {
      var b := src[l];
      ScanStep(src, l);
      if b >= 192 {
        return false;
      }
      if b >= 64 {
        return false;
      }
      var tmp: int := b;
      l := l + tmp + 1;
      if l > MAXCDNAME {
        return false;
      }
      done := b == 0;
    }
    return true;
  }

  lemma ScanStep(src: seq<Byte>, l: nat)
    requires Scannable(src, l) && l <= MAXCDNAME
    ensures l < |src|
    ensures src[l] >= 64 ==> !IsNameAt(src, l)
    ensures src[l] == 0 ==> IsNameAt(src, l) && WireLen(NameAt(src, l)) == 1
    ensures 0 < src[l] < 64 ==>
              var q := l + 1 + src[l] as int;
              && Scannable(src, q)
              && (IsNameAt(src, l) <==> IsNameAt(src, q))
              && (IsNameAt(src, l) ==> WireLen(NameAt(src, l)) == 1 + src[l] as int + WireLen(NameAt(src, q)))
  {
    if 0 < src[l] < 64 && IsNameAt(src, l) { NameAtCons(src, l); }
  }

  /** The source is a legal name, and its packed form fits; a name written out in full needs one spare octet. */
  ghost predicate Packs(src: seq<Byte>, m: seq<Byte>, table: seq<nat>, dstsiz: int) {
    && LegalName(src)
    && (NameAtValid(src, 0);
        var n := NameAt(src, 0);
        |PackOctets(m, table, n)| + (if UsesPointer(m, table, n) then 0 else 1) <= dstsiz)
  }

  lemma {:induction false} PackOctetsRoom(m: seq<Byte>, table: seq<nat>, n: Name)
    requires ValidLabels(n)
    ensures n != [] && Find(m, table, n, 0).None? ==>
              && PackOctets(m, table, n) == LabelOctets(n[0]) + PackOctets(m, table, n[1..])
              && (UsesPointer(m, table, n) <==> UsesPointer(m, table, n[1..]))
              && |PackOctets(m, table, n)| >= |n[0]| + 2
    ensures n != [] && Find(m, table, n, 0).Some? ==>
              PackOctets(m, table, n) == PointerOctets(Find(m, table, n, 0).value) && UsesPointer(m, table, n)
    ensures n == [] ==> PackOctets(m, table, n) == [0] && !UsesPointer(m, table, n)
  {
  }

  lemma NoTable(m: seq<Byte>, n: Name)
    ensures Find(m, [], n, 0).None?
  {
  }

  predicate Saves(m: seq<Byte>, table: seq<nat>, n: Name, lpp: nat, last: Option<nat>) {
    n != [] && Find(m, table, n, 0).None? && |m| < OFFSET_LIMIT && last.Some? && lpp + 1 < last.value
  }

  predicate Fits(m: seq<Byte>, table: seq<nat>, n: Name, dstsiz: int)
    requires ValidLabels(n)
  {
    |PackOctets(m, table, n)| + (if UsesPointer(m, table, n) then 0 else 1) <= dstsiz
  }

  /** The pointer array once a name has been packed at 'dst', or could not be (r < 0). */
  predicate PointersAfter(before: seq<int>, after: seq<int>, compressing: bool,
                          saves: bool, lpp: nat, dst: nat, r: int) {
    if !compressing then after == before
    else if r < 0 then |after| == |before| && lpp < |after| && after[..lpp + 1] == before[..lpp + 1]
    else if saves then lpp + 1 < |before| && after == before[lpp := dst][lpp + 1 := NULL]
    else after == before
  }

  /** The second loop of ns_name_pack, with the clean-up of the pointer array on failure. */
  method PackLabels(ghost j: Job, src: seq<Byte>, buf: array<Byte>, dst: nat, dstsiz: int, ptrs: array<int>,
                    last: Option<nat>, compressing: bool, lpp: nat, entries: seq<nat>) returns (r: int)
    requires IsNameAt(src, 0) && ValidLabels(NameAt(src, 0))
    requires dst <= buf.Length && dst + dstsiz <= buf.Length && buf as object != ptrs
    requires j == Job(buf[..dst], entries, src, NameAt(src, 0), ptrs[..], last, compressing, lpp, dstsiz)
    requires TableOk(buf[..dst], entries)
    requires compressing ==> EndsAt(ptrs[..], lpp)
    requires !compressing ==> entries == []
    requires last.Some? ==> last.value <= ptrs.Length
    modifies buf, ptrs
    ensures Outcome(j, buf[..], r)
    ensures PointersAfter(j.before, ptrs[..], compressing, Saves(j.m, j.table, j.name, lpp, last), lpp, |j.m|, r)
  {
    var m := buf[..dst];
    if compressing { EndsIn(ptrs[..], lpp); }
    JobStart(j, buf[..]);
    hide *;
    var cpp, first;
    r, cpp, first := CopyLabels(j, src, buf, dst, dst + dstsiz, ptrs, last, compressing, lpp, m, entries);
    CleanUp(j, buf[..], ptrs, cpp, first, compressing, lpp, r);
  }

  /** On failure, forgets the entry saved for this name. */
  method CleanUp(ghost j: Job, ghost b: seq<Byte>, ptrs: array<int>, cpp: nat, first: bool, compressing: bool,
                 lpp: nat, r: int)
    requires j.compressing == compressing && j.lpp == lpp && Finished(j, b, ptrs[..], cpp, first, r)
    requires compressing ==> lpp < |j.before| && j.before[lpp] == NULL
    modifies ptrs
    ensures Outcome(j, b, r)
    ensures PointersAfter(j.before, ptrs[..], compressing, Saves(j.m, j.table, j.name, lpp, j.last), lpp, |j.m|, r)
  {
    ghost var mid, saves := ptrs[..], Saves(j.m, j.table, j.name, lpp, j.last);
    FinishedState(j, b, mid, cpp, first, r);
    hide *;
    if r < 0 && compressing {
      ptrs[lpp] := NULL;
    }
    PtrEnd(j.before, mid, ptrs[..], cpp, first, lpp, |j.m|, saves, compressing, r);
  }

  /** What is in the buffer in the end. */
  ghost predicate Outcome(j: Job, b: seq<Byte>, r: int) {
    && r >= -1 && Kept(j.m, b, |j.m|) && ValidLabels(j.name)
    && (r >= 0 <==> Fits(j.m, j.table, j.name, j.room))
    && (r >= 0 ==> Packed(j.m, j.table, j.name, b, |j.m|, |j.m| + r))
  }

  lemma FinishedFacts(j: Job, b: seq<Byte>, r: int)
    requires Outcome(j, b, r)
    ensures var dst := |j.m|;
            && dst <= |b| && b[..dst] == j.m && r >= -1 && ValidLabels(j.name)
            && (r >= 0 <==> Fits(j.m, j.table, j.name, j.room))
            && (r >= 0 ==> dst + r <= |b| && b[dst..dst + r] == PackOctets(j.m, j.table, j.name))
  {
  }

  lemma FinishedState(j: Job, b: seq<Byte>, p: seq<int>, cpp: nat, first: bool, r: int)
    requires Finished(j, b, p, cpp, first, r)
    ensures Outcome(j, b, r)
    ensures PtrState(j.before, p, cpp, first, j.lpp, |j.m|) && (!first ==> j.compressing) && |p| == |j.before|
    ensures r >= 0 && j.compressing ==> first == !Saves(j.m, j.table, j.name, j.lpp, j.last)
  {
  }

  /** What does not change while one name is packed: the message before it, the table, the name, the array. */
  datatype Job = Job(m: seq<Byte>, table: seq<nat>, src: seq<Byte>, name: Name, before: seq<int>, last: Option<nat>,
                     compressing: bool, lpp: nat, room: int)

  predicate CanSave(j: Job) {
    j.compressing && j.last.Some? && j.lpp + 1 < j.last.value && |j.m| < OFFSET_LIMIT
  }

  /** Between two rounds of the loop. */
  ghost predicate Midway(j: Job, b: seq<Byte>, p: seq<int>, srcp: nat, dstp: nat, cpp: nat, first: bool) {
    && Underway(j.m, j.table, j.src, j.name, b, |j.m|, srcp, dstp)
    && IsNameAt(j.src, 0) && j.name == NameAt(j.src, 0)
    && PtrState(j.before, p, cpp, first, j.lpp, |j.m|) && (!first ==> j.compressing)
    && (srcp > 0 ==> first == !CanSave(j) && j.name != [] && Find(j.m, j.table, j.name, 0).None?)
    && (srcp == 0 ==> dstp == |j.m| && first)
  }

  /** After the loop: 'r' octets written, or no room for them. */
  ghost predicate Finished(j: Job, b: seq<Byte>, p: seq<int>, cpp: nat, first: bool, r: int) {
    && Outcome(j, b, r)
    && PtrState(j.before, p, cpp, first, j.lpp, |j.m|) && (!first ==> j.compressing)
    && (r >= 0 && j.compressing ==> first == !Saves(j.m, j.table, j.name, j.lpp, j.last))
  }

  lemma JobStart(j: Job, b: seq<Byte>)
    requires IsNameAt(j.src, 0) && ValidLabels(NameAt(j.src, 0)) && j.name == NameAt(j.src, 0)
    requires |j.m| <= |b| && j.m == b[..|j.m|]
    ensures Midway(j, b, j.before, 0, |j.m|, j.lpp, true)
  {
    hide NameAt, IsNameAt, PackOctets, UsesPointer, Find, ValidLabels;
    PackStart(j.m, j.table, j.src, b, |j.m|);
  }

  /** The loop itself: copies labels, saving the start of the name once, until a pointer ends it. */
  method CopyLabels(ghost j: Job, src: seq<Byte>, buf: array<Byte>, dst: nat, eob: int,
                    ptrs: array<int>, last: Option<nat>,
                    compressing: bool, lpp: nat, m: seq<Byte>, entries: seq<nat>)
    returns (r: int, cpp: nat, first: bool)
    requires j == Job(m, entries, src, j.name, j.before, last, compressing, lpp, eob - dst) && |m| == dst
    requires Midway(j, buf[..], ptrs[..], 0, dst, lpp, true)
    requires eob <= buf.Length && buf as object != ptrs
    requires TableOk(m, entries) && (!compressing ==> entries == [])
    requires last.Some? ==> last.value <= ptrs.Length
    modifies buf, ptrs
    ensures Finished(j, buf[..], ptrs[..], cpp, first, r)
  {
    hide *;
    var srcp, dstp := 0, dst;
    cpp, first := lpp, true;
    r := 0;
    while r == 0
      invariant 0 <= srcp && dst <= dstp
      invariant r == 0 ==> Midway(j, buf[..], ptrs[..], srcp, dstp, cpp, first)
      invariant r != 0 ==> Finished(j, buf[..], ptrs[..], cpp, first, r)
      decreases if r == 0 then 1 else 0, |src| - srcp
    {
      var n;
      r, n, cpp, first := CopyOne(j, src, buf, dst, srcp, dstp, eob, ptrs, last, compressing, m, entries, cpp, first);
      srcp := srcp + n + 1;
      dstp := dstp + n + 1;
    }
  }

  /**
   One round of the loop: r is the length of the name once it is complete, -1 without room
   for the next part, and 0 when a label of 'n' octets was copied.
  */
  method CopyOne(ghost j: Job, src: seq<Byte>, buf: array<Byte>, dst: nat, srcp: nat, dstp: nat, eob: int,
                 ptrs: array<int>, last: Option<nat>, compressing: bool, m: seq<Byte>, entries: seq<nat>,
                 cpp: nat, first: bool) returns (r: int, n: nat, cpp': nat, first': bool)
    requires j == Job(m, entries, src, j.name, j.before, last, compressing, j.lpp, eob - dst) && |m| == dst
    requires Midway(j, buf[..], ptrs[..], srcp, dstp, cpp, first)
    requires eob <= buf.Length && buf as object != ptrs
    requires TableOk(m, entries) && (!compressing ==> entries == [])
    requires last.Some? ==> last.value <= ptrs.Length
    modifies buf, ptrs
    ensures r == 0 ==> srcp + n < |src| && Midway(j, buf[..], ptrs[..], srcp + n + 1, dstp + n + 1, cpp', first')
    ensures r != 0 ==> Finished(j, buf[..], ptrs[..], cpp', first', r)
  {
    hide NameAt, IsNameAt, PackOctets, UsesPointer, Find, TableOk, ValidLabels, Saves,
         Fits, Underway, Packed, PtrState, Kept;
    UnderwayStep(m, entries, src, j.name, buf[..], dst, srcp, dstp, eob - dst);
    SavesIf(m, entries, j.name, j.lpp, last);
    cpp', first' := cpp, first;
    var b := src[srcp];
    n := b;
    if b != 0 && compressing {
      var l := DnFind(src, srcp, m, entries);
      if l >= 0 {
        r := WritePointer(m, entries, src, j.name, buf, dst, srcp, dstp, eob, l);
        return;
      }
      cpp', first' := Remember(j.before, ptrs, cpp, last, dst, dstp, first, j.lpp);
    } else {
      NoTable(m, NameAt(src, srcp));
    }
    var ok := CopyLabel(m, entries, src, j.name, buf, dst, srcp, dstp, eob, n);
    r := if !ok then -1 else if n == 0 then dstp + 1 - dst else 0;
  }

  lemma EndsIn(ptrs: seq<int>, k: nat)
    requires EndsAt(ptrs, k)
    ensures 1 <= k < |ptrs| && ptrs[k] == NULL
  {
  }

  /** The pointer array while packing: as it was, or with the start of this name saved at its end. */
  predicate PtrState(before: seq<int>, now: seq<int>, cpp: nat, first: bool, lpp: nat, dst: nat) {
    && cpp == (if first then lpp else lpp + 1)
    && (!first ==> lpp + 1 < |before|)
    && now == if first then before else before[lpp := dst][lpp + 1 := NULL]
  }

  lemma PtrEnd(before: seq<int>, mid: seq<int>, now: seq<int>, cpp: nat, first: bool, lpp: nat, dst: nat, saves: bool,
               compressing: bool, r: int)
    requires !first ==> compressing
    requires compressing ==> lpp < |before| && before[lpp] == NULL
    requires r >= 0 || !compressing ==> PtrState(before, now, cpp, first, lpp, dst)
    requires r < 0 && compressing ==>
               PtrState(before, mid, cpp, first, lpp, dst) && lpp < |mid| && now == mid[lpp := NULL]
    requires r >= 0 && compressing ==> first == !saves
    ensures PointersAfter(before, now, compressing, saves, lpp, dst, r)
  {
  }

  /** Saves the place of a name not found earlier, once. */
  method Remember(ghost before: seq<int>, ptrs: array<int>, cpp: nat, last: Option<nat>, ghost dst: nat, dstp: nat,
                  first: bool, ghost lpp: nat) returns (cpp': nat, first': bool)
    requires last.Some? ==> last.value <= ptrs.Length
    requires PtrState(before, ptrs[..], cpp, first, lpp, dst)
    requires first && last.Some? && lpp + 1 < last.value && dstp < OFFSET_LIMIT ==> dstp == dst
    modifies ptrs
    ensures first' == (first && !(last.Some? && lpp + 1 < last.value && dstp < OFFSET_LIMIT))
    ensures PtrState(before, ptrs[..], cpp', first', lpp, dst)
  {
    if last.Some? && cpp + 1 < last.value && dstp < OFFSET_LIMIT && first {
      ptrs[cpp] := dstp;
      ptrs[cpp + 1] := NULL;
      return cpp + 1, false;
    }
    return cpp, first;
  }

  /** Part of the name is written from 'dst' to 'dstp'; the rest is at src[srcp..]. */
  ghost predicate Underway(m: seq<Byte>, table: seq<nat>, src: seq<Byte>, name: Name, b: seq<Byte>, dst: nat,
                           srcp: nat, dstp: nat) {
    dst <= dstp <= |b| && b[..dst] == m && Pending(m, table, src, srcp, b[dst..dstp], name)
  }

  predicate Packed(m: seq<Byte>, table: seq<nat>, name: Name, b: seq<Byte>, dst: nat, end: nat) {
    dst <= end <= |b| && b[..dst] == m && ValidLabels(name) && b[dst..end] == PackOctets(m, table, name)
  }

  predicate Kept(m: seq<Byte>, b: seq<Byte>, dst: nat) {
    dst <= |b| && b[..dst] == m
  }

  lemma PackStart(m: seq<Byte>, table: seq<nat>, src: seq<Byte>, b: seq<Byte>, dst: nat)
    requires IsNameAt(src, 0) && ValidLabels(NameAt(src, 0)) && Kept(m, b, dst)
    ensures Underway(m, table, src, NameAt(src, 0), b, dst, 0, dst)
  {
    assert b[dst..dst] == [];
    PendingStart(m, table, src);
  }

  lemma UnderwayStep(m: seq<Byte>, table: seq<nat>, src: seq<Byte>, name: Name, b: seq<Byte>, dst: nat,
                     srcp: nat, dstp: nat, room: int)
    requires Underway(m, table, src, name, b, dst, srcp, dstp)
    ensures dst <= dstp <= |b| && b[..dst] == m && IsNameAt(src, srcp) && ValidLabels(name) && srcp < |src|
    ensures src[srcp] == 0 <==> NameAt(src, srcp) == []
    ensures src[srcp] != 0 ==> srcp + 1 + src[srcp] as int < |src| && src[srcp] < 64
    ensures src[srcp] == 0 ==> (Fits(m, table, name, room) <==> dstp - dst + 2 <= room)
    ensures src[srcp] != 0 && Find(m, table, NameAt(src, srcp), 0).None? ==>
              (Fits(m, table, name, room) ==> dstp - dst + 1 + src[srcp] as int < room)
    ensures src[srcp] != 0 && Find(m, table, NameAt(src, srcp), 0).Some? ==>
              (Fits(m, table, name, room) <==> dstp - dst + 2 <= room)
  {
    PendingStep(m, table, src, srcp, b[dst..dstp], name, room);
    hide Pending, Fits, Find, NameAt, ValidLabels;
    if src[srcp] != 0 { NameAtCons(src, srcp); NameEmpty(src, srcp + 1 + src[srcp] as int); }
  }

  /** Writes the pointer that ends the name. */
  method WritePointer(ghost m: seq<Byte>, ghost table: seq<nat>, ghost src: seq<Byte>, ghost name: Name,
                      buf: array<Byte>, dst: nat, ghost srcp: nat, dstp: nat, eob: int, l: nat) returns (r: int)
    requires Underway(m, table, src, name, buf[..], dst, srcp, dstp) && eob <= buf.Length
    requires IsNameAt(src, srcp) && NameAt(src, srcp) != [] && Find(m, table, NameAt(src, srcp), 0) == Some(l)
    modifies buf
    ensures r == (if dstp + 2 <= eob then dstp + 2 - dst else -1) && dst <= dstp
    ensures Kept(m, buf[..], dst)
    ensures r >= 0 ==> Packed(m, table, name, buf[..], dst, dst + r)
  {
    PendingStep(m, table, src, srcp, buf[dst..dstp], name, 0);
    NameEmpty(src, srcp);
    hide Pending, Fits, Find, NameAt, IsNameAt, ValidLabels, PackOctets, PointerOctets;
    ghost var written := buf[dst..dstp];
    if dstp + 1 >= eob {
      return -1;
    }
    PutPointer(buf, dstp, l);
    assert buf[dst..dstp + 2] == written + PointerOctets(l);
    return dstp + 2 - dst;
  }

  method PutPointer(buf: array<Byte>, dstp: nat, l: nat)
    requires dstp + 2 <= buf.Length && l < OFFSET_LIMIT
    modifies buf
    ensures buf[..] == old(buf[..dstp]) + PointerOctets(l) + old(buf[dstp + 2..])
  {
    buf[dstp], buf[dstp + 1] := 192 + l / 256, l % 256;
  }

  /** Copies a label of 'n' octets, or the root label, with its length octet. */
  method CopyLabel(ghost m: seq<Byte>, ghost table: seq<nat>, src: seq<Byte>, ghost name: Name,
                   buf: array<Byte>, ghost dst: nat, srcp: nat, dstp: nat, eob: int, n: nat) returns (ok: bool)
    requires Underway(m, table, src, name, buf[..], dst, srcp, dstp) && eob <= buf.Length
    requires srcp < |src| && src[srcp] == n && IsNameAt(src, srcp)
    requires n != 0 ==> Find(m, table, NameAt(src, srcp), 0).None?
    modifies buf
    ensures ok <==> dstp + 1 + n < eob
    ensures Kept(m, buf[..], dst)
    ensures ok && n != 0 ==> Underway(m, table, src, name, buf[..], dst, srcp + n + 1, dstp + n + 1)
    ensures ok && n == 0 ==> Packed(m, table, name, buf[..], dst, dstp + 1)
  {
    PendingStep(m, table, src, srcp, buf[dst..dstp], name, 0);
    hide Pending, Fits, Find, NameAt, IsNameAt, ValidLabels, PackOctets;
    ghost var written := buf[dst..dstp];
    if dstp + 1 + n >= eob {
      return false;
    }
    PutLabel(src, srcp, buf, dstp, n + 1);
    assert buf[dst..dstp + n + 1] == written + src[srcp..srcp + n + 1];
    return true;
  }

  method PutLabel(src: seq<Byte>, srcp: nat, buf: array<Byte>, dstp: nat, n: nat)
    requires srcp + n <= |src| && dstp + n <= buf.Length
    modifies buf
    ensures buf[..] == old(buf[..dstp]) + src[srcp..srcp + n] + old(buf[dstp + n..])
  {
    forall k | 0 <= k < n { buf[dstp + k] := src[srcp + k]; }
  }

  /** 'written' followed by the packing of what is left of the name is the packing of the name. */
  ghost predicate Pending(m: seq<Byte>, table: seq<nat>, src: seq<Byte>, srcp: nat, written: seq<Byte>, name: Name) {
    && ValidLabels(name) && IsNameAt(src, srcp) && ValidLabels(NameAt(src, srcp))
    && written + PackOctets(m, table, NameAt(src, srcp)) == PackOctets(m, table, name)
    && (UsesPointer(m, table, name) <==> UsesPointer(m, table, NameAt(src, srcp)))
  }

  lemma PendingStart(m: seq<Byte>, table: seq<nat>, src: seq<Byte>)
    requires IsNameAt(src, 0) && ValidLabels(NameAt(src, 0))
    ensures Pending(m, table, src, 0, [], NameAt(src, 0))
  {
    assert [] + PackOctets(m, table, NameAt(src, 0)) == PackOctets(m, table, NameAt(src, 0));
  }

  lemma PendingStep(m: seq<Byte>, table: seq<nat>, src: seq<Byte>, srcp: nat, written: seq<Byte>, name: Name, room: int)
    requires Pending(m, table, src, srcp, written, name)
    ensures IsNameAt(src, srcp) && ValidLabels(name) && srcp < |src|
    ensures src[srcp] == 0 <==> NameAt(src, srcp) == []
    ensures src[srcp] == 0 ==>
              && PackOctets(m, table, name) == written + src[srcp..srcp + 1]
              && (Fits(m, table, name, room) <==> |written| + 2 <= room)
    ensures src[srcp] != 0 && Find(m, table, NameAt(src, srcp), 0).None? ==>
              var q := srcp + 1 + src[srcp] as int;
              && q < |src|
              && Pending(m, table, src, q, written + src[srcp..q], name)
              && (Fits(m, table, name, room) ==> |written| + (q - srcp) < room)
    ensures src[srcp] != 0 && Find(m, table, NameAt(src, srcp), 0).Some? ==>
              && PackOctets(m, table, name) == written + PointerOctets(Find(m, table, NameAt(src, srcp), 0).value)
              && (Fits(m, table, name, room) <==> |written| + 2 <= room)
  {
    hide NameAt, IsNameAt, PackOctets, UsesPointer, Find, ValidLabels;
    var rest := NameAt(src, srcp);
    NameEmpty(src, srcp);
    PackOctetsRoom(m, table, rest);
    if src[srcp] == 0 {
      assert src[srcp..srcp + 1] == [0];
    } else {
      NameAtCons(src, srcp);
      ValidTail(rest);
      var q := srcp + 1 + src[srcp] as int;
      NameEmpty(src, q);
      if Find(m, table, rest, 0).None? {
        assert src[srcp..q] == [src[srcp]] + src[srcp + 1..q];
        Reassociate(written, src[srcp..q], PackOctets(m, table, rest[1..]));
      }
    }
  }

  lemma Reassociate(a: seq<Byte>, b: seq<Byte>, c: seq<Byte>)
    ensures a + (b + c) == (a + b) + c
  {
  }

  lemma ValidTail(n: Name)
    requires n != [] && ValidLabels(n)
    ensures ValidLabel(n[0]) && ValidLabels(n[1..])
  {
  }

  lemma SavesIf(m: seq<Byte>, table: seq<nat>, n: Name, lpp: nat, last: Option<nat>)
    ensures Saves(m, table, n, lpp, last) <==>
              n != [] && Find(m, table, n, 0).None? && |m| < OFFSET_LIMIT && last.Some? && lpp + 1 < last.value
  {
  }


  /** Finds the end of the active entries. */
  method FindEnd(ptrs: array<int>) returns (lpp: nat)
    requires Terminated(ptrs[..])
    ensures EndsAt(ptrs[..], lpp)
  {
    ghost var k: nat :| EndsAt(ptrs[..], k);
    lpp := 1;
    while ptrs[lpp] != NULL
      invariant 1 <= lpp <= k
      invariant forall i :: 1 <= i < lpp ==> ptrs[i] >= 0
      decreases k - lpp
    {
      lpp := lpp + 1;
    }
    assert forall i :: 1 <= i < k ==> ptrs[..][i] >= 0;
  }

  lemma NoEntries(ptrs: seq<int>)
    requires !Compressing(ptrs)
    ensures Active(ptrs) == []
  {
  }

  /** What the change of the array means for the active entries. */
  lemma ActiveAfter(before: seq<int>, after: seq<int>, saves: bool, lpp: nat, dst: nat, r: int)
    requires Compressing(before) && EndsAt(before, lpp) && PointersAfter(before, after, true, saves, lpp, dst, r)
    ensures Compressing(after) && Terminated(after) && Terminated(before)
    ensures Active(after) == if r >= 0 && saves then Active(before) + [dst] else Active(before)
  {
    hide Active;
    ActiveIs(before, lpp);
    if r >= 0 && saves {
      assert EndsAt(after, lpp + 1);
      ActiveIs(after, lpp + 1);
      assert Entries(after, lpp + 1) == Entries(before, lpp) + [dst];
    } else {
      assert r < 0 ==> after[..lpp + 1] == before[..lpp + 1];
      assert forall i :: 0 <= i <= lpp ==> r < 0 ==>
               after[..lpp + 1][i] == after[i] && before[..lpp + 1][i] == before[i];
      assert EndsAt(after, lpp);
      ActiveIs(after, lpp);
      assert Entries(after, lpp) == Entries(before, lpp);
    }
  }

  /** dnptrs can take another entry. */
  ghost predicate HasRoom(ptrs: seq<int>, last: Option<nat>)
    requires Compressing(ptrs) ==> Terminated(ptrs)
  {
    Compressing(ptrs) && last.Some? && |Active(ptrs)| + 2 < last.value
  }

  /**
   ns_name_pack: packs the name at the start of 'src' into buf[dst..dst+dstsiz].  The message
   starts at buf[0].  An empty pointer array stands for a null one; 'last' is the end of the
   array, absent when the array is not to be updated.
  */
  method Pack(src: seq<Byte>, buf: array<Byte>, dst: nat, dstsiz: int, ptrs: array<int>, last: Option<nat>)
      returns (r: int)
    requires Scannable(src, 0)
    requires dst <= buf.Length && dst + dstsiz <= buf.Length && buf as object != ptrs
    requires Compressing(ptrs[..]) ==> Terminated(ptrs[..])
    requires TableOk(buf[..dst], Active(ptrs[..]))
    requires last.Some? ==> last.value <= ptrs.Length
    modifies buf, ptrs
    ensures buf[..dst] == old(buf[..dst])
    ensures Compressing(ptrs[..]) == old(Compressing(ptrs[..])) && (Compressing(ptrs[..]) ==> Terminated(ptrs[..]))
    ensures r >= 0 <==> Packs(src, old(buf[..dst]), old(Active(ptrs[..])), dstsiz)
    ensures r >= 0 ==> LegalName(src) && ValidLabels(NameAt(src, 0)) && dst + r <= buf.Length &&
                       buf[dst..dst + r] == PackOctets(old(buf[..dst]), old(Active(ptrs[..])), NameAt(src, 0))
    ensures r < 0 ==> r == -1 && Active(ptrs[..]) == old(Active(ptrs[..]))
    ensures r >= 0 ==> Active(ptrs[..]) ==
                       NewTable(old(buf[..dst]), old(Active(ptrs[..])), NameAt(src, 0), old(HasRoom(ptrs[..], last)))
  {
    hide *;
    ghost var m, before := buf[..dst], ptrs[..];
    var compressing, lpp, entries := ReadTable(ptrs);
    var legal := CheckName(src);
    if !legal {
      NotLegal(src, m, entries, dstsiz);
      return -1;
    }
    LegalIsName(src);
    NameAtValid(src, 0);
    ghost var job := Job(m, entries, src, NameAt(src, 0), before, last, compressing, lpp, dstsiz);
    r := PackLabels(job, src, buf, dst, dstsiz, ptrs, last, compressing, lpp, entries);
    FinishedFacts(job, buf[..], r);
    Slices(buf, dst, if r < 0 then dst else dst + r);
    PackEnd(job, ptrs[..], r);
  }

  /** Whether there is a table, where it ends, and its active entries. */
  method ReadTable(ptrs: array<int>) returns (compressing: bool, lpp: nat, entries: seq<nat>)
    requires Compressing(ptrs[..]) ==> Terminated(ptrs[..])
    ensures compressing == Compressing(ptrs[..]) && (compressing ==> EndsAt(ptrs[..], lpp))
    ensures entries == Active(ptrs[..]) && (!compressing ==> entries == [])
  {
    hide Active;
    compressing := ptrs.Length > 0 && ptrs[0] != NULL;
    lpp, entries := 0, [];
    if compressing {
      lpp := FindEnd(ptrs);
      entries := Entries(ptrs[..], lpp);
      ActiveIs(ptrs[..], lpp);
    } else {
      NoEntries(ptrs[..]);
    }
  }

  lemma NotLegal(src: seq<Byte>, m: seq<Byte>, table: seq<nat>, dstsiz: int)
    requires !LegalName(src)
    ensures !Packs(src, m, table, dstsiz)
  {
  }

  lemma LegalIsName(src: seq<Byte>)
    requires LegalName(src)
    ensures IsNameAt(src, 0)
  {
  }

  /** What the outcome of the loop means for the array of pointers. */
  lemma PackEnd(j: Job, p: seq<int>, r: int)
    requires LegalName(j.src) && ValidLabels(j.name) && j.name == NameAt(j.src, 0) && r >= -1
    requires j.compressing == Compressing(j.before) && (j.compressing ==> EndsAt(j.before, j.lpp))
    requires j.table == Active(j.before)
    requires r >= 0 <==> Fits(j.m, j.table, j.name, j.room)
    requires PointersAfter(j.before, p, j.compressing, Saves(j.m, j.table, j.name, j.lpp, j.last), j.lpp, |j.m|, r)
    ensures Compressing(p) == Compressing(j.before) && (Compressing(p) ==> Terminated(p) && Terminated(j.before))
    ensures r >= 0 <==> Packs(j.src, j.m, j.table, j.room)
    ensures r < 0 ==> r == -1 && Active(p) == j.table
    ensures r >= 0 ==> Active(p) == NewTable(j.m, j.table, j.name, HasRoom(j.before, j.last))
  {
    hide Active, PackOctets, UsesPointer, Find, NameAt, EndsAt, Terminated, Entries, PointersAfter, LegalName;
    var saves := Saves(j.m, j.table, j.name, j.lpp, j.last);
    if j.compressing {
      ActiveAfter(j.before, p, saves, j.lpp, |j.m|, r);
      EntriesLen(j.before, j.lpp);
    } else {
      PointersSame(j.before, p, saves, j.lpp, |j.m|, r);
    }
  }

  lemma Slices(a: array<Byte>, i: nat, j: nat)
    requires i <= j <= a.Length
    ensures a[..][..i] == a[..i] && a[..][i..j] == a[i..j]
  {
  }

  lemma EntriesLen(ptrs: seq<int>, k: nat)
    requires Compressing(ptrs) && EndsAt(ptrs, k)
    ensures Terminated(ptrs) && |Active(ptrs)| == k - 1
  {
    ActiveIs(ptrs, k);
  }

  lemma PointersSame(before: seq<int>, after: seq<int>, saves: bool, lpp: nat, dst: nat, r: int)
    requires PointersAfter(before, after, false, saves, lpp, dst, r)
    ensures after == before
  {
  }

  /**
   ns_name_rollback: no active entry at or after 'src' is left, and the entries before it are
   kept, provided the entries increase, as TableOk says they do.
  */
  method Rollback(src: nat, ptrs: array<int>, last: nat)
    requires Compressing(ptrs[..]) && Terminated(ptrs[..]) && last <= ptrs.Length && 0 <= ptrs[0] < src
    requires |Active(ptrs[..])| + 1 < last
    requires forall i, j :: 0 <= i < j < |Active(ptrs[..])| ==> Active(ptrs[..])[i] < Active(ptrs[..])[j]
    modifies ptrs
    ensures Compressing(ptrs[..]) && Terminated(ptrs[..])
    ensures var t, t' := old(Active(ptrs[..])), Active(ptrs[..]);
            && t' <= t
            && (forall i :: 0 <= i < |t'| ==> t'[i] < src)
            && (forall i :: |t'| <= i < |t| ==> t[i] >= src)
  {
    hide Active;
    ghost var before := ptrs[..];
    ghost var k: nat :| EndsAt(before, k);
    ActiveIs(before, k);
    ghost var t := Entries(before, k);
    assert t == Active(before);
    assert forall i, j :: 0 <= i < j < |t| ==> t[i] < t[j];
    var d := 0;
    while d < last && ptrs[d] != NULL
      invariant 0 <= d <= k < last && ptrs[..] == before
      invariant forall i :: 0 <= i < d ==> before[i] < src
      decreases last - d
    {
      if ptrs[d] >= src {
        ptrs[d] := NULL;
        assert EndsAt(ptrs[..], d);
        ActiveIs(ptrs[..], d);
        ghost var t' := Entries(ptrs[..], d);
        assert t' == t[..d - 1];
        assert forall i :: 0 <= i < |t'| ==> t'[i] == before[i + 1];
        assert t[d - 1] >= src;
        return;
      }
      d := d + 1;
    }
    assert d == k;
  }

  /** A message under construction, with its buffer and its pointer array. */
  class MessageBuffer {
    const buf: array<Byte>
    const ptrs: array<int>
    const last: Option<nat>
    var used: nat
    ghost var log: seq<(nat, Name)>

    ghost predicate Shaped()
      reads this, buf, ptrs
    {
      && buf as object != ptrs && used <= buf.Length
      && (last.Some? ==> last.value <= ptrs.Length)
      && Compressing(ptrs[..]) && Terminated(ptrs[..])
    }

    ghost function View(): Message
      requires Shaped()
      reads this, buf, ptrs
    {
      Message(buf[..used], Active(ptrs[..]), log)
    }

    ghost predicate Valid()
      reads this, buf, ptrs
    {
      Shaped() && Inv(View())
    }

    constructor (size: nat, entries: nat)
      requires entries >= 2
      ensures Valid() && View() == Message([], [], [])
      ensures buf.Length == size && last == Some(entries) && fresh(buf) && fresh(ptrs)
    {
      buf := new Byte[size](k => 0);
      ptrs := new int[entries](k => if k == 0 then 0 else NULL);
      last := Some(entries);
      used := 0;
      log := [];
      new;
      assert EndsAt(ptrs[..], 1);
      ActiveIs(ptrs[..], 1);
    }

    /** Packs a name at 'at', past everything written so far; the octets in between are the caller's. */
    method AddName(src: seq<Byte>, at: nat, dstsiz: int) returns (r: int)
      requires Valid() && Scannable(src, 0)
      requires used <= at && at + dstsiz <= buf.Length && at <= buf.Length
      modifies this, buf, ptrs
      ensures Valid()
      ensures r < 0 ==> View() == old(View())
      ensures r >= 0 ==> LegalName(src) && ValidLabels(NameAt(src, 0)) && used == at + r
      ensures r >= 0 ==> View() == AddItem(old(View()),
                Item(old(buf[used..at]), NameAt(src, 0), last.Some? && |old(View()).table| + 2 < last.value))
    {
      hide Active, PackOctets, Find, NewTable, NameAt, IsNameAt, TableOk, Back, Same, ReadsAs, WireLen, Scannable;
      ghost var v, filler := View(), buf[used..at];
      assert buf[..at] == v.m + filler;
      Extend(v.m, filler, v.table, v.log);
      r := Pack(src, buf, at, dstsiz, ptrs, last);
      if r >= 0 {
        ghost var item := Item(filler, NameAt(src, 0), last.Some? && |v.table| + 2 < last.value);
        AddItemKeeps(v, item);
        assert buf[..at + r] == buf[..at] + buf[at..at + r];
        used := at + r;
        log := log + [(at, NameAt(src, 0))];
        assert View() == AddItem(v, item);
      } else {
        assert buf[..used] == buf[..at][..used];
        assert View() == v;
      }
    }
  }
}
