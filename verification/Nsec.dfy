/**
 The NSEC span prover (prove_nsec_span in libval/val_assertion.c) and its soundness
 against a whole zone: section 5.4 of RFC 4035.  Names are label sequences; their
 comparison is the canonical order that CanonOrder.NameCmp computes on the wire.
*/
module Nsec {
  import opened Names
  import opened CanonOrder
  import opened Denial

  /**
   One NSEC record set with its signature.  'types' holds the types that is_type_set
   reports for its bitmap; 'badOffset' says that the next name runs past the RDATA.
  */
  datatype Record = Record(owner: Name, next: Name, signer: Name, types: set<int>, badOffset: bool)

  datatype Verdict = Verdict(span: Option<nat>, wcard: Option<nat>, notype: bool)

  // ----- the specification of the prover -----

  predicate Covers(r: Record, name: Name) {
    && NameOrd(name, r.owner) > 0
    && (NameOrd(name, r.next) <= 0 || NameOrd(r.next, r.signer) == 0)
  }

  /** The bitmap of a record owned by the query name does not contradict the denial. */
  predicate BitmapDenies(r: Record, qtype: int) {
    !r.badOffset && TypesDeny(r.types, qtype)
  }

  predicate DeniesType(r: Record, qname: Name, qtype: int) {
    NameOrd(qname, r.owner) == 0 && BitmapDenies(r, qtype)
  }

  /** The last record that covers the name. */
  function LastCovering(list: seq<Record>, qname: Name): (i: Option<nat>)
    ensures i.Some? ==> i.value < |list| && Covers(list[i.value], qname)
    ensures i.None? ==> forall j :: 0 <= j < |list| ==> !Covers(list[j], qname)
  {
    if list == [] then None
    else if Covers(list[|list| - 1], qname) then Some(|list| - 1)
    else
      var i := LastCovering(list[..|list| - 1], qname);
      i
  }

  /** The number of trailing labels two names share, ignoring case. */
  function Shared(a: Name, b: Name): (n: nat)
    ensures n <= |a| && n <= |b|
    decreases |a|
  {
    if a == [] || b == [] || !SameLabel(a[|a| - 1], b[|b| - 1]) then 0
    else 1 + Shared(a[..|a| - 1], b[..|b| - 1])
  }

  function CommonAncestor(owner: Name, qname: Name): Name {
    owner[|owner| - Shared(owner, qname)..]
  }

  function LongerOnWire(a: Name, b: Name): Name {
    if WireLen(a) > WireLen(b) then a else b
  }

  /** What one record says about the closest encloser of the query name. */
  function RecordEncloser(r: Record, qname: Name): Name {
    LongerOnWire(CommonAncestor(r.owner, qname), CommonAncestor(r.next, qname))
  }

  function Closest(list: seq<Record>, qname: Name): (ce: Option<Name>) {
    if list == [] then None else
      var r := list[|list| - 1];
      var ce := Closest(list[..|list| - 1], qname);
      if NameOrd(qname, r.owner) == 0 then ce
      else if ce.None? then Some(RecordEncloser(r, qname))
      else Some(LongerOnWire(ce.value, RecordEncloser(r, qname)))
  }

  /** The first record from 'k' on that is owned by the wildcard or covers it. */
  function FirstWild(list: seq<Record>, wc: Name, k: nat): (i: Option<nat>)
    requires k <= |list|
    ensures i.Some? ==> k <= i.value < |list| &&
                        (NameOrd(wc, list[i.value].owner) == 0 || Covers(list[i.value], wc))
    ensures i.None? ==> forall j :: k <= j < |list| ==>
                          NameOrd(wc, list[j].owner) != 0 && !Covers(list[j], wc)
    decreases |list| - k
  {
    if k == |list| then None
    else if NameOrd(wc, list[k].owner) == 0 || Covers(list[k], wc) then Some(k)
    else FirstWild(list, wc, k + 1)
  }

  function FirstDenial(list: seq<Record>, qname: Name, qtype: int, k: nat): (i: Option<nat>)
    requires k <= |list|
    ensures i.Some? ==> k <= i.value < |list| && DeniesType(list[i.value], qname, qtype)
    ensures i.None? ==> forall j :: k <= j < |list| ==> !DeniesType(list[j], qname, qtype)
    decreases |list| - k
  {
    if k == |list| then None
    else if DeniesType(list[k], qname, qtype) then Some(k)
    else FirstDenial(list, qname, qtype, k + 1)
  }

  function Judge(list: seq<Record>, qname: Name, qtype: int, hint: Option<Name>): Verdict {
    var exact := FirstDenial(list, qname, qtype, 0);
    if exact.Some? then Verdict(exact, exact, true) else
      var span := LastCovering(list, qname);
      var ce := Closest(list, qname);
      if ce.None? then Verdict(span, None, false)
      else if hint.Some? then
        var kept := if IsSuffix(ce.value, hint.value) then span else None;
        Verdict(kept, kept, false)
      else if WireLen(ce.value) + 2 > MAXCDNAME then Verdict(span, None, false)
      else
        var w := FirstWild(list, Wildcard(ce.value), 0);
        Verdict(span, w, w.Some? && NameOrd(Wildcard(ce.value), list[w.value].owner) == 0)
  }

  // ----- the prover -----

  /** Strips labels from 'name' until what is left is at or above 'qname'. */
  method StripToAncestor(name: Name, qname: Name) returns (q: Name)
    ensures q == CommonAncestor(name, qname)
  {
    hide *;
    q := name;
    SharedIsLongest(name, qname, 0);
    assert name[0..] == name;
    ghost var k := 0;
    while q != []
      invariant 0 <= k <= |name| && q == name[k..]
      invariant k <= |name| - Shared(name, qname)
    {
      SharedIsLongest(name, qname, k);
      var found := NameName(qname, q);
      if found.Some? {
        break;
      }
      q := q[1..];
      k := k + 1;
    }
    SharedIsLongest(name, qname, k);
    CommonAncestorIs(name, qname, k);
  }

  lemma CommonAncestorIs(name: Name, qname: Name, k: nat)
    requires k == |name| - Shared(name, qname)
    ensures CommonAncestor(name, qname) == name[k..]
  {
  }

  method ProveNsecSpan(list: seq<Record>, qname: Name, qtype: int, hint: Option<Name>) returns (v: Verdict)
    ensures v == Judge(list, qname, qtype, hint)
  {
    hide NameOrd, CommonAncestor, Shared, WireLen, IsSuffix, FirstDenial, FirstWild, LastCovering, Closest, Covers;
    if list == [] {
      EmptyList(qname, qtype);
      return Verdict(None, None, false);
    }
    var span: Option<nat> := None;
    var ce: Option<Name> := None;
    var n := 0;
    EmptyList(qname, qtype);
    assert list[..0] == [];
    while n < |list|
      invariant 0 <= n <= |list|
      invariant FirstDenial(list, qname, qtype, 0) == FirstDenial(list, qname, qtype, n)
      invariant span == LastCovering(list[..n], qname)
      invariant ce == Closest(list[..n], qname)
    {
      var r := list[n];
      Unfold(list, qname, qtype, n);
      var cmp := NameOrd(qname, r.owner);
      if cmp == 0 {
        if r.badOffset { n := n + 1; continue; }
        if qtype == TYPE_DS && TYPE_NS !in r.types { n := n + 1; continue; }
        if qtype == TYPE_DS && TYPE_SOA in r.types { n := n + 1; continue; }
        if qtype in r.types { n := n + 1; continue; }
        if TYPE_CNAME in r.types { n := n + 1; continue; }
        if TYPE_DNAME in r.types { n := n + 1; continue; }
        return Verdict(Some(n), Some(n), true);
      } else if cmp > 0 {
        if NameOrd(qname, r.next) <= 0 || NameOrd(r.next, r.signer) == 0 {
          span := Some(n);
        }
      }
      var q1 := StripToAncestor(r.owner, qname);
      var q2 := StripToAncestor(r.next, qname);
      var q := if WireLen(q1) > WireLen(q2) then q1 else q2;
      ce := if ce.Some? && WireLen(ce.value) > WireLen(q) then ce else Some(q);
      n := n + 1;
    }
    assert list[..|list|] == list;
    NoDenialLeft(list, qname, qtype);
    if ce.None? {
      return Verdict(span, None, false);
    }
    if hint.Some? {
      var above := NameName(hint.value, ce.value);
      if above.None? {
        span := None;
      }
      return Verdict(span, span, false);
    }
    if MAXCDNAME < WireLen(ce.value) + 2 {
      return Verdict(span, None, false);
    }
    var wc := Wildcard(ce.value);
    n := 0;
    while n < |list|
      invariant 0 <= n <= |list|
      invariant FirstWild(list, wc, 0) == FirstWild(list, wc, n)
    {
      var r := list[n];
      UnfoldWild(list, wc, n);
      var cmp := NameOrd(wc, r.owner);
      if cmp == 0 {
        return Verdict(span, Some(n), true);
      } else if cmp > 0 {
        if NameOrd(wc, r.next) <= 0 || NameOrd(r.next, r.signer) == 0 {
          return Verdict(span, Some(n), false);
        }
      }
      n := n + 1;
    }
    UnfoldWild(list, wc, n);
    return Verdict(span, None, false);
  }

  lemma EmptyList(qname: Name, qtype: int)
    ensures LastCovering([], qname) == None && Closest([], qname) == None && FirstDenial([], qname, qtype, 0) == None
  {
  }

  lemma NoDenialLeft(list: seq<Record>, qname: Name, qtype: int)
    ensures FirstDenial(list, qname, qtype, |list|) == None
  {
  }

  lemma Unfold(list: seq<Record>, qname: Name, qtype: int, n: nat)
    requires n < |list|
    ensures FirstDenial(list, qname, qtype, n) ==
              if DeniesType(list[n], qname, qtype) then Some(n) else FirstDenial(list, qname, qtype, n + 1)
    ensures var r, cmp := list[n], NameOrd(qname, list[n].owner);
            LastCovering(list[..n + 1], qname) ==
              if cmp > 0 && (NameOrd(qname, r.next) <= 0 || NameOrd(r.next, r.signer) == 0) then Some(n)
              else LastCovering(list[..n], qname)
    ensures var r, ce := list[n], Closest(list[..n], qname);
            Closest(list[..n + 1], qname) ==
              if NameOrd(qname, r.owner) == 0 then ce
              else if ce.None? then Some(RecordEncloser(r, qname))
              else Some(LongerOnWire(ce.value, RecordEncloser(r, qname)))
  {
    hide NameOrd, CommonAncestor, WireLen;
    assert list[..n + 1][..n] == list[..n] && list[..n + 1][n] == list[n];
  }

  lemma UnfoldWild(list: seq<Record>, wc: Name, n: nat)
    requires n <= |list|
    ensures n == |list| ==> FirstWild(list, wc, n) == None
    ensures n < |list| ==>
              var r, cmp := list[n], NameOrd(wc, list[n].owner);
              FirstWild(list, wc, n) ==
                if cmp == 0 || (cmp > 0 && (NameOrd(wc, r.next) <= 0 || NameOrd(r.next, r.signer) == 0)) then Some(n)
                else FirstWild(list, wc, n + 1)
  {
    hide NameOrd;
  }

  // ----- shared labels and the canonical order -----

  /** The labels shared are exactly the ancestors in common. */
  lemma {:induction false} SharedIsLongest(a: Name, b: Name, k: nat)
    requires k <= |a|
    ensures IsSuffix(a[k..], b) <==> |a| - k <= Shared(a, b)
    decreases |a|
  {
    if k < |a| {
      var a', b' := a[..|a| - 1], b[..|b|];
      if b != [] {
        b' := b[..|b| - 1];
        SharedIsLongest(a', b', k);
        SuffixByLast(a[k..], b);
        assert a[k..][..|a| - k - 1] == a'[k..];
      }
    }
  }

  lemma SuffixByLast(s: Name, n: Name)
    requires s != [] && n != []
    ensures IsSuffix(s, n) <==>
              SameLabel(n[|n| - 1], s[|s| - 1]) && IsSuffix(s[..|s| - 1], n[..|n| - 1])
    ensures SameLabel(n[|n| - 1], s[|s| - 1]) <==> SameLabel(s[|s| - 1], n[|n| - 1])
  {
    hide SameLabel;
    var s', n' := s[..|s| - 1], n[..|n| - 1];
    assert SameLabel(n[|n| - 1], s[|s| - 1]) <==> SameLabel(s[|s| - 1], n[|n| - 1])
        by { SameLabelSym(n[|n| - 1], s[|s| - 1]); }
    if IsSuffix(s, n) {
      assert SameLabel(n[|n| - |s| + (|s| - 1)], s[|s| - 1]);
      forall i | 0 <= i < |s'| ensures SameLabel(n'[|n'| - |s'| + i], s'[i]) {
        assert SameLabel(n[|n| - |s| + i], s[i]);
      }
    }
    if SameLabel(n[|n| - 1], s[|s| - 1]) && IsSuffix(s', n') {
      forall i | 0 <= i < |s| ensures SameLabel(n[|n| - |s| + i], s[i]) {
        if i < |s'| { assert SameLabel(n'[|n'| - |s'| + i], s'[i]); }
      }
    }
  }

  lemma SameLabelSym(x: Label, y: Label)
    ensures SameLabel(x, y) <==> SameLabel(y, x)
  {
  }

  /** Going from 'a' to 'c' in canonical order, 'b' in between shares at least as much with either end. */
  lemma {:induction false} SharedBetween(a: Name, b: Name, c: Name)
    requires NameOrd(a, b) <= 0 && NameOrd(b, c) <= 0
    ensures Shared(a, c) <= Shared(b, c) && Shared(c, a) <= Shared(b, a)
    decreases |a|
  {
    SharedSymmetric(a, c);
    if a != [] && c != [] && SameLabel(a[|a| - 1], c[|c| - 1]) {
      assert b != [];
      var x, y, z := FoldLabel(a[|a| - 1]), FoldLabel(b[|b| - 1]), FoldLabel(c[|c| - 1]);
      OctetsAntisymmetric(x, y);
      OctetsAntisymmetric(y, z);
      assert y == x;
      SharedBetween(a[..|a| - 1], b[..|b| - 1], c[..|c| - 1]);
    }
  }

  lemma {:induction false} SharedSymmetric(a: Name, b: Name)
    ensures Shared(a, b) == Shared(b, a)
    decreases |a|
  {
    if a != [] && b != [] { SharedSymmetric(a[..|a| - 1], b[..|b| - 1]); }
  }

  lemma {:induction false} SharedFolds(a: Name, a': Name, b: Name)
    requires Same(a, a')
    ensures Shared(a, b) == Shared(a', b)
    decreases |a|
  {
    if a != [] && b != [] {
      assert SameLabel(a[|a| - 1], a'[|a| - 1]);
      SharedFolds(a[..|a| - 1], a'[..|a| - 1], b[..|b| - 1]);
    }
  }

  // ----- the zone behind the records -----

  /** The owner names of a signed zone, in canonical order from the apex. */
  /** A signed zone: its owner names in order, and the types that each has. */
  datatype Zone = Zone(apex: Name, owners: seq<Name>, types: seq<set<int>>)

  ghost predicate ValidZone(z: Zone) {
    && z.owners != [] && NameOrd(z.owners[0], z.apex) == 0 && |z.types| == |z.owners|
    && (forall i :: 0 <= i < |z.owners| ==> IsSuffix(z.apex, z.owners[i]))
    && (forall i, j :: 0 <= i < j < |z.owners| ==> NameOrd(z.owners[i], z.owners[j]) < 0)
  }

  ghost predicate Owns(z: Zone, name: Name) {
    exists i :: 0 <= i < |z.owners| && NameOrd(name, z.owners[i]) == 0
  }

  function NextIndex(z: Zone, i: nat): nat
    requires i < |z.owners|
  {
    if i + 1 == |z.owners| then 0 else i + 1
  }

  /** 'r' is the zone's i-th NSEC record. */
  ghost predicate IsLink(z: Zone, r: Record, i: nat) {
    && i < |z.owners| == |z.types|
    && NameOrd(r.owner, z.owners[i]) == 0
    && NameOrd(r.next, z.owners[NextIndex(z, i)]) == 0
    && NameOrd(r.signer, z.apex) == 0
    && (!r.badOffset ==> r.types == Reported(z.types[i]))
  }

  ghost predicate InChain(z: Zone, r: Record) {
    exists i :: IsLink(z, r, i)
  }

  ghost predicate FromZone(z: Zone, list: seq<Record>) {
    ValidZone(z) && forall k :: 0 <= k < |list| ==> InChain(z, list[k])
  }

  /** 'ce' is the longest ancestor-or-self of 'name' that is at or above an owner name. */
  ghost predicate TrueEncloser(z: Zone, name: Name, ce: Name) {
    && IsSuffix(ce, name)
    && (exists i :: 0 <= i < |z.owners| && IsSuffix(ce, z.owners[i]))
    && (forall i :: 0 <= i < |z.owners| ==> Shared(z.owners[i], name) <= |ce|)
  }

  lemma Zero(a: Name, b: Name, c: Name)
    requires NameOrd(a, b) == 0
    ensures NameOrd(a, c) == NameOrd(b, c) && NameOrd(c, a) == NameOrd(c, b)
    ensures NameOrd(b, a) == 0 && Shared(a, c) == Shared(b, c)
  {
    hide NameOrd, Shared;
    NameOrdZero(a, b);
    NameOrdFolds(a, b, c);
    SharedFolds(a, b, c);
    NameOrdAntisymmetric(a, b);
  }

  /** A covering record of the zone splits the owners around the name. */
  lemma CoverSplits(z: Zone, r: Record, i: nat, name: Name, j: nat)
    requires ValidZone(z) && IsLink(z, r, i) && Covers(r, name) && j < |z.owners|
    ensures j <= i ==> NameOrd(z.owners[j], name) < 0
    ensures j > i ==> i + 1 < |z.owners| && NameOrd(name, z.owners[i + 1]) <= 0
    ensures j > i + 1 ==> NameOrd(name, z.owners[j]) < 0
  {
    hide NameOrd, Shared, IsSuffix;
    Zero(r.owner, z.owners[i], name);
    Zero(r.next, z.owners[NextIndex(z, i)], name);
    Zero(r.next, z.owners[NextIndex(z, i)], r.signer);
    Zero(r.signer, z.apex, z.owners[NextIndex(z, i)]);
    Zero(z.owners[0], z.apex, z.owners[NextIndex(z, i)]);
    NameOrdAntisymmetric(z.owners[i], name);
    NameOrdAntisymmetric(z.owners[0], z.owners[NextIndex(z, i)]);
    if j < i {
      NameOrdTransitive(z.owners[j], z.owners[i], name);
    }
    if j > i + 1 && NameOrd(name, r.next) <= 0 {
      NameOrdTransitive(name, z.owners[i + 1], z.owners[j]);
    }
  }

  /** A record of the zone that covers a name leaves it at most one way to exist: as the next name. */
  lemma CoverExact(z: Zone, r: Record, name: Name)
    requires ValidZone(z) && InChain(z, r) && Covers(r, name)
    ensures Owns(z, name) <==> Same(name, r.next)
  {
    hide NameOrd, Shared, IsSuffix, Same, Covers;
    var i: nat :| IsLink(z, r, i);
    var next := z.owners[NextIndex(z, i)];
    NameOrdZero(name, r.next);
    Zero(r.next, next, name);
    if Owns(z, name) {
      var j :| 0 <= j < |z.owners| && NameOrd(name, z.owners[j]) == 0;
      CoverSplits(z, r, i, name, j);
      NameOrdAntisymmetric(name, z.owners[j]);
    }
  }

  /** What the encloser kept by the prover is, whatever records were listed. */
  lemma {:induction false} ClosestOfList(list: seq<Record>, qname: Name)
    requires Closest(list, qname).Some?
    ensures IsSuffix(Closest(list, qname).value, qname)
    ensures exists j :: 0 <= j < |list| &&
              (IsSuffix(Closest(list, qname).value, list[j].owner)
                || IsSuffix(Closest(list, qname).value, list[j].next))
    ensures forall j :: 0 <= j < |list| && NameOrd(qname, list[j].owner) != 0 ==>
              Shared(list[j].owner, qname) <= |Closest(list, qname).value| &&
              Shared(list[j].next, qname) <= |Closest(list, qname).value|
  {
    hide NameOrd, Shared, IsSuffix, WireLen, CommonAncestor;
    var m := |list| - 1;
    var r, rest := list[m], list[..m];
    var ce := Closest(list, qname).value;
    EncloserOfRecord(r, qname);
    if NameOrd(qname, r.owner) == 0 || Closest(rest, qname).Some? {
      ClosestOfList(rest, qname);
      var c := Closest(rest, qname).value;
      if NameOrd(qname, r.owner) != 0 {
        WireLenOrdersSuffixes(c, RecordEncloser(r, qname), qname);
      }
      assert ce == c ==> exists j :: 0 <= j < |rest| && (IsSuffix(c, rest[j].owner) || IsSuffix(c, rest[j].next));
      if ce == c {
        var j :| 0 <= j < |rest| && (IsSuffix(c, rest[j].owner) || IsSuffix(c, rest[j].next));
        assert list[j] == rest[j];
      } else {
        assert IsSuffix(ce, list[m].owner) || IsSuffix(ce, list[m].next);
      }
    } else {
      assert IsSuffix(ce, list[m].owner) || IsSuffix(ce, list[m].next);
      ClosestNone(rest, qname);
    }
    forall j | 0 <= j < |list| && NameOrd(qname, list[j].owner) != 0
      ensures Shared(list[j].owner, qname) <= |ce| && Shared(list[j].next, qname) <= |ce|
    {
      if j < m { assert list[j] == rest[j]; }
    }
  }

  lemma {:induction false} ClosestNone(list: seq<Record>, qname: Name)
    requires Closest(list, qname).None?
    ensures forall j :: 0 <= j < |list| ==> NameOrd(qname, list[j].owner) == 0
  {
    hide NameOrd;
    if list != [] {
      ClosestNone(list[..|list| - 1], qname);
      forall j | 0 <= j < |list| ensures NameOrd(qname, list[j].owner) == 0 {
        if j < |list| - 1 { assert list[j] == list[..|list| - 1][j]; }
      }
    }
  }

  lemma EncloserOfRecord(r: Record, qname: Name)
    ensures var e := RecordEncloser(r, qname);
            && IsSuffix(e, qname)
            && (IsSuffix(e, r.owner) || IsSuffix(e, r.next))
            && Shared(r.owner, qname) <= |e| && Shared(r.next, qname) <= |e|
  {
    CommonAncestorOf(r.owner, qname);
    CommonAncestorOf(r.next, qname);
    hide Shared, IsSuffix, WireLen, CommonAncestor;
    WireLenOrdersSuffixes(CommonAncestor(r.owner, qname), CommonAncestor(r.next, qname), qname);
  }

  lemma CommonAncestorOf(name: Name, qname: Name)
    ensures var e := CommonAncestor(name, qname);
            IsSuffix(e, qname) && IsSuffix(e, name) && |e| == Shared(name, qname)
  {
    var k := |name| - Shared(name, qname);
    SharedIsLongest(name, qname, k);
    TailIsSuffix(name, k);
  }

  /**
   The encloser kept by the prover is the true one as soon as one listed record covers
   the name: in canonical order the longest common suffix with a name is reached at one
   of its two neighbours.
  */
  lemma EncloserIsTrue(z: Zone, list: seq<Record>, qname: Name, s: nat)
    requires FromZone(z, list) && s < |list| && Covers(list[s], qname)
    ensures Closest(list, qname).Some? && TrueEncloser(z, qname, Closest(list, qname).value)
  {
    hide NameOrd, Shared, IsSuffix, Closest;
    var r := list[s];
    if Closest(list, qname).None? { ClosestNone(list, qname); }
    var ce := Closest(list, qname).value;
    ClosestOfList(list, qname);
    assert Shared(r.owner, qname) <= |ce| && Shared(r.next, qname) <= |ce|;
    OwnerUnderEncloser(z, list, qname, ce);
    var i: nat :| IsLink(z, r, i);
    Zero(r.owner, z.owners[i], qname);
    Zero(r.next, z.owners[NextIndex(z, i)], qname);
    CoverSplits(z, r, i, qname, i);
    forall j | 0 <= j < |z.owners| ensures Shared(z.owners[j], qname) <= |ce| {
      CoverSplits(z, r, i, qname, j);
      if j < i {
        SharedBetween(z.owners[j], z.owners[i], qname);
      } else if j > i + 1 {
        SharedBetween(qname, z.owners[i + 1], z.owners[j]);
      }
    }
  }

  /** Every name in a listed record is an owner of the zone, so the encloser is above one. */
  lemma OwnerUnderEncloser(z: Zone, list: seq<Record>, qname: Name, ce: Name)
    requires FromZone(z, list)
    requires exists j :: 0 <= j < |list| && (IsSuffix(ce, list[j].owner) || IsSuffix(ce, list[j].next))
    ensures exists i :: 0 <= i < |z.owners| && IsSuffix(ce, z.owners[i])
  {
    hide NameOrd, Shared, IsSuffix;
    var j :| 0 <= j < |list| && (IsSuffix(ce, list[j].owner) || IsSuffix(ce, list[j].next));
    var i: nat :| IsLink(z, list[j], i);
    var o, nx := z.owners[i], z.owners[NextIndex(z, i)];
    if IsSuffix(ce, list[j].owner) {
      SuffixOfSame(ce, list[j].owner, o);
    } else {
      SuffixOfSame(ce, list[j].next, nx);
    }
  }

  lemma SuffixOfSame(s: Name, a: Name, b: Name)
    requires IsSuffix(s, a) && NameOrd(a, b) == 0
    ensures IsSuffix(s, b)
  {
    NameOrdZero(a, b);
    hide NameOrd;
    forall i | 0 <= i < |s| ensures SameLabel(b[|b| - |s| + i], s[i]) {
      assert SameLabel(a[|a| - |s| + i], s[i]) && SameLabel(a[|a| - |s| + i], b[|b| - |s| + i]);
    }
  }

  /** The prover says, without a hint, that the name does not exist and no wildcard stands in for it. */
  predicate ReportsNameError(list: seq<Record>, qname: Name, qtype: int) {
    var v := Judge(list, qname, qtype, None);
    v.span.Some? && v.wcard.Some? && !v.notype
  }

  /** Some listed record has this next name. */
  predicate Listed(list: seq<Record>, name: Name) {
    exists k :: 0 <= k < |list| && Same(name, list[k].next)
  }

  /** The same through the records returned: each name exists precisely when it is the next name of its record. */
  lemma NameErrorByRecords(z: Zone, list: seq<Record>, qname: Name, qtype: int)
    requires FromZone(z, list) && ReportsNameError(list, qname, qtype)
    ensures var v, ce := Judge(list, qname, qtype, None), Closest(list, qname);
            && ce.Some? && TrueEncloser(z, qname, ce.value)
            && (Owns(z, qname) <==> Same(qname, list[v.span.value].next))
            && (Owns(z, Wildcard(ce.value)) <==> Same(Wildcard(ce.value), list[v.wcard.value].next))
  {
    hide NameOrd, Shared, IsSuffix, Same, Closest, FirstDenial, Covers, Owns, TrueEncloser, WireLen, InChain, IsLink;
    var v := Judge(list, qname, qtype, None);
    EncloserIsTrue(z, list, qname, v.span.value);
    var ce := Closest(list, qname).value;
    CoverExact(z, list[v.span.value], qname);
    CoverExact(z, list[v.wcard.value], Wildcard(ce));
  }

  /** Every next name is an owner of the zone. */
  lemma ListedIsOwned(z: Zone, list: seq<Record>, name: Name)
    requires FromZone(z, list) && Listed(list, name)
    ensures Owns(z, name)
  {
    hide NameOrd, Shared, IsSuffix, Same;
    var k :| 0 <= k < |list| && Same(name, list[k].next);
    var i: nat :| IsLink(z, list[k], i);
    NameOrdZero(name, list[k].next);
    Zero(name, list[k].next, z.owners[NextIndex(z, i)]);
  }

  /**
   Name errors, exactly.  When the prover reports a name error without a hint, the closest encloser
   is the true one, and the query name is an owner of the zone precisely when it is the next name
   of some listed record; likewise the wildcard at the encloser.  These exceptions exist because
   the prover accepts names equal to the next name.
  */
  lemma NameErrorExact(z: Zone, list: seq<Record>, qname: Name, qtype: int)
    requires FromZone(z, list) && ReportsNameError(list, qname, qtype)
    ensures var ce := Closest(list, qname);
            && ce.Some? && TrueEncloser(z, qname, ce.value)
            && (Owns(z, qname) <==> Listed(list, qname))
            && (Owns(z, Wildcard(ce.value)) <==> Listed(list, Wildcard(ce.value)))
  {
    NameErrorByRecords(z, list, qname, qtype);
    hide NameOrd, Same, Closest, FirstDenial, Covers, Owns, TrueEncloser, WireLen, FromZone;
    var ce := Closest(list, qname).value;
    if Listed(list, qname) { ListedIsOwned(z, list, qname); }
    if Listed(list, Wildcard(ce)) { ListedIsOwned(z, list, Wildcard(ce)); }
  }

  /** The use a validator makes of it: with neither exception present, neither name exists. */
  lemma NameErrorSound(z: Zone, list: seq<Record>, qname: Name, qtype: int)
    requires FromZone(z, list) && ReportsNameError(list, qname, qtype)
    requires Closest(list, qname).Some? ==> !Listed(list, Wildcard(Closest(list, qname).value))
    requires !Listed(list, qname)
    ensures Closest(list, qname).Some?
    ensures !Owns(z, qname) && !Owns(z, Wildcard(Closest(list, qname).value))
    ensures |Closest(list, qname).value| < |qname| <==>
              forall i :: 0 <= i < |z.owners| ==> !IsSuffix(qname, z.owners[i])
  {
    NameErrorExact(z, list, qname, qtype);
    hide NameOrd, Shared, IsSuffix, Same, Closest, FirstDenial, Covers, Owns, WireLen, InChain, IsLink;
    EmptyNonTerminal(z, qname, Closest(list, qname).value);
  }

  /**
   With a hint, which the label count of a wildcard answer gives, a span that the prover keeps
   shows that the true encloser is at or above the hint, and that the query name exists at most as
   the next name of a listed record.
  */
  lemma HintedSpanExact(z: Zone, list: seq<Record>, qname: Name, qtype: int, hint: Name)
    requires FromZone(z, list)
    requires var v := Judge(list, qname, qtype, Some(hint)); v.span.Some? && !v.notype
    ensures var ce := Closest(list, qname);
            && ce.Some? && TrueEncloser(z, qname, ce.value) && IsSuffix(ce.value, hint)
            && (Owns(z, qname) <==> Listed(list, qname))
  {
    hide NameOrd, Shared, IsSuffix, Same, Closest, FirstDenial, Covers, Owns, TrueEncloser, WireLen, InChain, IsLink;
    var v := Judge(list, qname, qtype, Some(hint));
    EncloserIsTrue(z, list, qname, v.span.value);
    CoverExact(z, list[v.span.value], qname);
    if Listed(list, qname) { ListedIsOwned(z, list, qname); }
  }

  // ----- denial of a type -----

  /**
   Denial of the type at the query name, over the listed records: it is given exactly if a record
   with a whole next name is owned by the query name and has in its bitmap neither the type, nor
   CNAME, nor DNAME, and for DS has NS and not SOA.
  */
  lemma TypeDenialByRecords(list: seq<Record>, qname: Name, qtype: int, hint: Option<Name>)
    ensures var v := Judge(list, qname, qtype, hint);
            && (v.span.Some? ==> v.span.value < |list|)
            && (v.span.Some? && Same(qname, list[v.span.value].owner) <==>
                  exists k :: 0 <= k < |list| && Same(qname, list[k].owner) && !list[k].badOffset
                              && qtype !in list[k].types && 5 !in list[k].types && 39 !in list[k].types
                              && (qtype == 43 ==> 2 in list[k].types && 6 !in list[k].types))
            && (v.span.Some? && Same(qname, list[v.span.value].owner) ==> v == Verdict(v.span, v.span, true))
  {
    var v, exact := Judge(list, qname, qtype, hint), FirstDenial(list, qname, qtype, 0);
    forall k | 0 <= k < |list| ensures Same(qname, list[k].owner) <==> NameOrd(qname, list[k].owner) == 0 {
      NameOrdZero(qname, list[k].owner);
    }
    hide NameOrd, Same, Closest, FirstWild, IsSuffix, WireLen;
    if exact.Some? {
      assert DeniesType(list[exact.value], qname, qtype);
    }
  }

  /**
   The same against the zone: the type is denied at the query name exactly if a record with a whole
   next name is listed for that owner, and the zone has there neither the type, nor CNAME, nor
   DNAME, and for DS has NS and not SOA; except that types from 256 on are denied whether or not
   they are there.
  */
  lemma TypeDenialExact(z: Zone, list: seq<Record>, qname: Name, qtype: int, hint: Option<Name>)
    requires FromZone(z, list)
    ensures var v := Judge(list, qname, qtype, hint);
            && (v.span.Some? ==> v.span.value < |list|)
            && (v.span.Some? && Same(qname, list[v.span.value].owner) <==>
                  exists k: nat, i: nat ::
                    && k < |list| && IsLink(z, list[k], i) && !list[k].badOffset && Same(qname, z.owners[i])
                    && !(1 <= qtype < 256 && qtype in z.types[i]) && 5 !in z.types[i] && 39 !in z.types[i]
                    && (qtype == 43 ==> 2 in z.types[i] && 6 !in z.types[i]))
  {
    TypeDenialByRecords(list, qname, qtype, hint);
    hide NameOrd, Same, Judge;
    var v := Judge(list, qname, qtype, hint);
    if v.span.Some? && Same(qname, list[v.span.value].owner) {
      var k :| 0 <= k < |list| && Same(qname, list[k].owner) && !list[k].badOffset
               && qtype !in list[k].types && 5 !in list[k].types && 39 !in list[k].types
               && (qtype == 43 ==> 2 in list[k].types && 6 !in list[k].types);
      assert InChain(z, list[k]);
      var i: nat :| IsLink(z, list[k], i);
      SameOwner(qname, list[k].owner, z.owners[i]);
    }
    forall k: nat, i: nat | k < |list| && IsLink(z, list[k], i)
      ensures Same(qname, z.owners[i]) ==> Same(qname, list[k].owner)
    {
      SameOwner(qname, list[k].owner, z.owners[i]);
    }
  }

  lemma SameOwner(name: Name, a: Name, b: Name)
    requires NameOrd(a, b) == 0
    ensures Same(name, a) <==> Same(name, b)
  {
    Zero(a, b, name);
    NameOrdZero(name, a);
    NameOrdZero(name, b);
  }

  /**
   A type denied through a wildcard: the wildcard at the true encloser is an owner, and the query
   name one at most as a listed next name.  The bitmap of the wildcard is not looked at, so its type
   is denied truly exactly if the record returned does not list it; types from 256 on aside.
  */
  lemma WildcardDenialExact(z: Zone, list: seq<Record>, qname: Name, qtype: int, v: Verdict)
    requires FromZone(z, list) && v == Judge(list, qname, qtype, None) && 1 <= qtype < 256
    requires v.notype && v.span.Some? && v.wcard.Some? && v.wcard.value < |list|
    requires !Same(qname, list[v.wcard.value].owner) && !list[v.wcard.value].badOffset
    ensures var ce := Closest(list, qname);
            && ce.Some? && TrueEncloser(z, qname, ce.value) && Same(Wildcard(ce.value), list[v.wcard.value].owner)
            && (Owns(z, qname) <==> Listed(list, qname))
            && exists i :: 0 <= i < |z.owners| == |z.types| && Same(Wildcard(ce.value), z.owners[i])
                           && (qtype !in z.types[i] <==> qtype !in list[v.wcard.value].types)
  {
    hide NameOrd, Shared, IsSuffix, Same, Closest, Covers, Owns, TrueEncloser, WireLen, InChain;
    if FirstDenial(list, qname, qtype, 0).Some? {
      NameOrdZero(qname, list[v.wcard.value].owner);
      assert false;
    }
    EncloserIsTrue(z, list, qname, v.span.value);
    CoverExact(z, list[v.span.value], qname);
    if Listed(list, qname) { ListedIsOwned(z, list, qname); }
    var r, w := list[v.wcard.value], Wildcard(Closest(list, qname).value);
    NameOrdZero(w, r.owner);
    assert InChain(z, r);
    WildcardLink(z, r, w, qtype);
  }

  lemma WildcardLink(z: Zone, r: Record, w: Name, qtype: int)
    requires InChain(z, r) && Same(w, r.owner) && !r.badOffset && 1 <= qtype < 256
    ensures exists i :: 0 <= i < |z.owners| == |z.types| && Same(w, z.owners[i]) &&
                        (qtype !in z.types[i] <==> qtype !in r.types)
  {
    hide NameOrd, Same;
    var i: nat :| IsLink(z, r, i);
    SameOwner(w, r.owner, z.owners[i]);
  }

  // ----- genuine proofs are accepted -----

  /** The true encloser is unique, ignoring case. */
  lemma EncloserUnique(z: Zone, name: Name, a: Name, b: Name)
    requires TrueEncloser(z, name, a) && TrueEncloser(z, name, b)
    ensures Same(a, b)
  {
    hide SameLabel;
    EncloserNoLonger(z, name, a, b);
    EncloserNoLonger(z, name, b, a);
    assert forall i :: 0 <= i < |a| ==>
                         SameLabel(name[|name| - |a| + i], a[i]) && SameLabel(name[|name| - |a| + i], b[i]);
    SuffixIsSame(a, name);
    SuffixIsSame(b, name);
    SameThrough(a, name[|name| - |a|..], b);
  }

  lemma SameThrough(a: Name, m: Name, b: Name)
    requires Same(a, m) && Same(m, b)
    ensures Same(a, b)
  {
    forall i | 0 <= i < |a| ensures SameLabel(a[i], b[i]) {
      assert SameLabel(a[i], m[i]) && SameLabel(m[i], b[i]);
    }
  }

  lemma EncloserNoLonger(z: Zone, name: Name, a: Name, b: Name)
    requires TrueEncloser(z, name, a) && TrueEncloser(z, name, b)
    ensures |a| <= |b|
  {
    hide Shared;
    var i :| 0 <= i < |z.owners| && IsSuffix(a, z.owners[i]);
    SharedAtLeast(a, z.owners[i], name);
  }

  lemma {:induction false} SharedAtLeast(s: Name, a: Name, b: Name)
    requires IsSuffix(s, a) && IsSuffix(s, b)
    ensures Shared(a, b) >= |s|
    decreases |a|
  {
    hide SameLabel;
    if s != [] {
      assert SameLabel(a[|a| - |s| + (|s| - 1)], s[|s| - 1]) && SameLabel(b[|b| - |s| + (|s| - 1)], s[|s| - 1]);
      assert SameLabel(a[|a| - 1], b[|b| - 1]) by { SharedLabel(a[|a| - 1], b[|b| - 1], s[|s| - 1]); }
      var s', a', b' := s[..|s| - 1], a[..|a| - 1], b[..|b| - 1];
      assert IsSuffix(s', a') by {
        forall i | 0 <= i < |s'| ensures SameLabel(a'[|a'| - |s'| + i], s'[i]) {
          assert SameLabel(a[|a| - |s| + i], s[i]);
        }
      }
      assert IsSuffix(s', b') by {
        forall i | 0 <= i < |s'| ensures SameLabel(b'[|b'| - |s'| + i], s'[i]) {
          assert SameLabel(b[|b| - |s| + i], s[i]);
        }
      }
      SharedAtLeast(s', a', b');
    }
  }

  lemma SharedLabel(a: Label, b: Label, c: Label)
    requires SameLabel(a, c) && SameLabel(b, c)
    ensures SameLabel(a, b)
  {
  }

  /** A record proves the span of a name strictly: between its owner and its next name, or after the last owner. */
  ghost predicate Spans(r: Record, name: Name) {
    NameOrd(r.owner, name) < 0 && (NameOrd(name, r.next) < 0 || Same(r.next, r.signer))
  }

  /**
   A genuine proof of a name error is accepted: neither the name nor the wildcard at its closest
   encloser is an owner, the wildcard is a name that fits, and for each of them a record is listed
   that spans it.
  */
  lemma NameErrorAccepted(z: Zone, list: seq<Record>, qname: Name, qtype: int, ce: Name)
    requires FromZone(z, list) && TrueEncloser(z, qname, ce) && WireLen(ce) + 2 <= 255
    requires !Owns(z, qname) && exists k :: 0 <= k < |list| && Spans(list[k], qname)
    requires !Owns(z, Wildcard(ce)) && exists k :: 0 <= k < |list| && Spans(list[k], Wildcard(ce))
    ensures var v := Judge(list, qname, qtype, None); v.span.Some? && v.wcard.Some? && !v.notype
  {
    hide NameOrd, Shared, IsSuffix, Same, Closest, TrueEncloser, WireLen, SameLabel;
    var s :| 0 <= s < |list| && Spans(list[s], qname);
    var t :| 0 <= t < |list| && Spans(list[t], Wildcard(ce));
    SpansCovers(list[s], qname);
    SpansCovers(list[t], Wildcard(ce));
    EncloserIsTrue(z, list, qname, s);
    var found := Closest(list, qname).value;
    EncloserUnique(z, qname, ce, found);
    SameWireLen(ce, found);
    WildcardsSame(ce, found);
    NameOrdZero(Wildcard(ce), Wildcard(found));
    forall k | 0 <= k < |list|
      ensures NameOrd(qname, list[k].owner) != 0 && NameOrd(Wildcard(found), list[k].owner) != 0
      ensures Covers(list[k], Wildcard(ce)) == Covers(list[k], Wildcard(found))
    {
      NotOwned(z, list[k], qname);
      NotOwned(z, list[k], Wildcard(ce));
      Zero(Wildcard(ce), Wildcard(found), list[k].owner);
      Zero(Wildcard(ce), Wildcard(found), list[k].next);
    }
    hide Covers, Owns, InChain, ValidZone;
    assert FirstDenial(list, qname, qtype, 0).None?;
    assert LastCovering(list, qname).Some?;
    assert Covers(list[t], Wildcard(found));
    assert FirstWild(list, Wildcard(found), 0).Some?;
  }

  /** And so is one that a name is not there, when the answer was expanded from a wildcard at or above the hint. */
  lemma HintedAccepted(z: Zone, list: seq<Record>, qname: Name, qtype: int, ce: Name, hint: Name)
    requires FromZone(z, list) && TrueEncloser(z, qname, ce) && IsSuffix(ce, hint)
    requires !Owns(z, qname) && exists k :: 0 <= k < |list| && Spans(list[k], qname)
    ensures var v := Judge(list, qname, qtype, Some(hint)); v.span.Some? && !v.notype
  {
    hide NameOrd, Shared, IsSuffix, Same, Closest, TrueEncloser, WireLen, SameLabel;
    var s :| 0 <= s < |list| && Spans(list[s], qname);
    SpansCovers(list[s], qname);
    EncloserIsTrue(z, list, qname, s);
    var found := Closest(list, qname).value;
    EncloserUnique(z, qname, ce, found);
    SameIsAbove(found, ce, hint);
    forall k | 0 <= k < |list| ensures NameOrd(qname, list[k].owner) != 0 { NotOwned(z, list[k], qname); }
    hide Covers, Owns, InChain, ValidZone;
    assert FirstDenial(list, qname, qtype, 0).None?;
    assert LastCovering(list, qname).Some?;
  }

  lemma SameIsAbove(a: Name, b: Name, n: Name)
    requires Same(b, a) && IsSuffix(b, n)
    ensures IsSuffix(a, n)
  {
  }

  lemma SpansCovers(r: Record, name: Name)
    requires Spans(r, name)
    ensures Covers(r, name)
  {
    NameOrdAntisymmetric(r.owner, name);
    NameOrdZero(r.next, r.signer);
    hide NameOrd, Same;
  }

  lemma NotOwned(z: Zone, r: Record, name: Name)
    requires InChain(z, r) && !Owns(z, name)
    ensures NameOrd(name, r.owner) != 0
  {
    hide NameOrd, Shared;
    var i: nat :| IsLink(z, r, i);
    if NameOrd(name, r.owner) == 0 {
      Zero(name, r.owner, z.owners[i]);
    }
  }

  lemma WildcardsSame(a: Name, b: Name)
    requires Same(a, b)
    ensures Same(Wildcard(a), Wildcard(b))
  {
    forall i | 0 <= i < |a| + 1 ensures SameLabel(Wildcard(a)[i], Wildcard(b)[i]) {
      if i > 0 { assert SameLabel(a[i - 1], b[i - 1]); }
    }
  }

  /** A name without an owner at or below it is one whose encloser is a proper ancestor. */
  lemma EmptyNonTerminal(z: Zone, qname: Name, ce: Name)
    requires TrueEncloser(z, qname, ce)
    ensures |ce| < |qname| <==> forall i :: 0 <= i < |z.owners| ==> !IsSuffix(qname, z.owners[i])
  {
    hide Shared, SameLabel;
    assert qname[0..] == qname;
    forall i | 0 <= i < |z.owners| ensures IsSuffix(qname, z.owners[i]) ==> |qname| <= |ce| {
      SharedIsLongest(qname, z.owners[i], 0);
      SharedSymmetric(qname, z.owners[i]);
    }
    if |ce| >= |qname| {
      var i :| 0 <= i < |z.owners| && IsSuffix(ce, z.owners[i]);
      SameAsSuffix(ce, qname, z.owners[i]);
    }
  }

  lemma SameAsSuffix(ce: Name, q: Name, o: Name)
    requires IsSuffix(ce, q) && |ce| >= |q| && IsSuffix(ce, o)
    ensures IsSuffix(q, o)
  {
    forall i | 0 <= i < |q| ensures SameLabel(o[|o| - |q| + i], q[i]) {
      assert SameLabel(q[|q| - |ce| + i], ce[i]) && SameLabel(o[|o| - |ce| + i], ce[i]);
    }
  }

  /**
   Without that condition the verdict can be wrong.  Zone "e" owns e and a.e; given both of
   its records, the second one listing the queried type, the prover reports a name error
   for a.e although a.e exists.
  */
  lemma NameErrorFailsAtNextName() returns (z: Zone, list: seq<Record>, qname: Name, qtype: int)
    ensures FromZone(z, list) && Owns(z, qname) && ReportsNameError(list, qname, qtype)
  {
    hide *;
    var e: Name, ae: Name := [[101]], [[97], [101]];
    var r0, r1 := Record(e, ae, e, {}, false), Record(ae, e, e, {1}, false);
    z, list, qname, qtype := Zone(e, [e, ae], [{}, {1}]), [r0, r1], ae, 1;
    SmallZone(z, r0, r1);
    SmallVerdict(list, r0, r1);
  }

  lemma SmallZone(z: Zone, r0: Record, r1: Record)
    requires z == Zone([[101]], [[[101]], [[97], [101]]], [{}, {1}])
    requires r0 == Record([[101]], [[97], [101]], [[101]], {}, false)
    requires r1 == Record([[97], [101]], [[101]], [[101]], {1}, false)
    ensures FromZone(z, [r0, r1]) && Owns(z, [[97], [101]])
  {
    var e: Name, ae: Name := [[101]], [[97], [101]];
    SmallOrders();
    SmallSuffixes();
    hide NameOrd, IsSuffix;
    assert z.owners[0] == e && z.owners[1] == ae;
    SmallLinks(z, r0, r1);
    hide IsLink;
    assert ValidZone(z);
    assert NameOrd(ae, z.owners[1]) == 0;
  }

  lemma SmallSuffixes()
    ensures IsSuffix([[101]], [[101]]) && IsSuffix([[101]], [[97], [101]])
  {
  }

  lemma SmallLinks(z: Zone, r0: Record, r1: Record)
    requires z == Zone([[101]], [[[101]], [[97], [101]]], [{}, {1}])
    requires r0 == Record([[101]], [[97], [101]], [[101]], {}, false)
    requires r1 == Record([[97], [101]], [[101]], [[101]], {1}, false)
    ensures IsLink(z, r0, 0) && IsLink(z, r1, 1)
  {
    SmallOrders();
    hide NameOrd;
  }

  lemma SmallOrders()
    ensures var e: Name, ae: Name, w: Name := [[101]], [[97], [101]], [[0x2a], [97], [101]];
            && NameOrd(e, e) == 0 && NameOrd(ae, ae) == 0
            && NameOrd(e, ae) == -1 && NameOrd(ae, e) == 1
            && NameOrd(w, e) == 1 && NameOrd(w, ae) == 1
  {
    var e: Name, ae: Name, w: Name := [[101]], [[97], [101]], [[0x2a], [97], [101]];
    NameOrdZero(e, e);
    NameOrdZero(ae, ae);
    AncestorSortsFirst(e, ae);
    AncestorSortsFirst(e, w);
    AncestorSortsFirst(ae, w);
    NameOrdAntisymmetric(e, ae);
    NameOrdAntisymmetric(e, w);
    NameOrdAntisymmetric(ae, w);
  }

  lemma SmallVerdict(list: seq<Record>, r0: Record, r1: Record)
    requires r0 == Record([[101]], [[97], [101]], [[101]], {}, false)
    requires r1 == Record([[97], [101]], [[101]], [[101]], {1}, false)
    requires list == [r0, r1]
    ensures ReportsNameError(list, [[97], [101]], 1)
  {
    var e: Name, ae: Name, w: Name := [[101]], [[97], [101]], [[0x2a], [97], [101]];
    SmallOrders();
    SmallEncloser(r0);
    hide NameOrd, RecordEncloser;
    assert list[..1] == [r0] && list[..1][..0] == [];
    assert Closest([r0], ae) == Some(ae);
    assert Closest(list, ae) == Some(ae);
    assert LastCovering([r0], ae) == Some(0);
    assert LastCovering(list, ae) == Some(0);
    assert FirstDenial(list, ae, 1, 2) == None && FirstDenial(list, ae, 1, 1) == None;
    assert Wildcard(ae) == w;
    assert WireLen(ae[1..][1..]) == 1 && WireLen(ae[1..]) == 3 && WireLen(ae) == 5;
    assert FirstWild(list, w, 1) == Some(1);
  }

  lemma SmallEncloser(r0: Record)
    requires r0 == Record([[101]], [[97], [101]], [[101]], {}, false)
    ensures RecordEncloser(r0, [[97], [101]]) == [[97], [101]]
  {
    var e: Name, ae: Name := [[101]], [[97], [101]];
    assert ae[0..] == ae && e[0..] == e;
    SharedIsLongest(ae, ae, 0);
    SharedIsLongest(e, ae, 0);
    assert CommonAncestor(ae, ae) == ae;
    assert IsSuffix(e, ae);
    assert CommonAncestor(e, ae) == e;
    assert WireLen(ae[1..][1..]) == 1 && WireLen(ae[1..]) == 3 && WireLen(ae) == 5;
    assert WireLen(e[1..]) == 1 && WireLen(e) == 3;
  }

  /** A type from 256 on that the zone has at the query name, and that the prover denies. */
  lemma HighTypeDenied() returns (z: Zone, list: seq<Record>, qname: Name)
    ensures FromZone(z, list) && z.owners == [qname] && z.types == [{257}]
    ensures Judge(list, qname, 257, None) == Verdict(Some(0), Some(0), true)
  {
    var e: Name := [[101]];
    z, qname := Zone(e, [e], [{257}]), e;
    list := [Record(e, e, e, {}, false)];
    NameOrdZero(e, e);
    assert IsSuffix(e, e);
    hide NameOrd, IsSuffix;
    assert Reported({257}) == {};
    assert IsLink(z, list[0], 0);
    assert FirstDenial(list, qname, 257, 0) == Some(0);
  }

  /**
   A zone e with a wildcard that has the type asked for: the prover denies the type for a.e, which
   the wildcard would answer.
  */
  lemma WildcardTypeIgnored() returns (z: Zone, list: seq<Record>, qname: Name, qtype: int)
    ensures FromZone(z, list) && z.owners == [[[101]], Wildcard([[101]])] && z.types == [{}, {qtype}]
    ensures qname == [[97], [101]] && !Owns(z, qname) && TrueEncloser(z, qname, [[101]])
    ensures Judge(list, qname, qtype, None) == Verdict(Some(0), Some(0), true)
  {
    var e: Name, w: Name := [[101]], [[42], [101]];
    qtype, qname := 1, [[97], [101]];
    var r := Record(w, e, e, {1}, false);
    z, list := Zone(e, [e, w], [{}, {1}]), [r];
    assert Wildcard(e) == w;
    WildOrders();
    WildSuffixes();
    WildEncloser(r);
    WildLength();
    hide *;
    WildZone(z, r, e, w, qname);
    WildVerdict(r, e, w, qname);
  }

  lemma WildZone(z: Zone, r: Record, e: Name, w: Name, a: Name)
    requires z == Zone(e, [e, w], [{}, {1}]) && r == Record(w, e, e, {1}, false)
    requires NameOrd(e, e) == 0 && NameOrd(w, w) == 0 && NameOrd(e, w) < 0 && NameOrd(a, w) > 0 && NameOrd(a, e) > 0
    requires IsSuffix(e, e) && IsSuffix(e, w) && IsSuffix(e, a) && Shared(e, a) == 1 == Shared(w, a) == |e|
    ensures FromZone(z, [r]) && !Owns(z, a) && TrueEncloser(z, a, e)
  {
    hide NameOrd, IsSuffix, Shared;
    assert IsLink(z, r, 1) by { assert Reported({1}) == {1}; }
    hide IsLink, Reported;
    assert InChain(z, r) && [r][0] == r;
    assert z.owners[0] == e && z.owners[1] == w;
  }

  lemma WildVerdict(r: Record, e: Name, w: Name, a: Name)
    requires r == Record(w, e, e, {1}, false) && Wildcard(e) == w && WireLen(e) == 3
    requires NameOrd(e, e) == 0 && NameOrd(w, w) == 0 && NameOrd(e, w) < 0 && NameOrd(a, w) > 0 && NameOrd(a, e) > 0
    requires RecordEncloser(r, a) == e
    ensures Judge([r], a, 1, None) == Verdict(Some(0), Some(0), true)
  {
    var list := [r];
    hide NameOrd, RecordEncloser, WireLen;
    assert list[..0] == [];
    assert Closest(list, a) == Some(e);
    assert LastCovering(list, a) == Some(0);
    assert FirstDenial(list, a, 1, 1) == None;
    assert FirstDenial(list, a, 1, 0) == None;
    assert FirstWild(list, w, 0) == Some(0);
  }

  lemma WildLength()
    ensures WireLen([[101]]) == 3
  {
    var e: Name := [[101]];
    assert WireLen(e[1..]) == 1;
  }

  lemma WildOrders()
    ensures var e: Name, w: Name, a: Name := [[101]], [[42], [101]], [[97], [101]];
            NameOrd(e, e) == 0 && NameOrd(w, w) == 0 && NameOrd(e, w) < 0 && NameOrd(a, w) > 0 && NameOrd(a, e) > 0
  {
    var e: Name, w: Name, a: Name := [[101]], [[42], [101]], [[97], [101]];
    NameOrdZero(e, e);
    NameOrdZero(w, w);
    AncestorSortsFirst(e, w);
    AncestorSortsFirst(e, a);
    NameOrdAntisymmetric(e, a);
    assert FoldLabel([97]) == [97] && FoldLabel([42]) == [42] && FoldLabel([101]) == [101];
    assert a[..1] == [[97]] && w[..1] == [[42]];
    assert LabelOrd([97], [42]) > 0 && LabelOrd([101], [101]) == 0;
    assert NameOrd([[97]], [[42]]) > 0;
  }

  lemma WildSuffixes()
    ensures IsSuffix([[101]], [[101]]) && IsSuffix([[101]], [[42], [101]]) && IsSuffix([[101]], [[97], [101]])
    ensures var e: Name, w: Name, a: Name := [[101]], [[42], [101]], [[97], [101]];
            Shared(e, a) == 1 && Shared(w, a) == 1
  {
    var e: Name, w: Name, a: Name := [[101]], [[42], [101]], [[97], [101]];
    assert FoldLabel([97]) == [97] && FoldLabel([42]) == [42];
    assert a[..1] == [[97]] && w[..1] == [[42]] && e[..0] == [];
    assert Shared([[42]], [[97]]) == 0;
  }

  lemma WildEncloser(r: Record)
    requires r.owner == [[42], [101]] && r.next == [[101]]
    ensures RecordEncloser(r, [[97], [101]]) == [[101]]
  {
    var e: Name, w: Name := [[101]], [[42], [101]];
    WildSuffixes();
    assert w[1..] == e && e[0..] == e;
  }
}
