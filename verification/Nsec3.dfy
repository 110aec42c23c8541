/**
 The NSEC3 closest-encloser prover (prove_nsec3_span and CHECK_RANGE in
 libval/val_assertion.c) and its soundness against a whole zone: sections 8.3 and 8.4
 of RFC 5155.  The hash is an arbitrary function that may fail.
*/
module Nsec3 {
  import opened Names
  import opened CanonOrder
  import opened Denial

  datatype Params = Params(alg: int, iterations: nat, salt: seq<Byte>)

  /** The owner and next hashes in base 32, and the parsed RDATA; no types when the bitmap is empty. */
  datatype Record = Record(owner: Label, next: Label, signer: Name, params: Params, optOut: bool,
                           types: Option<set<int>>)

  /** compute_nsec3_hash: from a name, the signer and the parameters to the hash, or a failure. */
  type HashFn = (Name, Name, Params) -> Option<Label>

  datatype Verdict = Verdict(ncn: Option<nat>, cpe: Option<nat>, wcp: Option<nat>, notype: bool, optout: bool)

  datatype Scan = Failed | Missing | Found(at: nat, matched: bool)

  // ----- the range test -----

  /** CHECK_RANGE, comparison by comparison. */
  predicate CheckRange(range1: Label, range2: Label, hash: Label) {
    && LabelOrd(range2, hash) != 0
    && if LabelOrd(range2, range1) > 0 then LabelOrd(hash, range1) > 0 && LabelOrd(hash, range2) < 0
       else LabelOrd(hash, range2) < 0 || LabelOrd(hash, range1) > 0
  }

  ghost predicate Sorted(ring: seq<Label>) {
    forall i, j :: 0 <= i < j < |ring| ==> LabelOrd(ring[i], ring[j]) < 0
  }

  function NextIndex(n: nat, i: nat): nat
    requires i < n
  {
    if i + 1 == n then 0 else i + 1
  }

  predicate InArc(ring: seq<Label>, i: nat, hash: Label)
    requires i < |ring|
  {
    CheckRange(ring[i], ring[NextIndex(|ring|, i)], hash)
  }

  predicate OnRing(ring: seq<Label>, hash: Label) {
    exists i :: 0 <= i < |ring| && LabelOrd(ring[i], hash) == 0
  }

  lemma LabelOrdFacts(a: Label, b: Label, c: Label)
    ensures LabelOrd(a, b) == -LabelOrd(b, a)
    ensures LabelOrd(a, b) <= 0 && LabelOrd(b, c) <= 0 ==> LabelOrd(a, c) <= 0
    ensures LabelOrd(a, b) <= 0 && LabelOrd(b, c) <= 0 && (LabelOrd(a, b) < 0 || LabelOrd(b, c) < 0) ==>
              LabelOrd(a, c) < 0
  {
    var x, y, z := FoldLabel(a), FoldLabel(b), FoldLabel(c);
    hide OctetsOrd, FoldLabel;
    OctetsAntisymmetric(x, y);
    if OctetsOrd(x, y) <= 0 && OctetsOrd(y, z) <= 0 { OctetsTransitive(x, y, z); }
  }

  lemma LabelOrdEqual(a: Label, b: Label, c: Label)
    requires LabelOrd(a, b) == 0
    ensures LabelOrd(a, c) == LabelOrd(b, c) && LabelOrd(c, a) == LabelOrd(c, b)
  {
    assert FoldLabel(a) == FoldLabel(b);
  }

  /** A hash in an arc is past every ring hash up to the arc's start or before all of them, and so on. */
  lemma ArcSide(ring: seq<Label>, i: nat, hash: Label, j: nat)
    requires Sorted(ring) && i < |ring| && j < |ring| && InArc(ring, i, hash)
    ensures LabelOrd(ring[j], hash) != 0
    ensures i + 1 < |ring| ==> (LabelOrd(ring[j], hash) < 0 <==> j <= i)
    ensures i + 1 == |ring| ==> (LabelOrd(ring[j], hash) < 0 <==> LabelOrd(ring[i], hash) < 0)
  {
    hide LabelOrd;
    var nx := NextIndex(|ring|, i);
    LabelOrdFacts(ring[i], hash, ring[j]);
    LabelOrdFacts(hash, ring[nx], ring[j]);
    LabelOrdFacts(ring[j], ring[i], hash);
    LabelOrdFacts(hash, ring[nx], ring[j]);
    LabelOrdFacts(hash, ring[j], hash);
    LabelOrdFacts(ring[j], hash, ring[i]);
    LabelOrdFacts(ring[i], ring[nx], hash);
    LabelOrdFacts(ring[nx], ring[i], hash);
    LabelOrdFacts(ring[nx], ring[j], hash);
    LabelOrdFacts(ring[j], ring[j], hash);
  }

  /** The arcs of a ring partition what is not on the ring, the one-record ring included. */
  lemma ArcsPartition(ring: seq<Label>, hash: Label)
    requires Sorted(ring) && ring != []
    ensures OnRing(ring, hash) ==> forall i :: 0 <= i < |ring| ==> !InArc(ring, i, hash)
    ensures !OnRing(ring, hash) ==> exists i :: 0 <= i < |ring| && InArc(ring, i, hash)
    ensures forall i, j :: 0 <= i < |ring| && 0 <= j < |ring| && InArc(ring, i, hash) && InArc(ring, j, hash) ==> i == j
  {
    hide LabelOrd, InArc;
    forall i, j | 0 <= i < |ring| && 0 <= j < |ring| && InArc(ring, i, hash) && InArc(ring, j, hash)
      ensures i == j
    {
      ArcSide(ring, i, hash, j);
      ArcSide(ring, j, hash, i);
      ArcSide(ring, i, hash, 0);
      ArcSide(ring, j, hash, 0);
      ArcSide(ring, i, hash, |ring| - 1);
      ArcSide(ring, j, hash, |ring| - 1);
      ArcSide(ring, i, hash, NextIndex(|ring|, j));
      ArcSide(ring, j, hash, NextIndex(|ring|, i));
      ArcSide(ring, i, hash, i);
      ArcSide(ring, j, hash, j);
    }
    forall i | 0 <= i < |ring| && OnRing(ring, hash) ensures !InArc(ring, i, hash) {
      var j :| 0 <= j < |ring| && LabelOrd(ring[j], hash) == 0;
      if InArc(ring, i, hash) { ArcSide(ring, i, hash, j); }
    }
    if !OnRing(ring, hash) {
      var i := ArcOf(ring, hash);
    }
  }

  lemma ArcOf(ring: seq<Label>, hash: Label) returns (i: nat)
    requires Sorted(ring) && ring != [] && !OnRing(ring, hash)
    ensures i < |ring| && InArc(ring, i, hash)
  {
    hide LabelOrd;
    var m := |ring| - 1;
    LabelOrdFacts(ring[0], ring[m], hash);
    LabelOrdFacts(ring[m], ring[0], hash);
    LabelOrdFacts(ring[0], hash, ring[0]);
    LabelOrdFacts(ring[m], hash, ring[0]);
    if LabelOrd(hash, ring[0]) < 0 || LabelOrd(hash, ring[m]) > 0 {
      return m;
    }
    i := 0;
    while LabelOrd(ring[i + 1], hash) < 0
      invariant i < m && LabelOrd(ring[i], hash) < 0
      decreases m - i
    {
      LabelOrdFacts(ring[i + 1], hash, ring[m]);
      LabelOrdFacts(ring[m], hash, ring[m]);
      i := i + 1;
    }
    LabelOrdFacts(ring[i], ring[i + 1], hash);
    LabelOrdFacts(ring[i], hash, hash);
    LabelOrdFacts(ring[i + 1], hash, hash);
  }

  // ----- the specification of the prover -----

  predicate Matches(h: HashFn, r: Record, name: Name) {
    var hash := h(name, r.signer, r.params);
    hash.Some? && LabelOrd(r.owner, hash.value) == 0
  }

  predicate BitmapDenies(r: Record, qtype: int) {
    r.types.Some? ==> TypesDeny(r.types.value, qtype)
  }

  /** The first record from 'k' on that matches; one that matches the query name must deny the type. */
  function FirstMatch(h: HashFn, list: seq<Record>, name: Name, exact: bool, qtype: int, k: nat): (i: Option<nat>)
    requires k <= |list|
    ensures i.Some? ==> k <= i.value < |list| && Matches(h, list[i.value], name)
    decreases |list| - k
  {
    if k == |list| then None
    else if Matches(h, list[k], name) && (exact ==> BitmapDenies(list[k], qtype)) then Some(k)
    else FirstMatch(h, list, name, exact, qtype, k + 1)
  }

  datatype Hit = Hit(depth: nat, at: nat)

  /** The first ancestor of the query name, itself first, that some record matches. */
  function FindEncloser(h: HashFn, list: seq<Record>, qname: Name, qtype: int, k: nat): (r: Option<Hit>)
    requires k <= |qname| && list != []
    ensures r.Some? ==> k <= r.value.depth <= |qname| && r.value.at < |list|
    ensures r.Some? ==> Matches(h, list[r.value.at], qname[r.value.depth..])
    ensures r.Some? && r.value.depth > k ==> NameOrd(qname[r.value.depth..], list[|list| - 1].signer) >= 0
    decreases |qname| - k
  {
    var m := FirstMatch(h, list, qname[k..], k == 0, qtype, 0);
    if m.Some? then Some(Hit(k, m.value))
    else if k == |qname| || NameOrd(qname[k + 1..], list[|list| - 1].signer) < 0 then None
    else FindEncloser(h, list, qname, qtype, k + 1)
  }

  predicate CoversHash(h: HashFn, r: Record, name: Name) {
    var hash := h(name, r.signer, r.params);
    hash.Some? && CheckRange(r.owner, r.next, hash.value)
  }

  /** The first record from 'k' on whose range holds the hash of the name, or that matches it when 'orMatch'. */
  function FirstCover(h: HashFn, list: seq<Record>, name: Name, orMatch: bool, k: nat): (s: Scan)
    requires k <= |list|
    ensures s.Found? ==> k <= s.at < |list|
    ensures s.Found? && s.matched ==> orMatch && Matches(h, list[s.at], name)
    ensures s.Found? && !s.matched ==> CoversHash(h, list[s.at], name)
    decreases |list| - k
  {
    if k == |list| then Missing
    else if h(name, list[k].signer, list[k].params).None? then Failed
    else if orMatch && Matches(h, list[k], name) then Found(k, true)
    else if CoversHash(h, list[k], name) then Found(k, false)
    else FirstCover(h, list, name, orMatch, k + 1)
  }

  /** What follows once the closest encloser 'cp' and the next closer name are known. */
  function JudgeBelow(h: HashFn, list: seq<Record>, cpe: Option<nat>, cp: Name, nextCloser: Name,
                       hinted: bool): Verdict {
    var n := FirstCover(h, list, nextCloser, false, 0);
    if n.Failed? then Verdict(None, cpe, None, false, false) else
      var ncn := if n.Found? then Some(n.at) else None;
      var optout := n.Found? && list[n.at].optOut;
      if hinted then Verdict(ncn, cpe, ncn, false, optout)
      else if MAXCDNAME < WireLen(cp) + 2 then Verdict(ncn, cpe, None, false, optout)
      else
        var w := FirstCover(h, list, Wildcard(cp), true, 0);
        if w.Found? then Verdict(ncn, cpe, Some(w.at), w.matched, optout)
        else Verdict(ncn, cpe, None, false, optout)
  }

  predicate ProperAncestor(s: Name, n: Name) {
    IsSuffix(s, n) && |s| < |n|
  }

  const NOTHING := Verdict(None, None, None, false, false)

  function Judge(h: HashFn, list: seq<Record>, qname: Name, qtype: int, hint: Option<Name>): Verdict
    requires hint.Some? ==> ProperAncestor(hint.value, qname)
  {
    if list == [] then NOTHING
    else if hint.Some? then
      JudgeBelow(h, list, None, hint.value, qname[|qname| - |hint.value| - 1..], true)
    else
      var hit := FindEncloser(h, list, qname, qtype, 0);
      if hit.None? then NOTHING
      else if hit.value.depth == 0 then
        Verdict(Some(hit.value.at), Some(hit.value.at), Some(hit.value.at), true, false)
      else
        var d := hit.value.depth;
        JudgeBelow(h, list, Some(hit.value.at), qname[d..], qname[d - 1..], false)
  }

  // ----- the prover -----

  /** One pass over the list for one candidate encloser. */
  method MatchPass(h: HashFn, list: seq<Record>, cp: Name, exact: bool, qtype: int) returns (i: Option<nat>)
    ensures i == FirstMatch(h, list, cp, exact, qtype, 0)
  {
    hide LabelOrd;
    var n := 0;
    while n < |list|
      invariant 0 <= n <= |list|
      invariant FirstMatch(h, list, cp, exact, qtype, 0) == FirstMatch(h, list, cp, exact, qtype, n)
    {
      var r := list[n];
      var hash := h(cp, r.signer, r.params);
      if hash.None? { n := n + 1; continue; }
      if LabelOrd(r.owner, hash.value) == 0 {
        if exact && r.types.Some? {
          if qtype == TYPE_DS && TYPE_NS !in r.types.value { n := n + 1; continue; }
          if qtype == TYPE_DS && TYPE_SOA in r.types.value { n := n + 1; continue; }
          if qtype in r.types.value { n := n + 1; continue; }
          else if TYPE_CNAME in r.types.value { n := n + 1; continue; }
          else if TYPE_DNAME in r.types.value { n := n + 1; continue; }
        }
        return Some(n);
      }
      n := n + 1;
    }
    return None;
  }

  /** The pass over the list for the next closer name or, with 'orMatch', for the wildcard. */
  method CoverPass(h: HashFn, list: seq<Record>, name: Name, orMatch: bool) returns (s: Scan)
    ensures s == FirstCover(h, list, name, orMatch, 0)
  {
    hide LabelOrd, CheckRange;
    var n := 0;
    while n < |list|
      invariant 0 <= n <= |list|
      invariant FirstCover(h, list, name, orMatch, 0) == FirstCover(h, list, name, orMatch, n)
    {
      var r := list[n];
      var hash := h(name, r.signer, r.params);
      if hash.None? {
        return Failed;
      }
      if orMatch && LabelOrd(r.owner, hash.value) == 0 {
        return Found(n, true);
      } else if CheckRange(r.owner, r.next, hash.value) {
        return Found(n, false);
      }
      n := n + 1;
    }
    return Missing;
  }

  /** The ancestor-or-self of 'qname' one label longer than 'cp'. */
  method NextCloserName(qname: Name, cp: Name) returns (s: Name)
    requires ProperAncestor(cp, qname)
    ensures s == qname[|qname| - |cp| - 1..]
  {
    hide NameOrd, SameLabel;
    s := qname;
    ghost var k := 0;
    while s != []
      invariant 0 <= k < |qname| - |cp| && s == qname[k..]
    {
      var nxt := s[1..];
      NameOrdZero(nxt, cp);
      assert nxt == qname[k + 1..];
      if NameOrd(nxt, cp) == 0 {
        return s;
      }
      SuffixIsSame(cp, qname);
      s := nxt;
      k := k + 1;
    }
  }

  // ----- when the search for the encloser ends -----

  /** The variables of that search: the candidate encloser and the signer it was last compared with. */
  datatype Search = Search(cp: Name, soa: Name)

  /** One round of the search; none when its guard fails or a record matches.  The root is never stripped. */
  function NextRound(h: HashFn, list: seq<Record>, qname: Name, qtype: int, s: Search): Option<Search>
    requires list != []
  {
    if NameOrd(s.cp, s.soa) < 0 || FirstMatch(h, list, s.cp, |s.cp| == |qname|, qtype, 0).Some? then None
    else Some(Search(if s.cp == [] then [] else s.cp[1..], list[|list| - 1].signer))
  }

  /** The variables after 'n' rounds, if there are as many. */
  function AfterRounds(h: HashFn, list: seq<Record>, qname: Name, qtype: int, n: nat): Option<Search>
    requires list != []
  {
    if n == 0 then Some(Search(qname, qname)) else
      var s := AfterRounds(h, list, qname, qtype, n - 1);
      if s.None? then None else NextRound(h, list, qname, qtype, s.value)
  }

  /** Some record matches the name without its first 'k' labels, and at the query name denies the type. */
  predicate MatchedAt(h: HashFn, list: seq<Record>, qname: Name, qtype: int, k: nat)
    requires k <= |qname|
  {
    exists i :: 0 <= i < |list| && Matches(h, list[i], qname[k..]) && (k == 0 ==> BitmapDenies(list[i], qtype))
  }

  /** The last signer is not the root, or some record matches some ancestor. */
  predicate SearchEnds(h: HashFn, list: seq<Record>, qname: Name, qtype: int)
    requires list != []
  {
    list[|list| - 1].signer != [] || exists k: nat :: k <= |qname| && MatchedAt(h, list, qname, qtype, k)
  }

  lemma {:induction false} FirstMatchExact(h: HashFn, list: seq<Record>, name: Name, exact: bool, qtype: int, k: nat)
    requires k <= |list|
    ensures FirstMatch(h, list, name, exact, qtype, k).Some? <==>
              exists i :: k <= i < |list| && Matches(h, list[i], name) && (exact ==> BitmapDenies(list[i], qtype))
    decreases |list| - k
  {
    hide Matches, BitmapDenies;
    if k < |list| { FirstMatchExact(h, list, name, exact, qtype, k + 1); }
  }

  /** With a root signer last, the search finds an encloser exactly when some ancestor is matched. */
  lemma {:induction false} EncloserExact(h: HashFn, list: seq<Record>, qname: Name, qtype: int, k: nat)
    requires list != [] && list[|list| - 1].signer == [] && k <= |qname|
    ensures FindEncloser(h, list, qname, qtype, k).Some? <==>
              exists j: nat :: k <= j <= |qname| && MatchedAt(h, list, qname, qtype, j)
    decreases |qname| - k
  {
    FirstMatchExact(h, list, qname[k..], k == 0, qtype, 0);
    assert MatchedAt(h, list, qname, qtype, k) <==> FirstMatch(h, list, qname[k..], k == 0, qtype, 0).Some?;
    hide NameOrd, FirstMatch, MatchedAt;
    if k < |qname| {
      NothingBeforeRoot(qname[k + 1..]);
      EncloserExact(h, list, qname, qtype, k + 1);
    }
  }

  /** The condition in terms of what the search finds. */
  lemma SearchEndsIs(h: HashFn, list: seq<Record>, qname: Name, qtype: int)
    requires list != []
    ensures SearchEnds(h, list, qname, qtype) <==>
              list[|list| - 1].signer != [] || FindEncloser(h, list, qname, qtype, 0).Some?
  {
    hide FindEncloser, MatchedAt;
    if list[|list| - 1].signer == [] { EncloserExact(h, list, qname, qtype, 0); }
  }

  /** While it goes on, the search strips one label a round, down to the root. */
  lemma {:induction false} RoundsStrip(h: HashFn, list: seq<Record>, qname: Name, qtype: int, n: nat)
    requires list != [] && AfterRounds(h, list, qname, qtype, n).Some?
    ensures var s := AfterRounds(h, list, qname, qtype, n).value;
            && s.cp == qname[if n <= |qname| then n else |qname|..]
            && s.soa == if n == 0 then qname else list[|list| - 1].signer
  {
    hide NameOrd, FirstMatch;
    if n == 0 {
      assert qname[0..] == qname;
    } else {
      RoundsStrip(h, list, qname, qtype, n - 1);
    }
  }

  /** A round that leads to another has passed the guard and found no match. */
  lemma RoundMisses(h: HashFn, list: seq<Record>, qname: Name, qtype: int, k: nat)
    requires list != [] && k <= |qname| && AfterRounds(h, list, qname, qtype, k + 1).Some?
    ensures AfterRounds(h, list, qname, qtype, k).Some?
    ensures FirstMatch(h, list, qname[k..], k == 0, qtype, 0).None?
    ensures k > 0 ==> NameOrd(qname[k..], list[|list| - 1].signer) >= 0
  {
    hide NameOrd, FirstMatch;
    assert AfterRounds(h, list, qname, qtype, k).Some?;
    RoundsStrip(h, list, qname, qtype, k);
    assert |qname[k..]| == |qname| <==> k == 0;
  }

  /** Where the search stands after 'k' rounds, it finds what FindEncloser finds from there. */
  lemma {:induction false} RoundsFind(h: HashFn, list: seq<Record>, qname: Name, qtype: int, k: nat)
    requires list != [] && k <= |qname| && AfterRounds(h, list, qname, qtype, k).Some?
    requires k > 0 ==> NameOrd(qname[k..], list[|list| - 1].signer) >= 0
    ensures FindEncloser(h, list, qname, qtype, k) == FindEncloser(h, list, qname, qtype, 0)
    decreases k
  {
    hide NameOrd, FirstMatch, AfterRounds;
    if k > 0 {
      RoundMisses(h, list, qname, qtype, k - 1);
      RoundsFind(h, list, qname, qtype, k - 1);
    }
  }

  /** With a root signer last and no match, every round leads to another. */
  lemma {:induction false} SearchGoesOn(h: HashFn, list: seq<Record>, qname: Name, qtype: int, n: nat)
    requires list != [] && !SearchEnds(h, list, qname, qtype)
    ensures AfterRounds(h, list, qname, qtype, n).Some?
    ensures n > |qname| ==> AfterRounds(h, list, qname, qtype, n) == Some(Search([], []))
  {
    SearchEndsIs(h, list, qname, qtype);
    hide SearchEnds;
    if n > 0 {
      SearchGoesOn(h, list, qname, qtype, n - 1);
      RoundsStrip(h, list, qname, qtype, n - 1);
      var k := if n - 1 <= |qname| then n - 1 else |qname|;
      NothingBeforeRoot(qname[k..]);
      OrdSelf(qname);
      NoMatchAt(h, list, qname, qtype, k);
      hide NameOrd, FirstMatch, FindEncloser;
      assert qname[k..] != [] ==> qname[k..][1..] == qname[k + 1..];
      assert |qname[k..]| == |qname| <==> k == 0;
      assert qname[0..] == qname;
    }
  }

  lemma NothingBeforeRoot(n: Name)
    ensures NameOrd(n, []) >= 0
  {
  }

  /** If no ancestor is matched and the signer is the root, none is matched from any label on. */
  lemma {:induction false} NoMatchAt(h: HashFn, list: seq<Record>, qname: Name, qtype: int, k: nat)
    requires list != [] && k <= |qname| && list[|list| - 1].signer == []
    requires FindEncloser(h, list, qname, qtype, 0).None?
    ensures FindEncloser(h, list, qname, qtype, k).None? && FirstMatch(h, list, qname[k..], k == 0, qtype, 0).None?
    decreases k
  {
    if k > 0 {
      NoMatchAt(h, list, qname, qtype, k - 1);
      NothingBeforeRoot(qname[k..]);
    }
  }

  /** The search of the prover ends if and only if the last signer is not the root or some ancestor is matched. */
  lemma SearchEndsExactly(h: HashFn, list: seq<Record>, qname: Name, qtype: int)
    requires list != []
    ensures SearchEnds(h, list, qname, qtype) <==> exists n: nat :: AfterRounds(h, list, qname, qtype, n).None?
  {
    hide NameOrd, FirstMatch, FindEncloser, AfterRounds, SearchEnds;
    if !SearchEnds(h, list, qname, qtype) {
      forall n: nat ensures AfterRounds(h, list, qname, qtype, n).Some? {
        SearchGoesOn(h, list, qname, qtype, n);
      }
    } else {
      LastRound(h, list, qname, qtype);
    }
  }

  lemma LastRound(h: HashFn, list: seq<Record>, qname: Name, qtype: int)
    requires list != [] && SearchEnds(h, list, qname, qtype)
    ensures AfterRounds(h, list, qname, qtype, |qname| + 2).None?
  {
    var m := |qname|;
    SearchEndsIs(h, list, qname, qtype);
    hide SearchEnds;
    if AfterRounds(h, list, qname, qtype, m + 2).Some? {
      assert AfterRounds(h, list, qname, qtype, m + 1).Some? && AfterRounds(h, list, qname, qtype, m).Some?;
      RoundsStrip(h, list, qname, qtype, m + 1);
      RoundsStrip(h, list, qname, qtype, m);
      var soa := list[|list| - 1].signer;
      if soa != [] {
        RootFirst(soa);
      } else {
        NothingBeforeRoot(qname[m..]);
        assert qname[m..] == [];
        RoundsFind(h, list, qname, qtype, m);
      }
    }
  }

  /** An input on which it does not: a record of the root zone, and a hash that fails. */
  lemma SearchWithoutEnd(qname: Name, qtype: int, r: Record, n: nat)
    requires r.signer == []
    ensures AfterRounds((x: Name, s: Name, p: Params) => None, [r], qname, qtype, n + |qname| + 1)
              == Some(Search([], []))
  {
    var h: HashFn := (x: Name, s: Name, p: Params) => None;
    NothingMatches(h, r, qname, qtype, 0);
    SearchEndsIs(h, [r], qname, qtype);
    hide SearchEnds;
    SearchGoesOn(h, [r], qname, qtype, n + |qname| + 1);
  }

  lemma {:induction false} NothingMatches(h: HashFn, r: Record, qname: Name, qtype: int, k: nat)
    requires k <= |qname| && forall x: Name, s: Name, p: Params :: h(x, s, p).None?
    ensures FindEncloser(h, [r], qname, qtype, k).None?
    decreases |qname| - k
  {
    hide NameOrd;
    assert FirstMatch(h, [r], qname[k..], k == 0, qtype, 1).None?;
    if k < |qname| { NothingMatches(h, r, qname, qtype, k + 1); }
  }

  method ProveNsec3Span(h: HashFn, list: seq<Record>, qname: Name, qtype: int, hint: Option<Name>) returns (v: Verdict)
    requires hint.Some? || list == [] || SearchEnds(h, list, qname, qtype)
    requires hint.Some? ==> ProperAncestor(hint.value, qname)
    ensures v == Judge(h, list, qname, qtype, hint)
  {
    hide NameOrd, FirstMatch, FirstCover, WireLen, Matches, IsSuffix, SearchEnds;
    if list == [] {
      return NOTHING;
    }
    var cp, cpe: Option<nat> := qname, None;
    SearchEndsIs(h, list, qname, qtype);
    if hint.Some? {
      cp := hint.value;
    } else {
      var soa := cp;
      ghost var k := 0;
      OrdSelf(cp);
      while NameOrd(cp, soa) >= 0
        invariant 0 <= k <= |qname| && cp == qname[k..] && cpe.None?
        invariant FindEncloser(h, list, qname, qtype, 0) ==
                    if k > 0 && NameOrd(cp, soa) < 0 then None else FindEncloser(h, list, qname, qtype, k)
        invariant k == 0 ==> NameOrd(cp, soa) >= 0
        invariant k > 0 ==> soa == list[|list| - 1].signer
        decreases |qname| - k
      {
        var m := MatchPass(h, list, cp, |cp| == |qname|, qtype);
        if m.Some? && |cp| == |qname| {
          return Verdict(m, m, m, true, false);
        }
        if m.Some? {
          cpe := m;
          break;
        }
        soa := list[|list| - 1].signer;
        if soa != [] { RootFirst(soa); }
        if cp == [] {
          // the root label is never stripped, and sorts before any signer
          return NOTHING;
        }
        cp := cp[1..];
        k := k + 1;
      }
      if cpe.None? {
        return NOTHING;
      }
      TailIsSuffix(qname, k);
    }
    var nextCloser := NextCloserName(qname, cp);
    var n := CoverPass(h, list, nextCloser, false);
    if n.Failed? {
      return Verdict(None, cpe, None, false, false);
    }
    var ncn: Option<nat>, optout := None, false;
    if n.Found? {
      ncn := Some(n.at);
      optout := list[n.at].optOut;
    }
    if hint.Some? {
      return Verdict(ncn, cpe, ncn, false, optout);
    }
    if MAXCDNAME < WireLen(cp) + 2 {
      return Verdict(ncn, cpe, None, false, optout);
    }
    var w := CoverPass(h, list, Wildcard(cp), true);
    if w.Found? {
      return Verdict(ncn, cpe, Some(w.at), w.matched, optout);
    }
    return Verdict(ncn, cpe, None, false, optout);
  }

  lemma OrdSelf(n: Name)
    ensures NameOrd(n, n) == 0
  {
    NameOrdZero(n, n);
  }

  lemma RootFirst(n: Name)
    requires n != []
    ensures NameOrd([], n) < 0
  {
  }

  // ----- the zone behind the records -----

  /** One NSEC3 record of a zone: the hash of its owner, its flag, and the types of its original owner name. */
  datatype Link = Link(hash: Label, optOut: bool, types: set<int>)

  /**
   A signed zone: the names that have an NSEC3 record, the names an opt-out zone leaves
   without one, and the ring of hashes in order.
  */
  datatype Zone = Zone(apex: Name, params: Params, signed: set<Name>, unsigned: set<Name>, ring: seq<Link>)

  function Hashes(z: Zone): (r: seq<Label>)
    ensures |r| == |z.ring| && forall i :: 0 <= i < |r| ==> r[i] == z.ring[i].hash
  {
    seq(|z.ring|, i requires 0 <= i < |z.ring| => z.ring[i].hash)
  }

  ghost predicate In(names: set<Name>, name: Name) {
    exists n :: n in names && Same(n, name)
  }

  ghost predicate Exists(z: Zone, name: Name) {
    In(z.signed, name) || In(z.unsigned, name)
  }

  /** The hash does not see case; nsec3_sha_hash_compute lower-cases the name first. */
  ghost predicate CaseBlind(h: HashFn) {
    forall a: Name, b: Name, s: Name, t: Name, p: Params {:trigger h(a, s, p), h(b, t, p)}
      :: Same(a, b) && Same(s, t) ==> h(a, s, p) == h(b, t, p)
  }

  ghost predicate HashedAt(h: HashFn, z: Zone, name: Name, i: nat) {
    && i < |z.ring|
    && h(name, z.apex, z.params).Some?
    && LabelOrd(z.ring[i].hash, h(name, z.apex, z.params).value) == 0
  }

  ghost predicate OptedOutAt(h: HashFn, z: Zone, name: Name, i: nat) {
    && i < |z.ring| && z.ring[i].optOut
    && h(name, z.apex, z.params).Some?
    && InArc(Hashes(z), i, h(name, z.apex, z.params).value)
  }

  ghost predicate Hashed(h: HashFn, z: Zone, name: Name) {
    exists i: nat :: HashedAt(h, z, name, i)
  }

  ghost predicate OptedOut(h: HashFn, z: Zone, name: Name) {
    exists i: nat :: OptedOutAt(h, z, name, i)
  }

  ghost predicate HashesSome(h: HashFn, z: Zone, i: nat) {
    exists n :: n in z.signed && HashedAt(h, z, n, i)
  }

  ghost predicate InRing(z: Zone, r: Record) {
    exists i: nat :: IsLink(z, r, i)
  }

  ghost predicate ValidZone(h: HashFn, z: Zone) {
    && Sorted(Hashes(z))
    && (forall n :: Exists(z, n) ==> IsSuffix(z.apex, n) && (|n| > |z.apex| ==> Exists(z, n[1..])))
    && (forall n :: n in z.signed ==> Hashed(h, z, n))
    && (forall i: nat :: i < |z.ring| ==> HashesSome(h, z, i))
    && (forall n :: n in z.unsigned ==> OptedOut(h, z, n))
  }

  /** What is_type_set finds in a record for these types; there is no bitmap for none. */
  function Bitmap(types: set<int>): Option<set<int>> {
    if types == {} then None else Some(Reported(types))
  }

  /** 'r' is the zone's NSEC3 record for the i-th hash. */
  ghost predicate IsLink(z: Zone, r: Record, i: nat) {
    && i < |z.ring|
    && LabelOrd(r.owner, z.ring[i].hash) == 0
    && LabelOrd(r.next, z.ring[NextIndex(|z.ring|, i)].hash) == 0
    && Same(r.signer, z.apex) && r.params == z.params && r.optOut == z.ring[i].optOut
    && r.types == Bitmap(z.ring[i].types)
  }

  ghost predicate FromZone(h: HashFn, z: Zone, list: seq<Record>) {
    && ValidZone(h, z) && CaseBlind(h)
    && forall k :: 0 <= k < |list| ==> InRing(z, list[k])
  }

  lemma CheckRangeFolds(a: Label, b: Label, x: Label, a': Label, b': Label, x': Label)
    requires LabelOrd(a, a') == 0 && LabelOrd(b, b') == 0 && LabelOrd(x, x') == 0
    ensures CheckRange(a, b, x) == CheckRange(a', b', x')
  {
    hide LabelOrd;
    LabelOrdEqual(a, a', x);
    LabelOrdEqual(a, a', b);
    LabelOrdEqual(b, b', x);
    LabelOrdEqual(b, b', a');
    LabelOrdEqual(x, x', a');
    LabelOrdEqual(x, x', b');
  }

  lemma LabelOrdSelf(a: Label)
    ensures LabelOrd(a, a) == 0
  {
  }

  /** A name whose hash a record of the zone covers has no record of its own. */
  lemma CoveredIsAbsent(h: HashFn, z: Zone, r: Record, name: Name)
    requires ValidZone(h, z) && CaseBlind(h) && InRing(z, r) && CoversHash(h, r, name)
    ensures !In(z.signed, name)
    ensures !r.optOut ==> !Exists(z, name)
  {
    hide LabelOrd, CheckRange, IsSuffix, Same, InArc, CoversHash;
    var i := CoveredArc(h, z, r, name);
    ArcsPartition(Hashes(z), h(name, z.apex, z.params).value);
    hide ValidZone, CaseBlind;
    if In(z.signed, name) { SignedOnRing(h, z, name); }
    if In(z.unsigned, name) { UnsignedInArc(h, z, name); }
  }

  lemma SignedOnRing(h: HashFn, z: Zone, name: Name)
    requires ValidZone(h, z) && CaseBlind(h) && In(z.signed, name) && h(name, z.apex, z.params).Some?
    ensures OnRing(Hashes(z), h(name, z.apex, z.params).value)
  {
    hide LabelOrd, IsSuffix, Same;
    var n :| n in z.signed && Same(n, name);
    SameHash(h, z, n, name);
    assert Hashed(h, z, n);
    var j: nat :| HashedAt(h, z, n, j);
    assert LabelOrd(Hashes(z)[j], h(name, z.apex, z.params).value) == 0;
  }

  lemma UnsignedInArc(h: HashFn, z: Zone, name: Name)
    requires ValidZone(h, z) && CaseBlind(h) && In(z.unsigned, name) && h(name, z.apex, z.params).Some?
    ensures exists j: nat :: j < |z.ring| && z.ring[j].optOut && InArc(Hashes(z), j, h(name, z.apex, z.params).value)
  {
    hide InArc, IsSuffix, Same;
    var n :| n in z.unsigned && Same(n, name);
    SameHash(h, z, n, name);
    assert OptedOut(h, z, n);
    var j: nat :| OptedOutAt(h, z, n, j);
    assert InArc(Hashes(z), j, h(name, z.apex, z.params).value);
  }

  lemma SameHash(h: HashFn, z: Zone, n: Name, name: Name)
    requires CaseBlind(h) && Same(n, name)
    ensures h(n, z.apex, z.params) == h(name, z.apex, z.params)
  {
    SameRefl(z.apex);
    hide Same;
    assert Same(n, name) && Same(z.apex, z.apex);
  }

  lemma SameRefl(n: Name)
    ensures Same(n, n)
  {
  }

  /** In a zone closed under ancestors, a name that does not exist has nothing below it. */
  lemma {:induction false} NothingBelow(h: HashFn, z: Zone, a: Name, n: Name)
    requires ValidZone(h, z) && Exists(z, n) && IsSuffix(a, n) && |a| >= |z.apex|
    ensures Exists(z, a)
    decreases |n|
  {
    hide Hashed, OptedOut, HashesSome, In, SameLabel;
    if |n| > |a| {
      SuffixOfTail(a, n, 1);
      NothingBelow(h, z, a, n[1..]);
    } else {
      SuffixIsSame(a, n);
      assert n[0..] == n;
      ExistsFolds(z, n, a);
    }
  }

  lemma ExistsFolds(z: Zone, n: Name, a: Name)
    requires Same(n, a)
    ensures Exists(z, n) ==> Exists(z, a)
  {
    hide SameLabel;
    if In(z.signed, n) {
      var m :| m in z.signed && Same(m, n);
      SameTrans(m, n, a);
    } else if In(z.unsigned, n) {
      var m :| m in z.unsigned && Same(m, n);
      SameTrans(m, n, a);
    }
  }

  lemma SameTrans(a: Name, b: Name, c: Name)
    requires Same(a, b) && Same(b, c)
    ensures Same(a, c)
  {
    forall i | 0 <= i < |a| ensures SameLabel(a[i], c[i]) {
      assert SameLabel(a[i], b[i]) && SameLabel(b[i], c[i]);
    }
  }

  /** An encloser that does not sort before the apex is not a proper ancestor of it. */
  lemma NotAboveApex(h: HashFn, z: Zone, qname: Name, d: nat, soa: Name, n: Name)
    requires ValidZone(h, z) && 0 < d <= |qname| && Same(soa, z.apex)
    requires NameOrd(qname[d..], soa) >= 0
    requires Exists(z, n) && IsSuffix(qname[d - 1..], n)
    ensures |qname[d - 1..]| >= |z.apex|
  {
    hide NameOrd, Hashed, OptedOut, HashesSome, In, SameLabel;
    var nc, cp := qname[d - 1..], qname[d..];
    assert IsSuffix(z.apex, n);
    if |nc| < |z.apex| {
      SuffixesNest(nc, z.apex, n);
      assert cp == nc[1..];
      TailIsSuffix(nc, 1);
      SuffixTransitive(cp, nc, z.apex);
      AncestorSortsFirst(cp, z.apex);
      NameOrdFolds(soa, z.apex, cp);
    }
  }

  /**
   Name errors with NSEC3.  When the prover, without a hint, returns all three records with
   neither flag set, nothing exists at or below the next closer name, the query name
   included, and no wildcard with a record exists at the encloser; whatever the hash does,
   collisions included.  So a wildcard exists there exactly if the zone left it without a
   record, which only an opt-out record returned for it allows: see WildcardAbsence.
  */
  lemma NameErrorSound(h: HashFn, z: Zone, list: seq<Record>, qname: Name, qtype: int, v: Verdict) returns (d: nat)
    requires FromZone(h, z, list) && v == Judge(h, list, qname, qtype, None)
    requires v.cpe.Some? && v.ncn.Some? && v.wcp.Some? && !v.notype && !v.optout
    ensures FindEncloser(h, list, qname, qtype, 0) == Some(Hit(d, v.cpe.value)) && 0 < d <= |qname|
    ensures forall n :: IsSuffix(qname[d - 1..], n) ==> !Exists(z, n)
    ensures !Exists(z, qname)
    ensures Exists(z, Wildcard(qname[d..])) <==> In(z.unsigned, Wildcard(qname[d..]))
    ensures !In(z.signed, Wildcard(qname[d..]))
    ensures v.wcp.value < |list| && (!list[v.wcp.value].optOut ==> !Exists(z, Wildcard(qname[d..])))
  {
    hide NameOrd, FirstCover, FirstMatch, FindEncloser, CoversHash, Matches, WireLen, IsSuffix, Exists, In, Same,
         InRing, ValidZone, CaseBlind;
    d := FindEncloser(h, list, qname, qtype, 0).value.depth;
    var nc, cp := qname[d - 1..], qname[d..];
    assert CoversHash(h, list[v.ncn.value], nc) && !list[v.ncn.value].optOut;
    CoveredIsAbsent(h, z, list[v.ncn.value], nc);
    CoveredIsAbsent(h, z, list[v.wcp.value], Wildcard(cp));
    var last := list[|list| - 1];
    assert Same(last.signer, z.apex) by { LinkSigner(z, last); }
    forall n | IsSuffix(nc, n) ensures !Exists(z, n) {
      if Exists(z, n) {
        NotAboveApex(h, z, qname, d, last.signer, n);
        NothingBelow(h, z, nc, n);
      }
    }
    TailIsSuffix(qname, d - 1);
    assert Exists(z, Wildcard(cp)) <==> In(z.unsigned, Wildcard(cp)) by { ExistsIsIn(z, Wildcard(cp)); }
  }

  lemma ExistsIsIn(z: Zone, name: Name)
    ensures Exists(z, name) <==> In(z.signed, name) || In(z.unsigned, name)
  {
  }

  lemma LinkSigner(z: Zone, r: Record)
    requires InRing(z, r)
    ensures Same(r.signer, z.apex)
  {
  }

  ghost predicate SameHashes(h: HashFn, z: Zone, a: Name, b: Name) {
    var x, y := h(a, z.apex, z.params), h(b, z.apex, z.params);
    x.Some? && y.Some? && LabelOrd(x.value, y.value) == 0
  }

  /**
   The encloser returned does exist unless its hash collides with that of another name of
   the zone; together with NameErrorSound it is then the closest one.
  */
  lemma EncloserExists(h: HashFn, z: Zone, list: seq<Record>, qname: Name, qtype: int)
    requires FromZone(h, z, list) && list != []
    requires FindEncloser(h, list, qname, qtype, 0).Some?
    requires var cp := qname[FindEncloser(h, list, qname, qtype, 0).value.depth..];
             forall n :: n in z.signed && SameHashes(h, z, n, cp) ==> Same(n, cp)
    ensures Exists(z, qname[FindEncloser(h, list, qname, qtype, 0).value.depth..])
  {
    hide FindEncloser, LabelOrd, IsSuffix, Same;
    var hit := FindEncloser(h, list, qname, qtype, 0).value;
    var r, cp := list[hit.at], qname[hit.depth..];
    assert Matches(h, r, cp);
    var i: nat :| IsLink(z, r, i);
    SameRefl(cp);
    var x := h(cp, z.apex, z.params);
    assert x == h(cp, r.signer, r.params) by { assert Same(r.signer, z.apex); }
    assert HashesSome(h, z, i);
    var n :| n in z.signed && HashedAt(h, z, n, i);
    var y := h(n, z.apex, z.params).value;
    LabelOrdEqual(r.owner, z.ring[i].hash, x.value);
    LabelOrdEqual(z.ring[i].hash, y, x.value);
  }

  // ----- denial of a type -----

  /** The owner of the record is the hash of the name. */
  predicate HashIs(h: HashFn, r: Record, name: Name) {
    && h(name, r.signer, r.params).Some?
    && LabelOrd(r.owner, h(name, r.signer, r.params).value) == 0
  }

  /** No bitmap, or one with neither the type, nor CNAME, nor DNAME, and for DS with NS and not SOA. */
  predicate RecordLacks(r: Record, qtype: int) {
    r.types.Some? ==>
      && qtype !in r.types.value && 5 !in r.types.value && 39 !in r.types.value
      && (qtype == 43 ==> 2 in r.types.value && 6 !in r.types.value)
  }

  /** The types of a name as such a record has them; types from 256 on may be there all the same. */
  predicate TypesLack(types: set<int>, qtype: int) {
    || types == {}
    || (&& (qtype in types ==> qtype < 1 || qtype >= 256) && 5 !in types && 39 !in types
        && (qtype == 43 ==> 2 in types && 6 !in types))
  }

  /**
   Denial of the type at the query name, over the listed records.  If some record matches the query
   name and lacks the type, such a record is returned for all three; if there is none, a type is
   denied through a wildcard only.
  */
  lemma TypeDenialByRecords(h: HashFn, list: seq<Record>, qname: Name, qtype: int, v: Verdict)
    requires list != [] && v == Judge(h, list, qname, qtype, None)
    ensures (exists k :: 0 <= k < |list| && HashIs(h, list[k], qname) && RecordLacks(list[k], qtype)) <==>
            (FindEncloser(h, list, qname, qtype, 0).Some? && FindEncloser(h, list, qname, qtype, 0).value.depth == 0)
    ensures match FindEncloser(h, list, qname, qtype, 0)
            case None => !v.notype
            case Some(hit) =>
              if hit.depth == 0 then
                && v == Verdict(Some(hit.at), Some(hit.at), Some(hit.at), true, false)
                && hit.at < |list| && HashIs(h, list[hit.at], qname) && RecordLacks(list[hit.at], qtype)
              else
                v.notype ==> v.cpe == Some(hit.at) && v.wcp.Some? && v.wcp.value < |list|
                             && HashIs(h, list[v.wcp.value], Wildcard(qname[hit.depth..]))
  {
    assert qname[0..] == qname;
    FirstMatchExact(h, list, qname, true, qtype, 0);
    FirstMatchLacks(h, list, qname, qtype, 0);
    hide LabelOrd, NameOrd, WireLen, FirstMatch, FirstCover, CheckRange;
  }

  lemma {:induction false} FirstMatchLacks(h: HashFn, list: seq<Record>, name: Name, qtype: int, k: nat)
    requires k <= |list|
    ensures var m := FirstMatch(h, list, name, true, qtype, k);
            m.Some? ==> m.value < |list| && HashIs(h, list[m.value], name) && RecordLacks(list[m.value], qtype)
    decreases |list| - k
  {
    hide LabelOrd;
    if k < |list| { FirstMatchLacks(h, list, name, qtype, k + 1); }
  }

  /** A record of the zone matches a name exactly where the zone hashes it. */
  lemma HashedLink(h: HashFn, z: Zone, r: Record, name: Name, i: nat)
    requires CaseBlind(h) && IsLink(z, r, i)
    ensures HashIs(h, r, name) <==> HashedAt(h, z, name, i)
  {
    hide Same, LabelOrd;
    SameRefl(name);
    assert h(name, z.apex, z.params) == h(name, r.signer, r.params) by { assert Same(r.signer, z.apex); }
    var x := h(name, z.apex, z.params);
    if x.Some? { LabelOrdEqual(r.owner, z.ring[i].hash, x.value); }
  }

  lemma BitmapSays(z: Zone, r: Record, i: nat, qtype: int)
    requires IsLink(z, r, i)
    ensures RecordLacks(r, qtype) <==> TypesLack(z.ring[i].types, qtype)
  {
    hide LabelOrd, Same;
  }

  /**
   The same against the zone: the type is denied at the query name exactly if the record for its
   hash is listed and the zone lacks the type there, types from 256 on aside.
  */
  lemma TypeDenialExact(h: HashFn, z: Zone, list: seq<Record>, qname: Name, qtype: int)
    requires FromZone(h, z, list) && list != []
    ensures (FindEncloser(h, list, qname, qtype, 0).Some?
             && FindEncloser(h, list, qname, qtype, 0).value.depth == 0)
       <==> exists k: nat, i: nat ::
              k < |list| && IsLink(z, list[k], i) && HashedAt(h, z, qname, i) && TypesLack(z.ring[i].types, qtype)
  {
    TypeDenialByRecords(h, list, qname, qtype, Judge(h, list, qname, qtype, None));
    forall k: nat, i: nat | k < |list| && IsLink(z, list[k], i)
      ensures HashIs(h, list[k], qname) <==> HashedAt(h, z, qname, i)
      ensures RecordLacks(list[k], qtype) <==> TypesLack(z.ring[i].types, qtype)
    {
      HashedLink(h, z, list[k], qname, i);
      BitmapSays(z, list[k], i, qtype);
    }
    hide FindEncloser, Judge, HashIs, HashedAt, LabelOrd, ValidZone, IsLink, CaseBlind, RecordLacks, TypesLack;
    forall k | 0 <= k < |list| ensures exists i: nat :: IsLink(z, list[k], i) {
      assert InRing(z, list[k]);
    }
  }

  /**
   So a type denied at the query name is truly absent, if the hash of the name is that of no other
   name: it has a record in the zone, and its types are as the denial has them.
  */
  lemma TypeDenialSound(h: HashFn, z: Zone, list: seq<Record>, qname: Name, qtype: int, v: Verdict) returns (i: nat)
    requires FromZone(h, z, list) && v == Judge(h, list, qname, qtype, None) && v.notype && list != []
    requires v.wcp.Some? && v.wcp.value < |list|
    requires forall d :: 0 < d <= |qname| ==> !HashIs(h, list[v.wcp.value], Wildcard(qname[d..]))
    requires forall n :: n in z.signed && SameHashes(h, z, n, qname) ==> Same(n, qname)
    ensures In(z.signed, qname) && HashedAt(h, z, qname, i)
    ensures qtype in z.ring[i].types ==> qtype < 1 || qtype >= 256
    ensures 5 !in z.ring[i].types && 39 !in z.ring[i].types
    ensures qtype == 43 ==> z.ring[i].types == {} || (2 in z.ring[i].types && 6 !in z.ring[i].types)
  {
    TypeDenialByRecords(h, list, qname, qtype, v);
    TypeDenialExact(h, z, list, qname, qtype);
    hide FindEncloser, Judge, HashIs, LabelOrd, CaseBlind, IsLink, IsSuffix, Same;
    var k: nat, j: nat :| k < |list| && IsLink(z, list[k], j) && HashedAt(h, z, qname, j)
                          && TypesLack(z.ring[j].types, qtype);
    i := j;
    assert HashesSome(h, z, i);
    var n :| n in z.signed && HashedAt(h, z, n, i);
    SameLinkSameHash(h, z, n, qname, i);
  }

  /**
   A type denied through a wildcard: the wildcard at the encloser found has a record, if its hash is
   that of no other name, and the next closer name has none.  The bitmap of the wildcard is not
   looked at.
  */
  lemma WildcardDenial(h: HashFn, z: Zone, list: seq<Record>, qname: Name, qtype: int, v: Verdict, d: nat)
    requires FromZone(h, z, list) && list != [] && v == Judge(h, list, qname, qtype, None)
    requires v.notype && v.ncn.Some? && v.cpe.Some?
    requires FindEncloser(h, list, qname, qtype, 0) == Some(Hit(d, v.cpe.value)) && 0 < d <= |qname|
    requires forall n :: n in z.signed && SameHashes(h, z, n, Wildcard(qname[d..])) ==> Same(n, Wildcard(qname[d..]))
    ensures In(z.signed, Wildcard(qname[d..]))
    ensures Exists(z, qname[d - 1..]) <==> In(z.unsigned, qname[d - 1..])
    ensures !v.optout ==> !Exists(z, qname[d - 1..])
  {
    var w := Wildcard(qname[d..]);
    DenialParts(h, list, qname, qtype, v, d);
    hide Judge, FindEncloser, CoversHash, HashIs, IsSuffix, Exists, In, Same, ValidZone, CaseBlind, IsLink, SameHashes;
    CoveredIsAbsent(h, z, list[v.ncn.value], qname[d - 1..]);
    ExistsIsIn(z, qname[d - 1..]);
    assert InRing(z, list[v.wcp.value]);
    var i: nat :| IsLink(z, list[v.wcp.value], i);
    HashedLink(h, z, list[v.wcp.value], w, i);
    LinkOf(h, z, w, i);
  }

  lemma DenialParts(h: HashFn, list: seq<Record>, qname: Name, qtype: int, v: Verdict, d: nat)
    requires list != [] && v == Judge(h, list, qname, qtype, None) && v.notype && v.ncn.Some? && v.cpe.Some?
    requires FindEncloser(h, list, qname, qtype, 0) == Some(Hit(d, v.cpe.value)) && 0 < d <= |qname|
    ensures v.ncn.value < |list| && CoversHash(h, list[v.ncn.value], qname[d - 1..])
    ensures v.optout == list[v.ncn.value].optOut
    ensures v.wcp.Some? && v.wcp.value < |list| && HashIs(h, list[v.wcp.value], Wildcard(qname[d..]))
  {
    TypeDenialByRecords(h, list, qname, qtype, v);
    hide FirstCover, FirstMatch, FindEncloser, CoversHash, HashIs, WireLen;
  }

  lemma LinkOf(h: HashFn, z: Zone, name: Name, i: nat)
    requires ValidZone(h, z) && HashedAt(h, z, name, i)
    requires forall n :: n in z.signed && SameHashes(h, z, n, name) ==> Same(n, name)
    ensures In(z.signed, name)
  {
    hide LabelOrd, IsSuffix, Same;
    assert HashesSome(h, z, i);
    var n :| n in z.signed && HashedAt(h, z, n, i);
    SameLinkSameHash(h, z, n, name, i);
  }

  lemma SameLinkSameHash(h: HashFn, z: Zone, a: Name, b: Name, i: nat)
    requires HashedAt(h, z, a, i) && HashedAt(h, z, b, i)
    ensures SameHashes(h, z, a, b)
  {
    LabelOrdEqual(z.ring[i].hash, h(a, z.apex, z.params).value, h(b, z.apex, z.params).value);
  }

  // ----- genuine proofs are accepted -----

  /** The record of the zone for the arc that holds the hash of a name covers it. */
  lemma ArcCovers(h: HashFn, z: Zone, r: Record, name: Name, i: nat)
    requires CaseBlind(h) && IsLink(z, r, i) && h(name, z.apex, z.params).Some?
    ensures h(name, r.signer, r.params).Some?
    ensures CoversHash(h, r, name) <==> InArc(Hashes(z), i, h(name, z.apex, z.params).value)
  {
    hide LabelOrd, CheckRange, Same;
    var ring := Hashes(z);
    SameRefl(name);
    var x := h(name, z.apex, z.params);
    assert x == h(name, r.signer, r.params) by { assert Same(r.signer, z.apex); }
    LabelOrdSelf(x.value);
    CheckRangeFolds(r.owner, r.next, x.value, ring[i], ring[NextIndex(|ring|, i)], x.value);
  }

  lemma {:induction false} CoverFinds(h: HashFn, list: seq<Record>, name: Name, orMatch: bool, k: nat)
    requires k <= |list| && exists j :: k <= j < |list| && CoversHash(h, list[j], name)
    requires forall j :: 0 <= j < |list| ==> h(name, list[j].signer, list[j].params).Some? && !HashIs(h, list[j], name)
    ensures FirstCover(h, list, name, orMatch, k).Found? && !FirstCover(h, list, name, orMatch, k).matched
    decreases |list| - k
  {
    hide LabelOrd, CheckRange;
    assert HashIs(h, list[k], name) <==> Matches(h, list[k], name);
    if !CoversHash(h, list[k], name) { CoverFinds(h, list, name, orMatch, k + 1); }
  }

  lemma {:induction false} EncloserFound(h: HashFn, list: seq<Record>, qname: Name, qtype: int, d: nat, k: nat)
    requires list != [] && 0 < d <= |qname| && k <= d && exists j :: 0 <= j < |list| && HashIs(h, list[j], qname[d..])
    requires forall i, j :: k <= i < d && 0 <= j < |list| ==> !HashIs(h, list[j], qname[i..])
    requires forall i :: k < i <= d ==> NameOrd(qname[i..], list[|list| - 1].signer) >= 0
    ensures FindEncloser(h, list, qname, qtype, k).Some? && FindEncloser(h, list, qname, qtype, k).value.depth == d
    decreases d - k
  {
    FirstMatchExact(h, list, qname[k..], k == 0, qtype, 0);
    assert forall j :: 0 <= j < |list| ==> (HashIs(h, list[j], qname[k..]) <==> Matches(h, list[j], qname[k..]));
    hide LabelOrd, NameOrd, FirstMatch, HashIs, Matches, BitmapDenies;
    if k < d { EncloserFound(h, list, qname, qtype, d, k + 1); }
  }

  /** Some listed record is that for the arc that holds the hash of the name; with 'closed', not an opt-out one. */
  ghost predicate ArcListed(h: HashFn, z: Zone, list: seq<Record>, name: Name, closed: bool) {
    h(name, z.apex, z.params).Some? && exists k: nat, i: nat ::
      && k < |list| && IsLink(z, list[k], i) && InArc(Hashes(z), i, h(name, z.apex, z.params).value)
      && (closed ==> !z.ring[i].optOut)
  }

  /** No name with a record has the hash of this one. */
  ghost predicate Unhashed(h: HashFn, z: Zone, name: Name) {
    h(name, z.apex, z.params).Some? && forall n :: n in z.signed ==> !SameHashes(h, z, n, name)
  }

  /** Then no record of the zone matches it. */
  lemma UnhashedUnmatched(h: HashFn, z: Zone, list: seq<Record>, name: Name)
    requires FromZone(h, z, list) && Unhashed(h, z, name)
    ensures forall k :: 0 <= k < |list| ==> !HashIs(h, list[k], name) && h(name, list[k].signer, list[k].params).Some?
  {
    hide LabelOrd, IsSuffix, Same;
    forall k | 0 <= k < |list| ensures !HashIs(h, list[k], name) && h(name, list[k].signer, list[k].params).Some? {
      assert InRing(z, list[k]);
      var i: nat :| IsLink(z, list[k], i);
      ArcCovers(h, z, list[k], name, i);
      HashedLink(h, z, list[k], name, i);
      if HashedAt(h, z, name, i) {
        assert HashesSome(h, z, i);
        var n :| n in z.signed && HashedAt(h, z, n, i);
        SameLinkSameHash(h, z, n, name, i);
      }
    }
  }

  lemma ArcFound(h: HashFn, z: Zone, list: seq<Record>, name: Name, orMatch: bool, closed: bool)
    requires FromZone(h, z, list) && Unhashed(h, z, name) && ArcListed(h, z, list, name, closed)
    ensures var s := FirstCover(h, list, name, orMatch, 0); s.Found? && !s.matched && (closed ==> !list[s.at].optOut)
  {
    UnhashedUnmatched(h, z, list, name);
    var k: nat, i: nat :|
      && k < |list| && IsLink(z, list[k], i) && InArc(Hashes(z), i, h(name, z.apex, z.params).value)
      && (closed ==> !z.ring[i].optOut);
    ArcCovers(h, z, list[k], name, i);
    hide CoversHash, HashIs, Unhashed, InArc, CaseBlind, ValidZone;
    CoverFinds(h, list, name, orMatch, 0);
    SameFlag(h, z, list[k], list[FirstCover(h, list, name, orMatch, 0).at], name);
  }

  /**
   A genuine proof of a name error is accepted: the encloser has a record that is listed, no name
   with a record has the hash of a longer ancestor of the query name or of the wildcard, the
   wildcard is a name that fits, and the records for the arcs of the next closer name, not an
   opt-out one, and of the wildcard are listed.
  */
  lemma NameErrorAccepted(h: HashFn, z: Zone, list: seq<Record>, qname: Name, qtype: int, d: nat)
    requires FromZone(h, z, list) && 0 < d <= |qname| && In(z.signed, qname[d..]) && WireLen(qname[d..]) + 2 <= 255
    requires exists k: nat, i: nat :: k < |list| && IsLink(z, list[k], i) && HashedAt(h, z, qname[d..], i)
    requires forall j :: 0 <= j < d ==> Unhashed(h, z, qname[j..])
    requires ArcListed(h, z, list, qname[d - 1..], true)
    requires Unhashed(h, z, Wildcard(qname[d..])) && ArcListed(h, z, list, Wildcard(qname[d..]), false)
    ensures var v := Judge(h, list, qname, qtype, None);
            v.cpe.Some? && v.ncn.Some? && v.wcp.Some? && !v.notype && !v.optout
  {
    assert list != [];
    hide *;
    GenuineEncloser(h, z, list, qname, qtype, d);
    ArcFound(h, z, list, qname[d - 1..], false, true);
    ArcFound(h, z, list, Wildcard(qname[d..]), true, false);
    JudgeFound(h, list, qname, qtype, d);
  }

  /** And so is one that the next closer name is not there, for an answer expanded from a wildcard. */
  lemma HintedAccepted(h: HashFn, z: Zone, list: seq<Record>, qname: Name, qtype: int, hint: Name)
    requires FromZone(h, z, list) && ProperAncestor(hint, qname)
    requires var nc := qname[|qname| - |hint| - 1..];
             Unhashed(h, z, nc) && ArcListed(h, z, list, nc, true)
    ensures var v := Judge(h, list, qname, qtype, Some(hint)); v.ncn.Some? && v.wcp == v.ncn && !v.notype && !v.optout
  {
    hide NameOrd, Unhashed, FirstCover, WireLen, IsSuffix, Same, FirstMatch, FindEncloser, ValidZone, InRing, IsLink,
         CaseBlind, InArc;
    assert |hint| < |qname|;
    ArcFound(h, z, list, qname[|qname| - |hint| - 1..], false, true);
  }

  lemma GenuineEncloser(h: HashFn, z: Zone, list: seq<Record>, qname: Name, qtype: int, d: nat)
    requires FromZone(h, z, list) && list != [] && 0 < d <= |qname| && In(z.signed, qname[d..])
    requires exists k: nat, i: nat :: k < |list| && IsLink(z, list[k], i) && HashedAt(h, z, qname[d..], i)
    requires forall j :: 0 <= j < d ==> Unhashed(h, z, qname[j..])
    ensures FindEncloser(h, list, qname, qtype, 0).Some? && FindEncloser(h, list, qname, qtype, 0).value.depth == d
  {
    ListedMatches(h, z, list, qname[d..]);
    hide *;
    AboveSigner(h, z, list, qname, d);
    forall j | 0 <= j < d ensures forall m :: 0 <= m < |list| ==> !HashIs(h, list[m], qname[j..]) {
      UnhashedUnmatched(h, z, list, qname[j..]);
    }
    EncloserFound(h, list, qname, qtype, d, 0);
  }

  lemma ListedMatches(h: HashFn, z: Zone, list: seq<Record>, name: Name)
    requires CaseBlind(h) && exists k: nat, i: nat :: k < |list| && IsLink(z, list[k], i) && HashedAt(h, z, name, i)
    ensures exists j :: 0 <= j < |list| && HashIs(h, list[j], name)
  {
    hide HashIs, HashedAt, IsLink, CaseBlind;
    var k: nat, i: nat :| k < |list| && IsLink(z, list[k], i) && HashedAt(h, z, name, i);
    HashedLink(h, z, list[k], name, i);
  }

  lemma JudgeFound(h: HashFn, list: seq<Record>, qname: Name, qtype: int, d: nat)
    requires list != [] && 0 < d <= |qname| && WireLen(qname[d..]) + 2 <= 255
    requires FindEncloser(h, list, qname, qtype, 0).Some? && FindEncloser(h, list, qname, qtype, 0).value.depth == d
    requires var n := FirstCover(h, list, qname[d - 1..], false, 0); n.Found? && !list[n.at].optOut
    requires var w := FirstCover(h, list, Wildcard(qname[d..]), true, 0); w.Found? && !w.matched
    ensures var v := Judge(h, list, qname, qtype, None);
            v.cpe.Some? && v.ncn.Some? && v.wcp.Some? && !v.notype && !v.optout
  {
    hide FirstCover, FindEncloser, WireLen;
  }

  /** An ancestor that is in the zone, and what is below it, does not sort before the signer. */
  lemma AboveSigner(h: HashFn, z: Zone, list: seq<Record>, qname: Name, d: nat)
    requires FromZone(h, z, list) && list != [] && d <= |qname| && In(z.signed, qname[d..])
    ensures forall i :: 0 <= i <= d ==> NameOrd(qname[i..], list[|list| - 1].signer) >= 0
  {
    hide NameOrd, Hashed, OptedOut, HashesSome, SameLabel;
    var last := list[|list| - 1];
    assert Same(last.signer, z.apex) by { assert InRing(z, last); LinkSigner(z, last); }
    assert Exists(z, qname[d..]);
    forall i | 0 <= i <= d ensures NameOrd(qname[i..], last.signer) >= 0 {
      TailIsSuffix(qname[i..], d - i);
      assert qname[i..][d - i..] == qname[d..];
      SuffixTransitive(z.apex, qname[d..], qname[i..]);
      AncestorSortsFirst(z.apex, qname[i..]);
      NameOrdAntisymmetric(z.apex, qname[i..]);
      NameOrdFolds(last.signer, z.apex, qname[i..]);
      NameOrdAntisymmetric(last.signer, qname[i..]);
    }
  }

  // ----- the wildcard at the encloser -----

  /** A name that an opt-out record of the zone covers can be added to the zone, below one that exists. */
  lemma UnsignedAdded(h: HashFn, z: Zone, list: seq<Record>, r: Record, cp: Name) returns (y: Zone)
    requires FromZone(h, z, list) && InRing(z, r) && r.optOut && CoversHash(h, r, Wildcard(cp)) && Exists(z, cp)
    ensures FromZone(h, y, list) && Exists(y, Wildcard(cp))
  {
    var w := Wildcard(cp);
    y := z.(unsigned := z.unsigned + {w});
    SameRefl(w);
    AddedExists(z, y, w);
    AddedIsOptedOut(h, z, y, r, w);
    AddedKeepsRing(h, z, y, list);
    AddedIsClosed(h, z, y, cp);
  }

  lemma AddedExists(z: Zone, y: Zone, w: Name)
    requires y == z.(unsigned := z.unsigned + {w})
    ensures forall n :: Exists(y, n) <==> Exists(z, n) || Same(w, n)
  {
    hide Same;
    forall n | Exists(z, n) || Same(w, n) ensures Exists(y, n) {
      if In(z.unsigned, n) {
        var m :| m in z.unsigned && Same(m, n);
        assert m in y.unsigned;
      } else if !In(z.signed, n) {
        assert w in y.unsigned;
      }
    }
  }

  lemma AddedIsOptedOut(h: HashFn, z: Zone, y: Zone, r: Record, w: Name)
    requires CaseBlind(h) && InRing(z, r) && r.optOut && CoversHash(h, r, w)
    requires y == z.(unsigned := z.unsigned + {w})
    ensures OptedOut(h, y, w)
  {
    var i := CoveredArc(h, z, r, w);
    hide InArc, CoversHash;
    assert Hashes(y) == Hashes(z);
    assert OptedOutAt(h, y, w, i);
  }

  lemma AddedKeepsRing(h: HashFn, z: Zone, y: Zone, list: seq<Record>)
    requires FromZone(h, z, list) && y == z.(unsigned := y.unsigned)
    ensures Sorted(Hashes(y))
    ensures forall k :: 0 <= k < |list| ==> InRing(y, list[k])
    ensures forall n :: n in y.signed ==> Hashed(h, y, n)
    ensures forall i: nat :: i < |y.ring| ==> HashesSome(h, y, i)
    ensures forall n :: n in z.unsigned ==> OptedOut(h, y, n)
  {
    hide LabelOrd, InArc, IsSuffix, Same, CaseBlind, Sorted, Exists;
    assert Hashes(y) == Hashes(z);
    forall k | 0 <= k < |list| ensures InRing(y, list[k]) {
      var i: nat :| IsLink(z, list[k], i);
      assert IsLink(y, list[k], i);
    }
    forall n | n in y.signed ensures Hashed(h, y, n) {
      var i: nat :| HashedAt(h, z, n, i);
      assert HashedAt(h, y, n, i);
    }
    forall i: nat | i < |y.ring| ensures HashesSome(h, y, i) {
      assert HashesSome(h, z, i);
      var n :| n in z.signed && HashedAt(h, z, n, i);
      assert HashedAt(h, y, n, i);
    }
    forall n | n in z.unsigned ensures OptedOut(h, y, n) {
      var i: nat :| OptedOutAt(h, z, n, i);
      assert OptedOutAt(h, y, n, i);
    }
  }

  lemma AddedIsClosed(h: HashFn, z: Zone, y: Zone, cp: Name)
    requires ValidZone(h, z) && Exists(z, cp) && y.apex == z.apex
    requires forall n :: Exists(y, n) <==> Exists(z, n) || Same(Wildcard(cp), n)
    ensures forall n :: Exists(y, n) ==> IsSuffix(y.apex, n) && (|n| > |y.apex| ==> Exists(y, n[1..]))
  {
    hide SameLabel, IsSuffix, Exists, Hashed, HashesSome, OptedOut, Sorted;
    var w := Wildcard(cp);
    assert w[1..] == cp;
    forall n | Exists(y, n) ensures IsSuffix(y.apex, n) && (|n| > |y.apex| ==> Exists(y, n[1..])) {
      if !Exists(z, n) {
        assert Same(w, n);
        assert Same(cp, n[1..]) by {
          forall i | 0 <= i < |cp| ensures SameLabel(cp[i], n[1..][i]) { assert SameLabel(w[i + 1], n[i + 1]); }
        }
        ExistsFolds(z, cp, n[1..]);
        TailIsSuffix(n, 1);
        SuffixTransitive(z.apex, n[1..], n);
      }
    }
  }

  /** A listed record covers the hash of the name and is not an opt-out one. */
  predicate Denies(h: HashFn, list: seq<Record>, name: Name) {
    exists k :: 0 <= k < |list| && CoversHash(h, list[k], name) && !list[k].optOut
  }

  /**
   What the records of a name error say about the wildcard: it is absent from every zone that
   they can come from if and only if some listed record covers it and is not an opt-out one.  The
   flag of the prover is that of the next closer name, as section 9.2 of RFC 5155 has it.
  */
  lemma WildcardAbsence(h: HashFn, z: Zone, list: seq<Record>, qname: Name, qtype: int, v: Verdict, d: nat)
    requires FromZone(h, z, list) && v == Judge(h, list, qname, qtype, None)
    requires v.cpe.Some? && v.ncn.Some? && v.wcp.Some? && !v.notype && !v.optout
    requires FindEncloser(h, list, qname, qtype, 0) == Some(Hit(d, v.cpe.value)) && Exists(z, qname[d..])
    ensures Denies(h, list, Wildcard(qname[d..])) <==>
              forall y: Zone :: FromZone(h, y, list) ==> !Exists(y, Wildcard(qname[d..]))
    ensures v.wcp.value < |list| && (Denies(h, list, Wildcard(qname[d..])) <==> !list[v.wcp.value].optOut)
  {
    hide NameOrd, FirstCover, FirstMatch, FindEncloser, CoversHash, Matches, WireLen, IsSuffix, Exists, In, Same,
         InRing, ValidZone, CaseBlind;
    var r, w := list[v.wcp.value], Wildcard(qname[d..]);
    assert CoversHash(h, r, w);
    forall k | 0 <= k < |list| && CoversHash(h, list[k], w) ensures list[k].optOut == r.optOut {
      SameFlag(h, z, list[k], r, w);
    }
    if r.optOut {
      var y := UnsignedAdded(h, z, list, r, qname[d..]);
    } else {
      forall y: Zone | FromZone(h, y, list) ensures !Exists(y, w) {
        CoveredIsAbsent(h, y, r, w);
      }
    }
  }

  /** Where the hash of a name that a record covers lies on the ring. */
  lemma CoveredArc(h: HashFn, z: Zone, r: Record, name: Name) returns (i: nat)
    requires CaseBlind(h) && InRing(z, r) && CoversHash(h, r, name)
    ensures i < |z.ring| && r.optOut == z.ring[i].optOut
    ensures h(name, z.apex, z.params).Some? && InArc(Hashes(z), i, h(name, z.apex, z.params).value)
  {
    hide LabelOrd, CheckRange, Same;
    i :| IsLink(z, r, i);
    var ring := Hashes(z);
    SameRefl(name);
    var x := h(name, z.apex, z.params);
    assert x == h(name, r.signer, r.params) by { assert Same(r.signer, z.apex); }
    LabelOrdSelf(x.value);
    CheckRangeFolds(r.owner, r.next, x.value, ring[i], ring[NextIndex(|ring|, i)], x.value);
  }

  /** Records of one zone that cover the same hash have the same flag. */
  lemma SameFlag(h: HashFn, z: Zone, a: Record, b: Record, name: Name)
    requires ValidZone(h, z) && CaseBlind(h) && InRing(z, a) && InRing(z, b)
    requires CoversHash(h, a, name) && CoversHash(h, b, name)
    ensures a.optOut == b.optOut
  {
    var i := CoveredArc(h, z, a, name);
    var j := CoveredArc(h, z, b, name);
    hide InArc, CoversHash;
    ArcsPartition(Hashes(z), h(name, z.apex, z.params).value);
  }

  /**
   With a hint, the encloser that an answer expanded from a wildcard came from, only the next
   closer name below it is proved absent, and everything under it.
  */
  lemma HintedSound(h: HashFn, z: Zone, list: seq<Record>, qname: Name, qtype: int, hint: Name, v: Verdict)
    requires FromZone(h, z, list) && ProperAncestor(hint, qname)
    requires v == Judge(h, list, qname, qtype, Some(hint)) && v.ncn.Some?
    ensures v.wcp == v.ncn && !v.notype
    ensures var nc := qname[|qname| - |hint| - 1..];
            && (Exists(z, nc) <==> In(z.unsigned, nc))
            && (!v.optout ==> !Exists(z, nc))
            && (!v.optout && |nc| >= |z.apex| ==> forall n :: IsSuffix(nc, n) ==> !Exists(z, n))
  {
    hide NameOrd, FirstCover, FirstMatch, FindEncloser, CoversHash, Matches, WireLen, IsSuffix, Exists, In, Same,
         InRing, ValidZone, CaseBlind;
    assert |hint| < |qname|;
    var nc := qname[|qname| - |hint| - 1..];
    var r := list[v.ncn.value];
    assert CoversHash(h, r, nc) && v.optout == r.optOut;
    CoveredIsAbsent(h, z, r, nc);
    ExistsIsIn(z, nc);
    if !v.optout && |nc| >= |z.apex| {
      forall n | IsSuffix(nc, n) ensures !Exists(z, n) {
        if Exists(z, n) { NothingBelow(h, z, nc, n); }
      }
    }
  }

  // ----- the smallest name error -----

  function ApexOnly(): HashFn {
    (n: Name, s: Name, p: Params) => if Same(n, [[101]]) then Some([48]) else Some([49])
  }

  /**
   A zone of one name, whose one record's arc is the whole ring but its own hash: the prover
   reports a name error for a name below it, so the conditions of NameErrorSound can be met.
  */
  lemma NameErrorReported() returns (h: HashFn, z: Zone, list: seq<Record>, qname: Name, v: Verdict)
    ensures FromZone(h, z, list) && v == Judge(h, list, qname, 1, None)
    ensures v.cpe.Some? && v.ncn.Some? && v.wcp.Some? && !v.notype && !v.optout
  {
    var e: Name, p := [[101]], Params(1, 0, []);
    h, qname := ApexOnly(), [[97], [101]];
    z := Zone(e, p, {e}, {}, [Link([48], false, {})]);
    var r := Record([48], [48], e, p, false, None);
    list := [r];
    v := Verdict(Some(0), Some(0), Some(0), false, false);
    SmallHashes(h);
    SameRefl(e);
    SmallZone(h, z, r);
    SmallVerdict(h, r, p);
  }

  lemma SmallHashes(h: HashFn)
    requires h == ApexOnly()
    ensures CaseBlind(h)
    ensures forall n: Name, s: Name, p: Params :: h(n, s, p) == if Same(n, [[101]]) then Some([48]) else Some([49])
  {
    forall a: Name, b: Name, s: Name, t: Name, p: Params | Same(a, b) && Same(s, t) ensures h(a, s, p) == h(b, t, p) {
      SameAlike(a, b, [[101]]);
    }
  }

  lemma SameAlike(a: Name, b: Name, c: Name)
    requires Same(a, b)
    ensures Same(a, c) <==> Same(b, c)
  {
    if Same(a, c) { SameTrans2(a, b, c); }
    if Same(b, c) { SameTrans(a, b, c); }
  }

  lemma SameTrans2(a: Name, b: Name, c: Name)
    requires Same(a, b) && Same(a, c)
    ensures Same(b, c)
  {
    forall i | 0 <= i < |b| ensures SameLabel(b[i], c[i]) {
      assert SameLabel(a[i], b[i]) && SameLabel(a[i], c[i]);
    }
  }

  lemma SmallZone(h: HashFn, z: Zone, r: Record)
    requires CaseBlind(h) && h(z.apex, z.apex, z.params) == Some([48]) && |z.apex| == 1
    requires z == Zone(z.apex, r.params, {z.apex}, {}, [Link([48], false, {})])
    requires r.owner == [48] && r.next == [48] && r.signer == z.apex && !r.optOut && r.types == None
    ensures FromZone(h, z, [r])
  {
    SmallClosed(z);
    LabelOrdSelf([48]);
    SameRefl(z.apex);
    assert Bitmap({}) == None;
    hide LabelOrd, IsSuffix, Same, Exists, CaseBlind, Bitmap;
    assert Hashes(z) == [[48]];
    assert HashedAt(h, z, z.apex, 0);
    assert HashesSome(h, z, 0);
    assert IsLink(z, r, 0);
    assert InRing(z, [r][0]);
    assert ValidZone(h, z);
  }

  lemma SmallClosed(z: Zone)
    requires z.signed == {z.apex} && z.unsigned == {}
    ensures forall n :: Exists(z, n) ==> IsSuffix(z.apex, n) && |n| == |z.apex|
  {
    forall n | Exists(z, n) ensures IsSuffix(z.apex, n) && |n| == |z.apex| {
      var m :| m in z.signed && Same(m, n);
      SameIsSuffixOf(m, n);
    }
  }

  lemma SameIsSuffixOf(a: Name, b: Name)
    requires Same(a, b)
    ensures IsSuffix(a, b) && |a| == |b|
  {
    forall i | 0 <= i < |a| ensures SameLabel(b[|b| - |a| + i], a[i]) {
      assert SameLabel(a[i], b[i]);
    }
  }

  lemma SmallVerdict(h: HashFn, r: Record, p: Params)
    requires forall n: Name, s: Name, q: Params :: h(n, s, q) == if Same(n, [[101]]) then Some([48]) else Some([49])
    requires r == Record([48], [48], [[101]], p, false, None)
    ensures Judge(h, [r], [[97], [101]], 1, None) == Verdict(Some(0), Some(0), Some(0), false, false)
  {
    var e: Name, ae: Name, list := [[101]], [[97], [101]], [r];
    SameRefl(e);
    SmallLabels();
    assert ae[0..] == ae && ae[1..] == e;
    assert !Same(ae, e) && !Same(Wildcard(e), e);
    OrdSelf(e);
    assert FirstMatch(h, list, ae, true, 1, 1) == None;
    assert FirstMatch(h, list, ae, true, 1, 0) == None;
    assert FirstMatch(h, list, e, false, 1, 0) == Some(0);
    assert FindEncloser(h, list, ae, 1, 1) == Some(Hit(1, 0));
    assert FindEncloser(h, list, ae, 1, 0) == Some(Hit(1, 0));
    assert FirstCover(h, list, ae, false, 0) == Found(0, false);
    assert FirstCover(h, list, Wildcard(e), true, 0) == Found(0, false);
    assert WireLen(e[1..]) == 1 && WireLen(e) == 3;
  }

  lemma SmallLabels()
    ensures LabelOrd([48], [48]) == 0 && LabelOrd([48], [49]) < 0 && LabelOrd([49], [48]) > 0
  {
    assert FoldLabel([48]) == [48] && FoldLabel([49]) == [49];
    LabelOrdSelf([48]);
  }

  // ----- a wildcard without a record -----

  const E: Name := [[101]]
  const BE: Name := [[98], [101]]
  const AE: Name := [[97], [101]]

  function FourNames(): HashFn {
    (n: Name, s: Name, p: Params) =>
      if Same(n, E) then Some([48]) else if Same(n, BE) then Some([50])
      else if Same(n, Wildcard(E)) then Some([51]) else Some([49])
  }

  function FourRecords(p: Params): (list: seq<Record>)
    ensures |list| == 2 && forall k :: 0 <= k < 2 ==> list[k].signer == E && list[k].params == p
  {
    [Record([48], [50], E, p, false, None), Record([50], [48], E, p, true, None)]
  }

  /**
   A zone e with a signed name b.e and an unsigned wildcard *.e: the prover reports a name
   error for a.e without its opt-out flag, for that looks at the record of a.e only, although
   the wildcard exists.
  */
  lemma WildcardMissed() returns (h: HashFn, z: Zone, list: seq<Record>, v: Verdict)
    ensures FromZone(h, z, list) && v == Judge(h, list, AE, 1, None)
    ensures v.cpe.Some? && v.ncn.Some? && v.wcp.Some? && !v.notype && !v.optout
    ensures FindEncloser(h, list, AE, 1, 0) == Some(Hit(1, v.cpe.value)) && AE[1..] == E
    ensures Exists(z, Wildcard(E))
  {
    hide *;
    var p := Params(1, 0, []);
    h := FourNames();
    z := Zone(E, p, {E, BE}, {Wildcard(E)}, [Link([48], false, {}), Link([50], true, {})]);
    list := FourRecords(p);
    v := Verdict(Some(0), Some(0), Some(1), false, false);
    FourHashes(h);
    FourClosed(z);
    FourRing(h, z, list);
    FourVerdict(h, list, p);
    SameRefl(Wildcard(E));
    AddedExists(z.(unsigned := {}), z, Wildcard(E));
  }

  lemma FourHashes(h: HashFn)
    requires h == FourNames()
    ensures CaseBlind(h)
    ensures forall s: Name, p: Params ::
              h(E, s, p) == Some([48]) && h(BE, s, p) == Some([50])
              && h(Wildcard(E), s, p) == Some([51]) && h(AE, s, p) == Some([49])
  {
    forall a: Name, b: Name, s: Name, t: Name, p: Params | Same(a, b) && Same(s, t) ensures h(a, s, p) == h(b, t, p) {
      SameAlike(a, b, E);
      SameAlike(a, b, BE);
      SameAlike(a, b, Wildcard(E));
    }
    SameRefl(E);
    SameRefl(BE);
    SameRefl(Wildcard(E));
    FourDiffer();
  }

  lemma FourDiffer()
    ensures !Same(E, BE) && !Same(E, Wildcard(E)) && !Same(E, AE)
    ensures !Same(BE, E) && !Same(BE, Wildcard(E)) && !Same(Wildcard(E), BE) && !Same(Wildcard(E), E)
    ensures !Same(AE, E) && !Same(AE, BE) && !Same(AE, Wildcard(E))
  {
    assert FoldLabel([97]) == [97] && FoldLabel([98]) == [98] && FoldLabel([42]) == [42];
    assert !SameLabel(BE[0], Wildcard(E)[0]) && !SameLabel(Wildcard(E)[0], BE[0]);
    assert !SameLabel(AE[0], BE[0]) && !SameLabel(AE[0], Wildcard(E)[0]);
  }

  lemma FourLabels()
    ensures forall a: Byte, b: Byte | 48 <= a <= 51 && 48 <= b <= 51 ::
              (LabelOrd([a], [b]) < 0 <==> a < b) && (LabelOrd([a], [b]) == 0 <==> a == b)
  {
    forall a: Byte, b: Byte | 48 <= a <= 51 && 48 <= b <= 51
      ensures (LabelOrd([a], [b]) < 0 <==> a < b) && (LabelOrd([a], [b]) == 0 <==> a == b)
    {
      assert FoldLabel([a]) == [a] && FoldLabel([b]) == [b];
    }
  }

  lemma FourClosed(z: Zone)
    requires z.apex == E && z.signed == {E, BE} && z.unsigned == {Wildcard(E)}
    ensures forall n :: Exists(z, n) ==> IsSuffix(z.apex, n) && (|n| > |z.apex| ==> Exists(z, n[1..]))
  {
    forall n | Exists(z, n) ensures IsSuffix(E, n) && (|n| > 1 ==> Exists(z, n[1..])) {
      if Same(E, n) {
        SameIsSuffixOf(E, n);
      } else if Same(BE, n) {
        FourChild(z, BE, n);
      } else {
        FourChild(z, Wildcard(E), n);
      }
    }
  }

  lemma FourChild(z: Zone, m: Name, n: Name)
    requires E in z.signed && |m| == 2 && m[1..] == E && Same(m, n)
    ensures IsSuffix(E, n) && Exists(z, n[1..])
  {
    assert SameLabel(m[1], n[1]);
    assert Same(E, n[1..]);
  }

  lemma FourRing(h: HashFn, z: Zone, list: seq<Record>)
    requires z.apex == E && z.signed == {E, BE} && z.unsigned == {Wildcard(E)}
    requires z.ring == [Link([48], false, {}), Link([50], true, {})]
    requires list == FourRecords(z.params)
    requires CaseBlind(h)
    requires h(E, E, z.params) == Some([48]) && h(BE, E, z.params) == Some([50]) &&
             h(Wildcard(E), E, z.params) == Some([51])
    requires forall n :: Exists(z, n) ==> IsSuffix(z.apex, n) && (|n| > |z.apex| ==> Exists(z, n[1..]))
    ensures FromZone(h, z, list)
  {
    FourLabels();
    hide LabelOrd, IsSuffix, Exists, CaseBlind;
    SameRefl(E);
    hide Same;
    assert Hashes(z) == [[48], [50]];
    assert HashedAt(h, z, E, 0) && HashedAt(h, z, BE, 1);
    assert HashesSome(h, z, 0) && HashesSome(h, z, 1);
    assert OptedOutAt(h, z, Wildcard(E), 1);
    assert IsLink(z, list[0], 0) && IsLink(z, list[1], 1);
    forall i: nat | i < |z.ring| ensures HashesSome(h, z, i) { assert i == 0 || i == 1; }
    forall k | 0 <= k < |list| ensures InRing(z, list[k]) { assert k == 0 || k == 1; }
    assert ValidZone(h, z);
  }

  lemma FourVerdict(h: HashFn, list: seq<Record>, p: Params)
    requires list == FourRecords(p)
    requires h(E, E, p) == Some([48]) && h(Wildcard(E), E, p) == Some([51]) && h(AE, E, p) == Some([49])
    ensures FindEncloser(h, list, AE, 1, 0) == Some(Hit(1, 0)) && AE[1..] == E
    ensures Judge(h, list, AE, 1, None) == Verdict(Some(0), Some(0), Some(1), false, false)
  {
    FourLabels();
    OrdSelf(E);
    hide LabelOrd, NameOrd;
    assert AE[0..] == AE && AE[1..] == E;
    assert FirstMatch(h, list, AE, true, 1, 2) == None;
    assert FirstMatch(h, list, AE, true, 1, 1) == None;
    assert FirstMatch(h, list, AE, true, 1, 0) == None;
    assert FirstMatch(h, list, E, false, 1, 0) == Some(0);
    assert FindEncloser(h, list, AE, 1, 1) == Some(Hit(1, 0));
    assert FindEncloser(h, list, AE, 1, 0) == Some(Hit(1, 0));
    assert FirstCover(h, list, AE, false, 0) == Found(0, false);
    assert FirstCover(h, list, Wildcard(E), true, 1) == Found(1, false);
    assert FirstCover(h, list, Wildcard(E), true, 0) == Found(1, false);
    assert WireLen(E[1..]) == 1 && WireLen(E) == 3;
  }

  // ----- a wildcard that has the type -----

  function TwoNames(): HashFn {
    (n: Name, s: Name, p: Params) =>
      if Same(n, E) then Some([48]) else if Same(n, Wildcard(E)) then Some([50]) else Some([49])
  }

  function TwoRecords(p: Params): (list: seq<Record>)
    ensures |list| == 2 && forall k :: 0 <= k < 2 ==> list[k].signer == E && list[k].params == p
  {
    [Record([48], [50], E, p, false, None), Record([50], [48], E, p, false, Some({1}))]
  }

  /**
   A zone e with a wildcard that has the type asked for: the prover denies the type for a.e, which
   the wildcard would answer.
  */
  lemma WildcardTypeIgnored() returns (h: HashFn, z: Zone, list: seq<Record>, i: nat)
    ensures FromZone(h, z, list) && HashedAt(h, z, Wildcard(E), i) && 1 in z.ring[i].types && AE[1..] == E
    ensures Wildcard(E) in z.signed && !Exists(z, AE)
    ensures Judge(h, list, AE, 1, None) == Verdict(Some(0), Some(0), Some(1), true, false)
  {
    hide *;
    var p := Params(1, 0, []);
    h := TwoNames();
    z := Zone(E, p, {E, Wildcard(E)}, {}, [Link([48], false, {}), Link([50], false, {1})]);
    list := TwoRecords(p);
    i := 1;
    TwoHashes(h);
    TwoClosed(z);
    TwoRing(h, z, list);
    TwoVerdict(h, list, p);
  }

  lemma TwoHashes(h: HashFn)
    requires h == TwoNames()
    ensures CaseBlind(h)
    ensures forall s: Name, p: Params ::
              h(E, s, p) == Some([48]) && h(Wildcard(E), s, p) == Some([50]) && h(AE, s, p) == Some([49])
  {
    forall a: Name, b: Name, s: Name, t: Name, p: Params | Same(a, b) && Same(s, t) ensures h(a, s, p) == h(b, t, p) {
      SameAlike(a, b, E);
      SameAlike(a, b, Wildcard(E));
    }
    SameRefl(E);
    SameRefl(Wildcard(E));
    FourDiffer();
  }

  lemma TwoClosed(z: Zone)
    requires z.apex == E && z.signed == {E, Wildcard(E)} && z.unsigned == {}
    ensures forall n :: Exists(z, n) ==> IsSuffix(z.apex, n) && (|n| > |z.apex| ==> Exists(z, n[1..]))
    ensures !Exists(z, AE)
  {
    hide SameLabel, IsSuffix;
    forall n | Exists(z, n) ensures IsSuffix(E, n) && (|n| > 1 ==> Exists(z, n[1..])) {
      TwoMembers(z, n);
      if Same(E, n) { SameIsSuffixOf(E, n); } else { FourChild(z, Wildcard(E), n); }
    }
    TwoMembers(z, AE);
    TwoDiffer();
  }

  lemma TwoMembers(z: Zone, n: Name)
    requires z.signed == {E, Wildcard(E)} && z.unsigned == {}
    ensures Exists(z, n) <==> Same(E, n) || Same(Wildcard(E), n)
  {
    hide Same;
  }

  lemma TwoDiffer()
    ensures !Same(E, AE) && !Same(Wildcard(E), AE)
  {
    assert FoldLabel([97]) == [97] && FoldLabel([42]) == [42];
    assert !SameLabel(Wildcard(E)[0], AE[0]);
  }

  lemma TwoRing(h: HashFn, z: Zone, list: seq<Record>)
    requires z.apex == E && z.signed == {E, Wildcard(E)} && z.unsigned == {}
    requires z.ring == [Link([48], false, {}), Link([50], false, {1})] && list == TwoRecords(z.params) && CaseBlind(h)
    requires h(E, E, z.params) == Some([48]) && h(Wildcard(E), E, z.params) == Some([50])
    requires forall n :: Exists(z, n) ==> IsSuffix(z.apex, n) && (|n| > |z.apex| ==> Exists(z, n[1..]))
    ensures FromZone(h, z, list) && HashedAt(h, z, Wildcard(E), 1)
  {
    FourLabels();
    hide LabelOrd, IsSuffix, Exists, CaseBlind;
    SameRefl(E);
    assert Reported({1}) == {1} && {1} != {};
    assert Bitmap({}) == None && Bitmap({1}) == Some({1});
    hide Same, Bitmap, Reported;
    assert Hashes(z) == [[48], [50]];
    assert HashedAt(h, z, E, 0) && HashedAt(h, z, Wildcard(E), 1);
    assert HashesSome(h, z, 0) && HashesSome(h, z, 1);
    assert IsLink(z, list[0], 0) && IsLink(z, list[1], 1);
    forall i: nat | i < |z.ring| ensures HashesSome(h, z, i) { assert i == 0 || i == 1; }
    forall k | 0 <= k < |list| ensures InRing(z, list[k]) { assert k == 0 || k == 1; }
    assert ValidZone(h, z);
  }

  lemma TwoVerdict(h: HashFn, list: seq<Record>, p: Params)
    requires list == TwoRecords(p)
    requires h(E, E, p) == Some([48]) && h(Wildcard(E), E, p) == Some([50]) && h(AE, E, p) == Some([49])
    ensures Judge(h, list, AE, 1, None) == Verdict(Some(0), Some(0), Some(1), true, false) && AE[1..] == E
  {
    FourLabels();
    OrdSelf(E);
    hide LabelOrd, NameOrd;
    assert AE[0..] == AE && AE[1..] == E;
    assert FirstMatch(h, list, AE, true, 1, 2) == None;
    assert FirstMatch(h, list, AE, true, 1, 1) == None;
    assert FirstMatch(h, list, AE, true, 1, 0) == None;
    assert FirstMatch(h, list, E, false, 1, 0) == Some(0);
    assert FindEncloser(h, list, AE, 1, 1) == Some(Hit(1, 0));
    assert FindEncloser(h, list, AE, 1, 0) == Some(Hit(1, 0));
    assert FirstCover(h, list, AE, false, 0) == Found(0, false);
    assert FirstCover(h, list, Wildcard(E), true, 1) == Found(1, true);
    assert FirstCover(h, list, Wildcard(E), true, 0) == Found(1, true);
    assert WireLen(E[1..]) == 1 && WireLen(E) == 3;
  }
}
