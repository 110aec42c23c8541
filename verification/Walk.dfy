/**
 The provably-insecure check of libval/val_assertion.c (verify_provably_insecure, without DLV):
 a walk from the trust anchor down to the zone cut of a query, one label at a time.  The labels
 still to go are cut off the end of one buffer and put in front of the other.  What the NS
 queries of the zone-cut search and the DS queries answer is arbitrary.
*/
module Walk {
  import opened Names
  import opened NameLength
  import CanonOrder
  import Policy

  // ----- the walk on names -----

  /**
   What a DS query for a zone cut ends in.  The signers are those of the RRSIGs that come with the
   proofs or with the answer.
  */
  datatype Chase = Fails | NotDone | NoResults | NotTrusted | MissingType(signers: seq<Name>) | MissingName
                 | Success(signer: Option<Name>, knownAlgs: Option<seq<bool>>) | Other

  /**
   What the search for a zone cut has to go by: the zone cut of an answered query for the name, or
   the end of an NS query, with the owner of the NS or SOA set of each result that has one, absent
   where its text is not a name.
  */
  datatype Search = Cached(cut: Name) | SearchFails | SearchNotDone | Results(owners: seq<Option<Name>>)

  /** What one round is told. */
  datatype Answer = Answer(search: Search, chase: Chase)

  /** The first owner that encloses the name asked about, or that name itself. */
  function CutFrom(owners: seq<Option<Name>>, asked: Name): (z: Option<Name>)
    ensures z.Some? ==> IsSuffix(z.value, asked)
  {
    if owners == [] then Some(asked)
    else if owners[0].None? then None
    else if IsSuffix(owners[0].value, asked) then owners[0]
    else CutFrom(owners[1..], asked)
  }

  /** The zone cut reported for a name, which has to enclose it. */
  function ZoneCut(search: Search, asked: Name): (z: Option<Name>)
    ensures z.Some? ==> IsSuffix(z.value, asked)
  {
    match search
    case Cached(cut) => if IsSuffix(cut, asked) then Some(cut) else None
    case Results(owners) => CutFrom(owners, asked)
    case _ => None
  }

  datatype Outcome = NotShown | NeedMore | Insecure

  /** The labels to go, the name asked about last, the zone reached; all names and zones so far. */
  datatype State = State(left: Name, next: Name, cur: Name, visited: seq<Name>, cuts: seq<Name>)

  datatype Progress = Going(state: State) | Stopped(outcome: Outcome, state: State)

  /** The records of a DS set are all for algorithms that are not known. */
  predicate AllUnknown(knownAlgs: seq<bool>) {
    forall i :: 0 <= i < |knownAlgs| ==> !knownAlgs[i]
  }

  /** There is a signer, and all are the zone reached. */
  predicate AllSigned(signers: seq<Name>, cur: Name) {
    signers != [] && forall i :: 0 <= i < |signers| ==> Same(signers[i], cur)
  }

  predicate SignedBy(signer: Option<Name>, cur: Name) {
    signer.Some? && Same(signer.value, cur)
  }

  predicate ShowsInsecure(c: Chase, cur: Name) {
    || (c.MissingType? && AllSigned(c.signers, cur))
    || (c.Success? && SignedBy(c.signer, cur) && c.knownAlgs.Some? && AllUnknown(c.knownAlgs.value))
  }

  /** The next label is moved over. */
  function Advance(s: State): State
    requires s.left != []
  {
    var next := [s.left[|s.left| - 1]] + s.next;
    s.(left := s.left[..|s.left| - 1], next := next, visited := s.visited + [next])
  }

  /** The part of a round after a zone cut to look at has been settled on. */
  function TryCut(s: State, z: Name, c: Chase): Progress {
    if IsSuffix(z, s.cur) then Stopped(NotShown, s)
    else if c.NotDone? then Stopped(NeedMore, s)
    else if c.Fails? || c.NoResults? || c.NotTrusted? then Stopped(NotShown, s)
    else if c.MissingName? then Going(s)
    else if c.Success? && !SignedBy(c.signer, s.cur) then Stopped(NotShown, s)
    else if ShowsInsecure(c, s.cur) then Stopped(Insecure, s)
    else Going(s.(cur := z, cuts := s.cuts + [z]))
  }

  function Round(s: State, qname: Name, a: Answer): Progress
    requires s.left != []
  {
    var t := Advance(s);
    var cut := ZoneCut(a.search, t.next);
    if !Same(qname, t.next) && a.search.SearchFails? then Stopped(NotShown, t)
    else if !Same(qname, t.next) && a.search.SearchNotDone? then Stopped(NeedMore, t)
    else if Same(qname, t.next) || cut.None? then
      if t.left != [] then Going(t) else TryCut(t, t.next, a.chase)
    else if Same(cut.value, t.cur) then Going(t)
    else TryCut(t, cut.value, a.chase)
  }

  function Run(s: State, qname: Name, tape: nat -> Answer): (r: (Outcome, State))
    decreases |s.left|
  {
    if s.left == [] then (NotShown, s) else
      match Round(s, qname, tape(|s.visited|))
      case Going(t) => if |t.left| < |s.left| then Run(t, qname, tape) else (NotShown, t)
      case Stopped(o, t) => (o, t)
  }

  /** Where the walk starts, if it does: 'anchor' is the zone of the closest trust anchor. */
  function Begin(qname: Name, known: Option<Name>, isDs: bool, anchor: Option<Name>): Option<State> {
    var z := if known.Some? then known.value else qname;
    if anchor.None? || !IsSuffix(anchor.value, z) || |z| == |anchor.value| then None
    else
      var y := if Same(z, qname) && isDs then z[1..] else z;
      Some(State(y[..|y| - |anchor.value|], anchor.value, anchor.value, [], []))
  }

  function Verdict(qname: Name, known: Option<Name>, isDs: bool, leaf: bool, anchor: Option<Name>, tape: nat -> Answer)
    : Outcome
  {
    if leaf then NotShown else
      match Begin(qname, known, isDs, anchor)
      case None => NotShown
      case Some(s) => Run(s, qname, tape).0
  }

  // ----- what every walk keeps -----

  /** The labels to go and the name asked about make up the starting name; the names asked about
      are its ancestors from the top, and each is asked about once. */
  predicate Kept(whole: Name, top: nat, s: State) {
    && s.left + s.next == whole && top <= |whole|
    && |s.visited| == |s.next| - top
    && forall i :: 0 <= i < |s.visited| ==> s.visited[i] == whole[|whole| - top - 1 - i..]
  }

  lemma AdvanceKeeps(whole: Name, top: nat, s: State)
    requires Kept(whole, top, s) && s.left != []
    ensures Kept(whole, top, Advance(s))
  {
    var t := Advance(s);
    assert s.left == s.left[..|s.left| - 1] + [s.left[|s.left| - 1]];
    assert t.left + t.next == whole;
    assert t.next == whole[|t.left|..];
  }

  lemma RoundMoves(s: State, qname: Name, a: Answer)
    requires s.left != []
    ensures var t := Round(s, qname, a).state;
            t.left == Advance(s).left && t.next == Advance(s).next && t.visited == Advance(s).visited
  {
  }

  /**
   Every walk, whatever the answers: one label per round, each ancestor below the anchor at most
   once from the top down, and all of them if nothing ends the walk early.
  */
  lemma {:induction false} WalkKeeps(whole: Name, top: nat, s: State, qname: Name, tape: nat -> Answer)
    requires Kept(whole, top, s)
    ensures var r := Run(s, qname, tape).1;
            Kept(whole, top, r) && |s.visited| <= |r.visited| <= |whole| - top
    decreases |s.left|
  {
    if s.left != [] {
      AdvanceKeeps(whole, top, s);
      RoundMoves(s, qname, tape(|s.visited|));
      match Round(s, qname, tape(|s.visited|))
      case Going(t) => WalkKeeps(whole, top, t, qname, tape);
      case Stopped(_, _) =>
    }
  }

  /** The zone cut of the query, or the query name; without its first label if its own DS failed. */
  function StartName(qname: Name, known: Option<Name>, isDs: bool): Name {
    var z := if known.Some? then known.value else qname;
    if Same(z, qname) && isDs && z != [] then z[1..] else z
  }

  lemma BeginKeeps(qname: Name, known: Option<Name>, isDs: bool, anchor: Option<Name>)
    ensures var r := Begin(qname, known, isDs, anchor);
            r.Some? ==>
              var whole := r.value.left + r.value.next;
              && Same(whole, StartName(qname, known, isDs)) && |anchor.value| <= |whole|
              && whole[|whole| - |anchor.value|..] == anchor.value && Kept(whole, |anchor.value|, r.value)
  {
    hide IsSuffix, Same;
    var z, r := if known.Some? then known.value else qname, Begin(qname, known, isDs, anchor);
    if r.Some? {
      var y := StartName(qname, known, isDs);
      SuffixNoLonger(anchor.value, z);
      TailIsAnchor(z, y, anchor.value);
      HeadAndAnchor(y, anchor.value);
    }
  }

  lemma TailIsAnchor(z: Name, y: Name, t: Name)
    requires IsSuffix(t, z) && |t| < |z| && (y == z || y == z[1..])
    ensures IsSuffix(t, y) && |t| <= |y|
  {
    CanonOrder.SuffixOfTail(t, z, |z| - |y|);
    assert z[0..] == z;
  }

  lemma SymmetricLabels(a: Label, b: Label)
    ensures SameLabel(a, a) && (SameLabel(a, b) <==> SameLabel(b, a))
  {
  }

  lemma HeadAndAnchor(y: Name, t: Name)
    requires IsSuffix(t, y)
    ensures Same(y[..|y| - |t|] + t, y)
  {
    hide SameLabel;
    var k := |y| - |t|;
    var whole := y[..k] + t;
    forall i | 0 <= i < |y| ensures SameLabel(whole[i], y[i]) {
      if i >= k {
        AnchorLabel(y, t, i - k);
        assert whole[i] == t[i - k];
      } else {
        SymmetricLabels(y[i], y[i]);
        assert whole[i] == y[i];
      }
    }
  }

  lemma AnchorLabel(y: Name, t: Name, j: nat)
    requires IsSuffix(t, y) && j < |t|
    ensures |t| <= |y| && SameLabel(t[j], y[|y| - |t| + j])
  {
    assert SameLabel(y[|y| - |t| + j], t[j]);
  }

  /** 'z' is properly below 'c'. */
  predicate Below(z: Name, c: Name) {
    IsSuffix(c, z) && |z| > |c|
  }

  /**
   A zone cut that the walk accepts is properly below the zone reached before it, and encloses the
   name asked about.
  */
  lemma AcceptedCut(s: State, qname: Name, a: Answer)
    requires s.left != [] && IsSuffix(s.cur, s.next) && Round(s, qname, a).state.cuts != s.cuts
    ensures var t := Round(s, qname, a).state;
            t.cuts == s.cuts + [t.cur] && Below(t.cur, s.cur) && IsSuffix(t.cur, t.next)
  {
    SuffixOfNext(s.cur, s.next, s.left[|s.left| - 1]);
    SuffixOfItself(Advance(s).next);
    CutTaken(s, qname, a);
    var t := Round(s, qname, a).state;
    hide *;
    NestedBelow(t.cur, s.cur, t.next);
  }

  /** Where an accepted zone cut comes from. */
  lemma CutTaken(s: State, qname: Name, a: Answer)
    requires s.left != [] && Round(s, qname, a).state.cuts != s.cuts
    ensures var t := Round(s, qname, a).state;
            && t.next == Advance(s).next && t.cuts == s.cuts + [t.cur] && !IsSuffix(t.cur, s.cur)
            && (t.cur == t.next || ZoneCut(a.search, t.next) == Some(t.cur))
  {
    hide IsSuffix, Same, ShowsInsecure, ZoneCut;
  }

  lemma NestedBelow(z: Name, c: Name, n: Name)
    requires IsSuffix(z, n) && IsSuffix(c, n) && !IsSuffix(z, c)
    ensures Below(z, c)
  {
    NestedOnName(z, c, n);
    SuffixLength(c, z);
  }

  lemma SuffixLength(c: Name, z: Name)
    requires !IsSuffix(z, c)
    ensures IsSuffix(c, z) ==> |z| > |c|
  {
    if IsSuffix(c, z) && |z| == |c| { MutualSuffix(c, z); }
  }

  lemma MutualSuffix(c: Name, z: Name)
    requires IsSuffix(c, z) && |z| == |c|
    ensures IsSuffix(z, c)
  {
    forall i | 0 <= i < |z| ensures SameLabel(c[|c| - |z| + i], z[i]) {
      assert SameLabel(z[|z| - |c| + i], c[i]);
    }
  }

  /** The zones reached go properly down, from 'first' on. */
  predicate Descends(first: Name, cuts: seq<Name>) {
    forall i :: 0 <= i < |cuts| ==> Below(cuts[i], Before(first, cuts, i))
  }

  /** The zone reached before the 'i'th of the cuts. */
  function Before(first: Name, cuts: seq<Name>, i: nat): Name
    requires i <= |cuts|
  {
    if i == 0 then first else cuts[i - 1]
  }

  predicate Reached(first: Name, s: State) {
    && Descends(first, s.cuts) && IsSuffix(s.cur, s.next)
    && s.cur == Before(first, s.cuts, |s.cuts|)
  }

  lemma SuffixOfNext(cur: Name, next: Name, l: Label)
    requires IsSuffix(cur, next)
    ensures IsSuffix(cur, [l] + next)
  {
    forall i | 0 <= i < |cur| ensures SameLabel(([l] + next)[|next| + 1 - |cur| + i], cur[i]) {
      assert SameLabel(next[|next| - |cur| + i], cur[i]);
    }
  }

  lemma RoundDescends(first: Name, s: State, qname: Name, a: Answer)
    requires s.left != [] && Reached(first, s)
    ensures Reached(first, Round(s, qname, a).state)
  {
    hide IsSuffix, Same, Below, Descends, ShowsInsecure, ZoneCut;
    var t, r := Advance(s), Round(s, qname, a).state;
    SuffixOfNext(s.cur, s.next, s.left[|s.left| - 1]);
    RoundMoves(s, qname, a);
    RoundCuts(s, qname, a);
    if r.cuts != s.cuts {
      AcceptedCut(s, qname, a);
      OneMore(first, s.cuts, s.cur, r.cur);
    }
  }

  lemma RoundCuts(s: State, qname: Name, a: Answer)
    requires s.left != []
    ensures var t := Round(s, qname, a).state; t.cuts == s.cuts ==> t.cur == s.cur
  {
  }

  lemma OneMore(first: Name, cuts: seq<Name>, cur: Name, z: Name)
    requires Descends(first, cuts) && Below(z, cur) && cur == Before(first, cuts, |cuts|)
    ensures Descends(first, cuts + [z])
  {
    hide Below;
  }

  lemma NestedOnName(a: Name, b: Name, n: Name)
    requires IsSuffix(a, n) && IsSuffix(b, n)
    ensures IsSuffix(a, b) || IsSuffix(b, a)
  {
    if |a| <= |b| { SuffixesNest(a, b, n); } else { SuffixesNest(b, a, n); }
  }

  /**
   In every walk, whatever the answers, every zone accepted is properly below the one before,
   starting from the trust anchor.
  */
  lemma {:induction false} WalkDescends(first: Name, s: State, qname: Name, tape: nat -> Answer)
    requires Reached(first, s)
    ensures Reached(first, Run(s, qname, tape).1)
    decreases |s.left|
  {
    hide Reached, ZoneCut, Same, IsSuffix, ShowsInsecure;
    if s.left != [] {
      var a := tape(|s.visited|);
      RoundMoves(s, qname, a);
      RoundDescends(first, s, qname, a);
      match Round(s, qname, a)
      case Going(t) => WalkDescends(first, t, qname, tape);
      case Stopped(_, _) =>
    }
  }

  /** What becomes of a zone cut that does not enclose the zone reached, for every end of its DS query. */
  lemma CutExactly(s: State, z: Name, c: Chase)
    requires !IsSuffix(z, s.cur)
    ensures TryCut(s, z, c) == Stopped(Insecure, s) <==>
              || (c.MissingType? && c.signers != [] && forall i :: 0 <= i < |c.signers| ==> Same(c.signers[i], s.cur))
              || (c.Success? && c.signer.Some? && Same(c.signer.value, s.cur) && c.knownAlgs.Some?
                  && forall i :: 0 <= i < |c.knownAlgs.value| ==> !c.knownAlgs.value[i])
    ensures TryCut(s, z, c) == Stopped(NeedMore, s) <==> c.NotDone?
    ensures TryCut(s, z, c) == Stopped(NotShown, s) <==>
              || c.Fails? || c.NoResults? || c.NotTrusted?
              || (c.Success? && (c.signer.None? || !Same(c.signer.value, s.cur)))
    ensures TryCut(s, z, c) == Going(s) <==> c.MissingName?
    ensures TryCut(s, z, c) == Going(s.(cur := z, cuts := s.cuts + [z])) <==>
              || c.Other?
              || (c.MissingType? && (c.signers == [] || exists i :: 0 <= i < |c.signers| && !Same(c.signers[i], s.cur)))
              || (c.Success? && c.signer.Some? && Same(c.signer.value, s.cur)
                  && (c.knownAlgs.None? || exists i :: 0 <= i < |c.knownAlgs.value| && c.knownAlgs.value[i]))
  {
    hide IsSuffix, Same;
    assert s.(cuts := s.cuts + [z]) != s by { assert |s.cuts + [z]| == |s.cuts| + 1; }
  }

  /** The zone cut whose DS a round asks for, if it comes to that. */
  function CutTried(s: State, qname: Name, a: Answer): Option<Name>
    requires s.left != []
  {
    var next := [s.left[|s.left| - 1]] + s.next;
    if Same(qname, next) then if |s.left| == 1 then Outside(next, s.cur) else None
    else if a.search.SearchFails? || a.search.SearchNotDone? then None
    else match ZoneCut(a.search, next)
      case None => if |s.left| == 1 then Outside(next, s.cur) else None
      case Some(z) => if Same(z, s.cur) then None else Outside(z, s.cur)
  }

  /** A zone cut that does not enclose the zone reached. */
  function Outside(z: Name, cur: Name): Option<Name> {
    if IsSuffix(z, cur) then None else Some(z)
  }

  lemma RoundTries(s: State, qname: Name, a: Answer)
    requires s.left != []
    ensures match CutTried(s, qname, a)
            case Some(z) => !IsSuffix(z, s.cur) && Round(s, qname, a) == TryCut(Advance(s), z, a.chase)
            case None => Round(s, qname, a) != Stopped(Insecure, Round(s, qname, a).state)
  {
    hide IsSuffix, Same, ZoneCut, ShowsInsecure;
  }

  /** The walk from 's' comes by the state 't'. */
  predicate Passes(s: State, t: State, qname: Name, tape: nat -> Answer)
    decreases |s.left|
  {
    s == t || (s.left != [] && match Round(s, qname, tape(|s.visited|))
                               case Going(u) => |u.left| < |s.left| && Passes(u, t, qname, tape)
                               case Stopped(_, _) => false)
  }

  /**
   The verdict 'insecure' comes from the DS query of the round that gives it: a proof that the type
   is missing, signed, and by nothing but the zone reached; or a DS set signed by that zone in which
   no algorithm is known.
  */
  lemma {:induction false} InsecureIsShown(s: State, qname: Name, tape: nat -> Answer) returns (t: State)
    requires Run(s, qname, tape).0 == Insecure
    ensures Passes(s, t, qname, tape) && t.left != [] && CutTried(t, qname, tape(|t.visited|)).Some?
    ensures var r := Run(s, qname, tape).1;
            |r.visited| == |t.visited| + 1 && |t.visited| >= |s.visited| && r.cur == t.cur
    ensures var r, c := Run(s, qname, tape).1, tape(|t.visited|).chase;
            || (c.MissingType? && c.signers != [] && forall i :: 0 <= i < |c.signers| ==> Same(c.signers[i], r.cur))
            || (c.Success? && c.signer.Some? && Same(c.signer.value, r.cur) && c.knownAlgs.Some?
                && forall i :: 0 <= i < |c.knownAlgs.value| ==> !c.knownAlgs.value[i])
    decreases |s.left|
  {
    var a := tape(|s.visited|);
    RoundTries(s, qname, a);
    RoundMoves(s, qname, a);
    match Round(s, qname, a)
    case Going(u) =>
      hide Same, IsSuffix, ZoneCut, CutTried, Round;
      t := InsecureIsShown(u, qname, tape);
    case Stopped(_, _) =>
      t := s;
      CutExactly(Advance(s), CutTried(s, qname, a).value, a.chase);
  }

  /** And such an answer, at any zone cut that a walk tries, ends the walk with it. */
  lemma {:induction false} InsecureEnds(s: State, t: State, qname: Name, tape: nat -> Answer)
    requires Passes(s, t, qname, tape) && t.left != [] && CutTried(t, qname, tape(|t.visited|)).Some?
    requires var c := tape(|t.visited|).chase;
             || (c.MissingType? && c.signers != [] && forall i :: 0 <= i < |c.signers| ==> Same(c.signers[i], t.cur))
             || (c.Success? && c.signer.Some? && Same(c.signer.value, t.cur) && c.knownAlgs.Some?
                 && forall i :: 0 <= i < |c.knownAlgs.value| ==> !c.knownAlgs.value[i])
    ensures Run(s, qname, tape).0 == Insecure
    decreases |s.left|
  {
    if s == t {
      var a := tape(|s.visited|);
      RoundTries(s, qname, a);
      CutExactly(Advance(s), CutTried(s, qname, a).value, a.chase);
      hide Same, IsSuffix, ZoneCut, CutTried, Round, TryCut;
    } else {
      hide Same, IsSuffix, ZoneCut, CutTried, Round;
      InsecureEnds(Round(s, qname, tape(|s.visited|)).state, t, qname, tape);
    }
  }

  /** The name that a round asks about. */
  function Asked(s: State): Name
    requires s.left != []
  {
    [s.left[|s.left| - 1]] + s.next
  }

  lemma RoundStops(s: State, qname: Name, a: Answer)
    requires s.left != []
    ensures !Same(qname, Asked(s)) && a.search.SearchFails? ==> Round(s, qname, a) == Stopped(NotShown, Advance(s))
    ensures !Same(qname, Asked(s)) && a.search.SearchNotDone? ==> Round(s, qname, a) == Stopped(NeedMore, Advance(s))
    ensures Round(s, qname, a) == Stopped(NeedMore, Advance(s)) ==>
              || (!Same(qname, Asked(s)) && a.search.SearchNotDone?)
              || (CutTried(s, qname, a).Some? && a.chase.NotDone?)
    ensures CutTried(s, qname, a).Some? && a.chase.NotDone? ==> Round(s, qname, a) == Stopped(NeedMore, Advance(s))
  {
    hide IsSuffix, Same, ZoneCut, ShowsInsecure;
  }

  /**
   A round whose NS query fails ends the walk with nothing shown.  The walk is to be resumed if and
   only if it comes to a round whose NS query, or whose DS query at a zone cut that is tried, is not
   done.
  */
  lemma {:induction false} UnansweredEnds(s: State, t: State, qname: Name, tape: nat -> Answer)
    requires Passes(s, t, qname, tape) && t.left != []
    ensures var a := tape(|t.visited|);
            && (!Same(qname, Asked(t)) && a.search.SearchFails? ==> Run(s, qname, tape).0 == NotShown)
            && (!Same(qname, Asked(t)) && a.search.SearchNotDone? ==> Run(s, qname, tape).0 == NeedMore)
            && (CutTried(t, qname, a).Some? && a.chase.NotDone? ==> Run(s, qname, tape).0 == NeedMore)
    decreases |s.left|
  {
    hide Same, IsSuffix, ZoneCut, CutTried, Round, Advance;
    if s == t {
      RoundStops(s, qname, tape(|s.visited|));
    } else {
      UnansweredEnds(Round(s, qname, tape(|s.visited|)).state, t, qname, tape);
    }
  }

  lemma {:induction false} NeedMoreIsUnanswered(s: State, qname: Name, tape: nat -> Answer) returns (t: State)
    requires Run(s, qname, tape).0 == NeedMore
    ensures Passes(s, t, qname, tape) && t.left != []
    ensures var a := tape(|t.visited|);
            || (!Same(qname, Asked(t)) && a.search.SearchNotDone?)
            || (CutTried(t, qname, a).Some? && a.chase.NotDone?)
    decreases |s.left|
  {
    hide Same, IsSuffix, ZoneCut, CutTried, Round, Advance, Asked;
    match Round(s, qname, tape(|s.visited|))
    case Going(u) =>
      t := NeedMoreIsUnanswered(u, qname, tape);
    case Stopped(_, _) =>
      t := s;
      RoundStops(s, qname, tape(|s.visited|));
      RoundState(s, qname, tape(|s.visited|));
  }

  lemma RoundState(s: State, qname: Name, a: Answer)
    requires s.left != []
    ensures Round(s, qname, a).Stopped? ==> Round(s, qname, a).state == Advance(s)
  {
    hide IsSuffix, Same, ZoneCut, ShowsInsecure;
  }

  /**
   The walk that the check makes: it starts at the trust anchor, and what the lemmas above say of
   every walk holds of it.
  */
  lemma WalkFromAnchor(qname: Name, known: Option<Name>, isDs: bool, anchor: Option<Name>, tape: nat -> Answer)
    requires Begin(qname, known, isDs, anchor).Some?
    ensures var s := Begin(qname, known, isDs, anchor).value;
            var whole, top, r := s.left + s.next, |anchor.value|, Run(s, qname, tape).1;
            && Same(whole, StartName(qname, known, isDs)) && Kept(whole, top, r)
            && (r.left == [] ==> |r.visited| == |whole| - top)
            && Descends(anchor.value, r.cuts)
  {
    hide Same, IsSuffix, Kept, Descends, Run;
    BeginKeeps(qname, known, isDs, anchor);
    var s := Begin(qname, known, isDs, anchor).value;
    var whole, top := s.left + s.next, |anchor.value|;
    WalkKeeps(whole, top, s, qname, tape);
    VisitedAll(whole, top, Run(s, qname, tape).1);
    SuffixOfItself(s.next);
    NoCuts(anchor.value);
    WalkDescends(anchor.value, s, qname, tape);
  }

  lemma NoCuts(first: Name)
    ensures Descends(first, [])
  {
  }

  lemma VisitedAll(whole: Name, top: nat, s: State)
    requires Kept(whole, top, s)
    ensures s.left == [] ==> |s.visited| == |whole| - top
  {
  }

  // ----- the walk on buffers -----

  /** Octets before a name do not matter to it. */
  lemma {:induction false} NameAtFrom(w: seq<Byte>, v: seq<Byte>, p: nat)
    requires IsNameAt(w, p) && |v| == |w| && forall i :: p <= i < |w| ==> v[i] == w[i]
    ensures IsNameAt(v, p) && NameAt(v, p) == NameAt(w, p)
    decreases |w| - p
  {
    if w[p] != 0 {
      NameAtFrom(w, v, p + 1 + w[p]);
      assert v[p + 1..p + 1 + v[p]] == w[p + 1..p + 1 + w[p]];
    }
  }

  /** Where the 'k'th label of the name at 'pos' starts. */
  function LabelPos(w: seq<Byte>, pos: nat, k: nat): (p: nat)
    requires IsNameAt(w, pos) && k <= |NameAt(w, pos)|
    ensures p >= pos
    decreases k
  {
    if k == 0 then pos else
      NameAtCons(w, pos);
      LabelPos(w, pos + 1 + w[pos], k - 1)
  }

  lemma {:induction false} LabelPosIs(w: seq<Byte>, pos: nat, k: nat)
    requires IsNameAt(w, pos) && k <= |NameAt(w, pos)|
    ensures var n, p := NameAt(w, pos), LabelPos(w, pos, k);
            && IsNameAt(w, p) && NameAt(w, p) == n[k..] && (w[p] == 0 <==> k == |n|)
            && (k < |n| ==> LabelPos(w, pos, k + 1) == p + 1 + w[p])
    decreases k
  {
    var n := NameAt(w, pos);
    if k == 0 {
      assert n[0..] == n;
    } else {
      hide NameAt, IsNameAt;
      NameAtCons(w, pos);
      LabelPosIs(w, pos + 1 + w[pos], k - 1);
      assert n[1..][k - 1..] == n[k..];
    }
  }

  /** A root octet written over the start of a label ends the name there. */
  lemma {:induction false} CutHere(w: seq<Byte>, pos: nat, k: nat)
    requires IsNameAt(w, pos) && k <= |NameAt(w, pos)| && LabelPos(w, pos, k) < |w|
    ensures var v := w[LabelPos(w, pos, k) := 0];
            IsNameAt(v, pos) && NameAt(v, pos) == NameAt(w, pos)[..k]
    decreases k
  {
    LabelPosFirst(w, pos, k);
    hide *;
    if k == 0 {
      RootAt(w[pos := 0], pos);
      assert NameAt(w, pos)[..0] == [];
    } else {
      CutHere(w, pos + 1 + w[pos], k - 1);
      CutStep(w, pos, k, LabelPos(w, pos, k));
    }
  }

  lemma CutStep(w: seq<Byte>, pos: nat, k: nat, p: nat)
    requires IsNameAt(w, pos) && 0 < k <= |NameAt(w, pos)| && w[pos] != 0 && pos + 1 + w[pos] <= p < |w|
    requires var q, v := pos + 1 + w[pos], w[p := 0];
             && IsNameAt(w, q) && k - 1 <= |NameAt(w, q)|
             && IsNameAt(v, q) && NameAt(v, q) == NameAt(w, q)[..k - 1]
    ensures var v := w[p := 0]; IsNameAt(v, pos) && NameAt(v, pos) == NameAt(w, pos)[..k]
  {
    hide *;
    NameAtCons(w, pos);
    EncodedLabel(w, pos);
    TakeTail(NameAt(w, pos), k);
    BeforeUpdate(w, p, pos + 1 + w[pos]);
    CutOneMore(w, w[p := 0], pos, NameAt(w, pos)[..k]);
  }

  lemma TakeTail(n: Name, k: nat)
    requires 0 < k <= |n|
    ensures n[..k][1..] == n[1..][..k - 1] && n[..k][0] == n[0]
  {
  }

  lemma BeforeUpdate(w: seq<Byte>, p: nat, q: nat)
    requires q <= p < |w|
    ensures w[p := 0][..q] == w[..q]
  {
  }

  lemma LabelPosFirst(w: seq<Byte>, pos: nat, k: nat)
    requires IsNameAt(w, pos) && k <= |NameAt(w, pos)|
    ensures k == 0 ==> LabelPos(w, pos, k) == pos
    ensures k > 0 ==> && w[pos] != 0 && IsNameAt(w, pos + 1 + w[pos]) && k - 1 <= |NameAt(w, pos + 1 + w[pos])|
                      && LabelPos(w, pos, k) == LabelPos(w, pos + 1 + w[pos], k - 1) >= pos + 1 + w[pos]
  {
    if k > 0 { NameAtCons(w, pos); }
  }

  lemma RootAt(w: seq<Byte>, pos: nat)
    requires pos < |w| && w[pos] == 0
    ensures IsNameAt(w, pos) && NameAt(w, pos) == []
  {
  }

  lemma CutOneMore(w: seq<Byte>, v: seq<Byte>, pos: nat, n: Name)
    requires n != [] && pos < |w| == |v| && w[pos] == |n[0]| && 1 <= |n[0]| <= MAXLABEL
    requires var q := pos + 1 + |n[0]|;
             && q <= |w| && v[..q] == w[..q] && w[pos + 1..q] == n[0]
             && IsNameAt(v, q) && NameAt(v, q) == n[1..]
    ensures IsNameAt(v, pos) && NameAt(v, pos) == n
  {
    var q := pos + 1 + |n[0]|;
    assert v[pos] == v[..q][pos] == w[..q][pos];
    assert v[pos + 1..q] == v[..q][pos + 1..] == w[..q][pos + 1..] == w[pos + 1..q];
    NameAtStep(v, pos, n);
  }

  lemma EncodedLabel(w: seq<Byte>, pos: nat)
    requires IsNameAt(w, pos) && w[pos] != 0
    ensures 1 <= w[pos] <= MAXLABEL && pos + 1 + w[pos] <= |w| && NameAt(w, pos) != []
    ensures |NameAt(w, pos)[0]| == w[pos]
  {
  }

  /** A one-label name at 'p' put in front of another, in a new buffer (APPEND_LABEL). */
  method AppendLabel(w: seq<Byte>, p: nat, name: array<Byte>) returns (r: array<Byte>)
    requires IsNameAt(w, p) && |NameAt(w, p)| == 1
    requires IsNameAt(name[..], 0) && ValidName(NameAt(name[..], 0))
    ensures fresh(r) && IsNameAt(r[..], 0) && NameAt(r[..], 0) == NameAt(w, p) + NameAt(name[..], 0)
  {
    JoinedReads(w, p, name[..]);
    hide *;
    var len1 := WireNameLength(w, p);
    var len2 := WireNameLength(name[..], 0);
    r := Joined(w, p, len1 - 1, name[..], len2);
  }

  /** What APPEND_LABEL builds reads as the label and the name. */
  lemma JoinedReads(w: seq<Byte>, p: nat, name: seq<Byte>)
    requires IsNameAt(w, p) && |NameAt(w, p)| == 1 && IsNameAt(name, 0)
    ensures var l1, l2 := WireLen(NameAt(w, p)), WireLen(NameAt(name, 0));
            && 2 <= l1 <= MAXCDNAME && l2 <= |name| && p + l1 <= |w|
            && var r := w[p..p + (l1 - 1)] + name[..l2];
               IsNameAt(r, 0) && NameAt(r, 0) == NameAt(w, p) + NameAt(name, 0)
  {
    var n, m := NameAt(w, p), NameAt(name, 0);
    EncodeNameAt(w, p);
    EncodeNameAt(name, 0);
    OneLabelLength(n);
    ReadsAsJoined(n, m);
    hide NameAt, IsNameAt, WireLen, Encode;
    var l1 := WireLen(n);
    SliceOfSlice(w, p, p + l1, 0, l1 - 1);
    assert name[..WireLen(m)] == name[0..WireLen(m)];
    assert Encode(n)[..l1 - 1] == Encode(n)[0..l1 - 1];
  }

  /** The two copies of APPEND_LABEL. */
  method Joined(w: seq<Byte>, p: nat, len1: nat, name: seq<Byte>, len2: nat) returns (r: array<Byte>)
    requires p + len1 <= |w| && len2 <= |name|
    ensures fresh(r) && r[..] == w[p..p + len1] + name[..len2]
  {
    r := new Byte[len1 + len2];
    forall i | 0 <= i < len1 {
      r[i] := w[p + i];
    }
    forall i | 0 <= i < len2 {
      r[len1 + i] := name[i];
    }
  }

  lemma OneLabelLength(n: Name)
    requires |n| == 1 && ValidLabels(n)
    ensures 2 <= WireLen(n) == 2 + |n[0]| <= MAXCDNAME
  {
    assert WireLen(n[1..]) == 1;
  }

  /** The wire form of one label without its root octet, then a wire form, is one wire form. */
  lemma ReadsAsJoined(n: Name, m: Name)
    requires |n| == 1 && ValidLabels(n) && ValidLabels(m)
    ensures var e := Encode(n)[..WireLen(n) - 1] + Encode(m);
            IsNameAt(e, 0) && NameAt(e, 0) == n + m
  {
    OneLabelLength(n);
    var e := Encode(n)[..WireLen(n) - 1] + Encode(m);
    assert Encode(n)[..WireLen(n) - 1] == [|n[0]|] + n[0] by { OneLabelEncoding(n); }
    assert (n + m)[0] == n[0] && (n + m)[1..] == m;
    assert e == Encode(n + m);
    assert e[0..|e|] == e;
    NameAtEncode(e, 0, n + m);
  }

  lemma OneLabelEncoding(n: Name)
    requires |n| == 1 && ValidLabels(n)
    ensures Encode(n) == [|n[0]|] + n[0] + [0]
  {
    assert Encode(n[1..]) == [0];
  }

  /**
   CUT_AND_APPEND_LABEL: the last label of the name in the first buffer is cut off it in place,
   and put in front of the second name, which moves to a new buffer.
  */
  method CutAndAppend(buf: array<Byte>, pos: nat, name: array<Byte>) returns (r: array<Byte>)
    requires IsNameAt(buf[..], pos) && IsNameAt(name[..], 0) && ValidName(NameAt(name[..], 0))
    modifies buf
    ensures var q, n := NameAt(old(buf[..]), pos), NameAt(old(name[..]), 0);
            if q == [] then r == name && buf[..] == old(buf[..])
            else && fresh(r) && IsNameAt(r[..], 0) && NameAt(r[..], 0) == [q[|q| - 1]] + n
                 && IsNameAt(buf[..], pos) && NameAt(buf[..], pos) == q[..|q| - 1]
  {
    ghost var w := buf[..];
    ghost var q := NameAt(w, pos);
    hide *;
    var prevptr := LastLabel(buf, pos);
    if prevptr.None? {
      return name;
    }
    LastLabelIs(w, pos);
    r := AppendLabel(buf[..], prevptr.value, name);
    PutRoot(buf, pos, prevptr.value);
  }

  lemma LastLabelIs(w: seq<Byte>, pos: nat)
    requires IsNameAt(w, pos) && NameAt(w, pos) != []
    ensures var q := NameAt(w, pos);
            var p := LabelPos(w, pos, |q| - 1);
            p < |w| && IsNameAt(w, p) && NameAt(w, p) == [q[|q| - 1]]
  {
    hide IsNameAt, NameAt, LabelPos;
    PosAt(w, pos, |NameAt(w, pos)| - 1);
  }

  /** The root octet is written over the last label. */
  method PutRoot(buf: array<Byte>, pos: nat, p: nat)
    requires IsNameAt(buf[..], pos) && NameAt(buf[..], pos) != []
    requires p == LabelPos(buf[..], pos, |NameAt(buf[..], pos)| - 1) && p < buf.Length
    modifies buf
    ensures var q := NameAt(old(buf[..]), pos);
            IsNameAt(buf[..], pos) && NameAt(buf[..], pos) == q[..|q| - 1]
  {
    ghost var w := buf[..];
    hide *;
    CutHere(w, pos, |NameAt(w, pos)| - 1);
    buf[p] := 0;
    assert buf[..] == w[p := 0];
  }

  /** The loop of CUT_AND_APPEND_LABEL: where the last label starts, if there is one. */
  method LastLabel(buf: array<Byte>, pos: nat) returns (prevptr: Option<nat>)
    requires IsNameAt(buf[..], pos)
    ensures var q := NameAt(buf[..], pos);
            prevptr == if q == [] then None else Some(LabelPos(buf[..], pos, |q| - 1))
  {
    ghost var w := buf[..];
    ghost var q := NameAt(w, pos);
    hide *;
    var stptr: nat := pos;
    prevptr := None;
    ghost var k: nat := 0;
    FirstLabelPos(w, pos);
    while buf[stptr] != 0
      invariant stptr < buf.Length && buf[..] == w && Scanned(w, pos, stptr, prevptr, k)
      decreases |q| - k
    {
      NextLabelPos(w, pos, stptr, prevptr, k);
      prevptr := Some(stptr);
      stptr := stptr + 1 + buf[stptr];
      k := k + 1;
    }
    NextLabelPos(w, pos, stptr, prevptr, k);
  }

  /** The loop has passed 'k' labels, and remembers where the last of them starts. */
  predicate Scanned(w: seq<Byte>, pos: nat, stptr: nat, prevptr: Option<nat>, k: nat)
    requires IsNameAt(w, pos)
  {
    && k <= |NameAt(w, pos)| && stptr == LabelPos(w, pos, k)
    && prevptr == if k == 0 then None else Some(LabelPos(w, pos, k - 1))
  }

  lemma FirstLabelPos(w: seq<Byte>, pos: nat)
    requires IsNameAt(w, pos)
    ensures pos < |w| && Scanned(w, pos, pos, None, 0)
  {
  }

  lemma NextLabelPos(w: seq<Byte>, pos: nat, stptr: nat, prevptr: Option<nat>, k: nat)
    requires IsNameAt(w, pos) && Scanned(w, pos, stptr, prevptr, k)
    ensures stptr < |w| && k <= |NameAt(w, pos)| && (w[stptr] == 0 <==> k == |NameAt(w, pos)|)
    ensures w[stptr] != 0 ==> Scanned(w, pos, stptr + 1 + w[stptr], Some(stptr), k + 1)
    ensures w[stptr] != 0 ==> stptr + 1 + w[stptr] < |w|
    ensures w[stptr] == 0 ==> prevptr == if NameAt(w, pos) == [] then None
              else Some(LabelPos(w, pos, |NameAt(w, pos)| - 1))
  {
    hide NameAt, IsNameAt, LabelPos;
    PosAt(w, pos, k);
    if k < |NameAt(w, pos)| { PosAt(w, pos, k + 1); }
  }

  lemma PosAt(w: seq<Byte>, pos: nat, k: nat)
    requires IsNameAt(w, pos) && k <= |NameAt(w, pos)|
    ensures var n, p := NameAt(w, pos), LabelPos(w, pos, k);
            && p < |w| && IsNameAt(w, p) && NameAt(w, p) == n[k..] && (w[p] == 0 <==> k == |n|)
            && (k < |n| ==> LabelPos(w, pos, k + 1) == p + 1 + w[p])
            && LabelPos(w, pos, 0) == pos
  {
    LabelPosIs(w, pos, k);
  }

  /** namecmp as a test of two names. */
  method SameName(a: Name, b: Name) returns (same: bool)
    requires ValidName(a) && ValidName(b)
    ensures same == Same(a, b)
  {
    LengthOfEncoding(a);
    LengthOfEncoding(b);
    FewLabels(a);
    FewLabels(b);
    CanonOrder.NameOrdZero(a, b);
    hide WireLen, Encode, NameAt, IsNameAt, CanonOrder.NameOrd, Same;
    var d := CanonOrder.BufCmp(Encode(a), 0, Encode(b), 0);
    return d == 0;
  }

  /** The buffers hold the labels to go and the name asked about last. */
  predicate Holds(labels: seq<Byte>, off: nat, name: seq<Byte>, s: State) {
    && IsNameAt(labels, off) && NameAt(labels, off) == s.left
    && IsNameAt(name, 0) && NameAt(name, 0) == s.next
  }

  predicate AllValid(s: State) {
    ValidName(s.left + s.next) && ValidName(s.cur)
  }

  predicate ValidAnswer(a: Answer) {
    && (a.search.Cached? ==> ValidName(a.search.cut))
    && (a.search.Results? ==> forall i :: 0 <= i < |a.search.owners| && a.search.owners[i].Some? ==>
          ValidName(a.search.owners[i].value))
    && (a.chase.MissingType? ==> forall i :: 0 <= i < |a.chase.signers| ==> ValidName(a.chase.signers[i]))
    && (a.chase.Success? && a.chase.signer.Some? ==> ValidName(a.chase.signer.value))
  }

  lemma {:induction false} CutFromStep(owners: seq<Option<Name>>, asked: Name, i: nat)
    requires i < |owners| && forall j :: 0 <= j < i ==> owners[j].Some? && !IsSuffix(owners[j].value, asked)
    ensures owners[i].None? ==> CutFrom(owners, asked) == None
    ensures owners[i].Some? && IsSuffix(owners[i].value, asked) ==> CutFrom(owners, asked) == owners[i]
    decreases i
  {
    hide IsSuffix;
    if i > 0 {
      assert forall j :: 0 <= j < i - 1 ==> owners[1..][j] == owners[j + 1];
      CutFromStep(owners[1..], asked, i - 1);
    }
  }

  lemma {:induction false} CutFromEnd(owners: seq<Option<Name>>, asked: Name)
    requires forall j :: 0 <= j < |owners| ==> owners[j].Some? && !IsSuffix(owners[j].value, asked)
    ensures CutFrom(owners, asked) == Some(asked)
  {
    hide IsSuffix;
    if owners != [] { CutFromEnd(owners[1..], asked); }
  }

  /** The part of find_next_zonecut that goes through the results of the NS query. */
  method SearchResults(owners: seq<Option<Name>>, asked: Name) returns (cut: Option<Name>)
    ensures cut == CutFrom(owners, asked)
  {
    hide IsSuffix, CutFrom;
    for i := 0 to |owners|
      invariant forall j :: 0 <= j < i ==> owners[j].Some? && !IsSuffix(owners[j].value, asked)
    {
      CutFromStep(owners, asked, i);
      if owners[i].None? {
        return None;
      }
      var within := CanonOrder.NameName(asked, owners[i].value);
      if within.Some? {
        return owners[i];
      }
    }
    CutFromEnd(owners, asked);
    return Some(asked);
  }

  /** find_next_zonecut: whether it succeeded, whether it is done, and the zone cut if there is one. */
  method FindNextZonecut(search: Search, asked: Name) returns (found: bool, done: bool, cut: Option<Name>)
    ensures found == !search.SearchFails? && (found ==> done == !search.SearchNotDone?)
    ensures cut == ZoneCut(search, asked)
  {
    hide IsSuffix, CutFrom;
    var zonecut: Option<Name> := None;
    match search {
      case Cached(z) => zonecut := Some(z);
      case SearchFails => return false, true, None;
      case SearchNotDone => return true, false, None;
      case Results(owners) =>
        zonecut := SearchResults(owners, asked);
        if zonecut.None? {
          return true, true, None;
        }
    }
    var within := CanonOrder.NameName(asked, zonecut.value);
    return true, true, if within.Some? then zonecut else None;
  }

  lemma {:induction false} CutFromValid(owners: seq<Option<Name>>, asked: Name)
    requires ValidName(asked)
    requires forall i :: 0 <= i < |owners| && owners[i].Some? ==> ValidName(owners[i].value)
    ensures CutFrom(owners, asked).Some? ==> ValidName(CutFrom(owners, asked).value)
  {
    hide IsSuffix, ValidName;
    if owners != [] { CutFromValid(owners[1..], asked); }
  }

  lemma CutValid(a: Answer, asked: Name)
    requires ValidAnswer(a) && ValidName(asked)
    ensures ZoneCut(a.search, asked).Some? ==> ValidName(ZoneCut(a.search, asked).value)
  {
    hide IsSuffix, ValidName, CutFrom;
    if a.search.Results? { CutFromValid(a.search.owners, asked); }
  }

  /** The zone cuts seen in the RRSIGs against the one expected, for a proof of non-existence. */
  method VerifyZonecutInRrsig(signers: seq<Name>, cur: Name) returns (ok: bool)
    requires ValidName(cur) && forall i :: 0 <= i < |signers| ==> ValidName(signers[i])
    ensures ok == AllSigned(signers, cur)
  {
    hide Same, ValidName;
    var seen := false;
    for i := 0 to |signers|
      invariant seen == (i > 0) && forall j :: 0 <= j < i ==> Same(signers[j], cur)
    {
      seen := true;
      var same := SameName(signers[i], cur);
      if !same {
        return false;
      }
    }
    return seen;
  }

  lemma PartsValid(s: State)
    requires AllValid(s) && s.left != []
    ensures ValidName(s.next) && AllValid(Advance(s)) && ValidName(Advance(s).next)
  {
    var t, w := Advance(s), s.left + s.next;
    assert t.left + t.next == w;
    assert s.next == w[|s.left|..] && t.next == w[|t.left|..];
    hide WireLen, ValidLabels;
    TailValid(w, |s.left|);
    TailValid(w, |t.left|);
  }

  lemma OneSigner(signer: Option<Name>, cur: Name)
    ensures AllSigned(if signer.Some? then [signer.value] else [], cur) == SignedBy(signer, cur)
  {
    if signer.Some? { assert [signer.value][0] == signer.value; }
  }

  /** The end of a round of the loop, once there is a zone cut to look at. */
  method ExamineCut(z: Name, chase: Chase, ghost s: State, cur: Name) returns (o: Option<Outcome>, moved: bool)
    requires cur == s.cur && ValidName(cur) && ValidAnswer(Answer(SearchFails, chase))
    ensures TryCut(s, z, chase) ==
              if o.Some? then Stopped(o.value, s) else Going(if moved then s.(cur := z, cuts := s.cuts + [z]) else s)
  {
    hide IsSuffix, Same, ValidName;
    moved := false;
    var above := CanonOrder.NameName(cur, z);
    if above.Some? || chase.Fails? {
      return Some(NotShown), false;
    }
    if chase.NotDone? {
      return Some(NeedMore), false;
    }
    if chase.NoResults? || chase.NotTrusted? {
      return Some(NotShown), false;
    }
    var insecure := false;
    if chase.MissingType? {
      insecure := VerifyZonecutInRrsig(chase.signers, cur);
    } else if chase.MissingName? {
      return None, false;
    } else if chase.Success? {
      var signers := if chase.signer.Some? then [chase.signer.value] else [];
      var sameCut := VerifyZonecutInRrsig(signers, cur);
      OneSigner(chase.signer, cur);
      if !sameCut {
        return Some(NotShown), false;
      }
      if chase.knownAlgs.Some? {
        insecure := true;
        var algs := chase.knownAlgs.value;
        for i := 0 to |algs|
          invariant insecure == forall j :: 0 <= j < i ==> !algs[j]
        {
          if algs[i] {
            insecure := false;
          }
        }
      }
    }
    if insecure {
      return Some(Insecure), false;
    }
    return None, true;
  }

  /** One round of the loop. */
  method StepDown(labels: array<Byte>, off: nat, name: array<Byte>, cur: Name, qname: Name, a: Answer, ghost s: State)
    returns (name': array<Byte>, o: Option<Outcome>, cur': Name, ghost t: State)
    requires Holds(labels[..], off, name[..], s) && cur == s.cur && AllValid(s) && s.left != []
    requires ValidName(qname) && ValidAnswer(a)
    modifies labels
    ensures fresh(name') && Holds(labels[..], off, name'[..], t) && cur' == t.cur && AllValid(t)
    ensures Round(s, qname, a) == if o.Some? then Stopped(o.value, t) else Going(t)
  {
    PartsValid(s);
    name' := CutAndAppend(labels, off, name);
    t := Advance(s);
    cur' := cur;
    var next := NameAt(name'[..], 0);
    var more := labels[off] != 0;
    assert more == (t.left != []);
    CutValid(a, next);
    hide Same, IsSuffix, NameAt, IsNameAt, WireLen, TryCut, ZoneCut, ValidName;
    var zonecut: Option<Name> := None;
    var reached := SameName(qname, next);
    if !reached {
      var found, done, cut := FindNextZonecut(a.search, next);
      if !found {
        return name', Some(NotShown), cur', t;
      } else if !done {
        return name', Some(NeedMore), cur', t;
      }
      zonecut := cut;
    }
    if zonecut.None? {
      if more {
        return name', None, cur', t;
      }
      zonecut := Some(next);
    } else {
      var same := SameName(zonecut.value, cur);
      if same {
        return name', None, cur', t;
      }
    }
    var moved;
    o, moved := ExamineCut(zonecut.value, a.chase, t, cur);
    if moved && o.None? {
      cur' := zonecut.value;
      t := t.(cur := zonecut.value, cuts := t.cuts + [zonecut.value]);
    }
  }

  ghost predicate ValidTape(tape: nat -> Answer) {
    forall i: nat :: ValidAnswer(tape(i))
  }

  /** A name in wire form in a buffer of its own. */
  method NewBuffer(n: Name) returns (r: array<Byte>)
    requires ValidName(n)
    ensures fresh(r) && IsNameAt(r[..], 0) && NameAt(r[..], 0) == n
  {
    LengthOfEncoding(n);
    hide Encode, NameAt, IsNameAt, WireLen;
    var w := Encode(n);
    r := new Byte[|w|];
    forall i | 0 <= i < |w| {
      r[i] := w[i];
    }
    assert r[..] == w;
  }

  /** The name without what follows its first 'k' labels, as writing a root octet there leaves it. */
  method CutAfter(buf: array<Byte>, off: nat, k: nat)
    requires IsNameAt(buf[..], off) && k <= |NameAt(buf[..], off)|
    modifies buf
    ensures IsNameAt(buf[..], off) && NameAt(buf[..], off) == NameAt(old(buf[..]), off)[..k]
  {
    ghost var w := buf[..];
    hide *;
    var p := LabelAt(buf[..], off, k);
    CutHere(w, off, k);
    buf[p] := 0;
    assert buf[..] == w[p := 0];
  }

  method LabelAt(w: seq<Byte>, off: nat, k: nat) returns (p: nat)
    requires IsNameAt(w, off) && k <= |NameAt(w, off)|
    ensures p == LabelPos(w, off, k) < |w|
  {
    hide *;
    var j: nat := 0;
    p := off;
    PosAt(w, off, 0);
    while j < k
      invariant j <= k && p == LabelPos(w, off, j) < |w|
    {
      PosAt(w, off, j);
      PosAt(w, off, j + 1);
      p, j := p + 1 + w[p], j + 1;
    }
  }

  lemma RunStep(s: State, qname: Name, tape: nat -> Answer)
    requires s.left != []
    ensures var p := Round(s, qname, tape(|s.visited|));
            && (p.Going? ==> Run(s, qname, tape) == Run(p.state, qname, tape) && |p.state.left| < |s.left|)
            && (p.Stopped? ==> Run(s, qname, tape) == (p.outcome, p.state))
    ensures |Round(s, qname, tape(|s.visited|)).state.visited| == |s.visited| + 1
  {
    RoundMoves(s, qname, tape(|s.visited|));
  }

  /** The loop of the check. */
  method WalkDown(labels: array<Byte>, off: nat, first: Name, qname: Name, tape: nat -> Answer, ghost start: State)
    returns (o: Outcome)
    requires IsNameAt(labels[..], off) && NameAt(labels[..], off) == start.left
    requires start.next == first == start.cur && start.visited == [] && AllValid(start)
    requires ValidName(qname) && ValidTape(tape)
    modifies labels
    ensures o == Run(start, qname, tape).0
  {
    ghost var s := start;
    hide *;
    StartValid(start);
    var name := NewBuffer(first);
    var cur, round: nat := first, 0;
    Stand(labels[..], off, name[..], cur, round, s);
    while labels[off] != 0
      invariant off < labels.Length && name != labels && fresh(name)
      invariant Standing(labels[..], off, name[..], cur, round, s)
      invariant Run(start, qname, tape) == Run(s, qname, tape)
      decreases |s.left|
    {
      Unpack(labels[..], off, name[..], cur, round, s);
      RunStep(s, qname, tape);
      TapeValid(tape, round);
      var stop: Option<Outcome>;
      ghost var t := s;
      name, stop, cur, t := StepDown(labels, off, name, cur, qname, tape(round), s);
      if stop.Some? {
        return stop.value;
      }
      s, round := t, round + 1;
      Held(labels[..], off, name[..], s);
      Stand(labels[..], off, name[..], cur, round, s);
    }
    Unpack(labels[..], off, name[..], cur, round, s);
    RunEnds(s, qname, tape);
    return NotShown;
  }

  /** The variables of the loop hold the state 's'. */
  predicate Standing(labels: seq<Byte>, off: nat, name: seq<Byte>, cur: Name, round: nat, s: State) {
    Holds(labels, off, name, s) && AllValid(s) && cur == s.cur && round == |s.visited|
  }

  lemma Stand(labels: seq<Byte>, off: nat, name: seq<Byte>, cur: Name, round: nat, s: State)
    requires IsNameAt(labels, off) && NameAt(labels, off) == s.left && IsNameAt(name, 0) && NameAt(name, 0) == s.next
    requires AllValid(s) && cur == s.cur && round == |s.visited|
    ensures Standing(labels, off, name, cur, round, s) && off < |labels|
  {
  }

  lemma Held(labels: seq<Byte>, off: nat, name: seq<Byte>, s: State)
    requires Holds(labels, off, name, s)
    ensures IsNameAt(labels, off) && NameAt(labels, off) == s.left && IsNameAt(name, 0) && NameAt(name, 0) == s.next
  {
  }

  lemma Unpack(labels: seq<Byte>, off: nat, name: seq<Byte>, cur: Name, round: nat, s: State)
    requires Standing(labels, off, name, cur, round, s)
    ensures Holds(labels, off, name, s) && AllValid(s) && cur == s.cur && round == |s.visited|
    ensures off < |labels| && (labels[off] == 0 <==> s.left == [])
  {
    hide AllValid;
    LeftIsRead(labels, off, s);
  }

  lemma StartValid(s: State)
    requires AllValid(s)
    ensures ValidName(s.cur)
  {
  }

  lemma LeftIsRead(w: seq<Byte>, off: nat, s: State)
    requires IsNameAt(w, off) && NameAt(w, off) == s.left
    ensures off < |w| && (w[off] == 0 <==> s.left == [])
  {
  }

  lemma TapeValid(tape: nat -> Answer, i: nat)
    requires ValidTape(tape)
    ensures ValidAnswer(tape(i))
  {
  }

  lemma RunEnds(s: State, qname: Name, tape: nat -> Answer)
    requires s.left == []
    ensures Run(s, qname, tape).0 == NotShown
  {
  }

  /** The zone of the closest trust anchor, in the spelling of the name. */
  function Anchor(list: seq<Policy.Entry>, n: Name): (r: Option<Name>)
    requires Policy.AllWellFormed(list)
    ensures r.Some? ==> IsSuffix(r.value, n)
  {
    match Policy.FirstApplies(list, n, false, 0)
    case None => None
    case Some(i) =>
      var k := |n| - |Policy.Zone(list[i])|;
      SuffixIsSame(Policy.Zone(list[i]), n);
      Some(n[k..])
  }

  lemma JoinValid(y: Name, t: Name)
    requires ValidName(y) && ValidName(t) && IsSuffix(t, y)
    ensures |t| <= |y| && ValidName(y[..|y| - |t|] + t)
  {
    HeadAndAnchor(y, t);
    SameWireLen(y[..|y| - |t|] + t, y);
  }

  /** verify_provably_insecure, with the trust anchors as a list and the other answers on a tape. */
  method VerifyProvablyInsecure(anchors: seq<Policy.Entry>, qname: seq<Byte>, known: Option<Name>, isDs: bool,
                                leaf: bool, tape: nat -> Answer)
    returns (o: Outcome)
    requires Policy.AllWellFormed(anchors) && Policy.Sorted(anchors)
    requires IsNameAt(qname, 0) && ValidName(NameAt(qname, 0)) && (known.Some? ==> ValidName(known.value))
    requires ValidTape(tape)
    ensures var n := NameAt(qname, 0); o == Verdict(n, known, isDs, leaf, Anchor(anchors, n), tape)
  {
    if leaf {
      return NotShown;
    }
    var n := NameAt(qname, 0);
    hide IsNameAt, NameAt, ValidName, Anchor, Run, Begin;
    var anchor := FindAnchor(anchors, qname);
    if anchor.None? {
      return NotShown;
    }
    o := WalkFrom(n, known, isDs, anchor.value, tape);
  }

  method FindAnchor(anchors: seq<Policy.Entry>, qname: seq<Byte>) returns (anchor: Option<Name>)
    requires Policy.AllWellFormed(anchors) && Policy.Sorted(anchors)
    requires IsNameAt(qname, 0) && ValidName(NameAt(qname, 0))
    ensures anchor == Anchor(anchors, NameAt(qname, 0)) && (anchor.Some? ==> ValidName(anchor.value))
  {
    ghost var n := NameAt(qname, 0);
    AnchorIs(anchors, n);
    hide IsNameAt, NameAt, ValidName, Anchor, Policy.FirstApplies;
    var zone, ttl := Policy.FindTrustPoint(anchors, qname);
    if zone.None? {
      return None;
    }
    var top := NameAt(zone.value, 0);
    AnchorValid(n, top);
    return Some(top);
  }

  /** The check below a given anchor. */
  method WalkFrom(n: Name, known: Option<Name>, isDs: bool, top: Name, tape: nat -> Answer) returns (o: Outcome)
    requires ValidName(n) && (known.Some? ==> ValidName(known.value)) && ValidName(top) && ValidTape(tape)
    ensures o == Verdict(n, known, isDs, false, Some(top), tape)
  {
    hide *;
    var z := if known.Some? then known.value else n;
    var labels := NewBuffer(z);
    ghost var start;
    var walk, off;
    walk, off, start := CutAtAnchor(labels, z, n, isDs, top);
    BeginIs(n, known, isDs, top, tape);
    if !walk {
      return NotShown;
    }
    o := WalkDown(labels, off, top, n, tape, start);
  }

  /** What find_trust_point returns is the anchor. */
  lemma AnchorIs(list: seq<Policy.Entry>, n: Name)
    requires Policy.AllWellFormed(list)
    ensures match Policy.FirstApplies(list, n, false, 0)
            case None => Anchor(list, n) == None
            case Some(i) => |Policy.Zone(list[i])| <= |n| && Anchor(list, n) == Some(n[|n| - |Policy.Zone(list[i])|..])
  {
  }

  lemma AnchorValid(n: Name, top: Name)
    requires ValidName(n) && |top| <= |n| && top == n[|n| - |top|..]
    ensures ValidName(top)
  {
    TailValid(n, |n| - |top|);
  }

  /** The verdict, given where the walk starts. */
  lemma BeginIs(n: Name, known: Option<Name>, isDs: bool, top: Name, tape: nat -> Answer)
    ensures var b := Begin(n, Some(if known.Some? then known.value else n), isDs, Some(top));
            Verdict(n, known, isDs, false, Some(top), tape) == if b.None? then NotShown else Run(b.value, n, tape).0
  {
    hide Run, Same, IsSuffix, ValidName;
  }

  /**
   The part before the loop: what the zone cut shares with the anchor is cut off it, or there is
   nothing to walk.
  */
  method CutAtAnchor(labels: array<Byte>, z: Name, n: Name, isDs: bool, top: Name)
    returns (walk: bool, off: nat, ghost start: State)
    requires IsNameAt(labels[..], 0) && NameAt(labels[..], 0) == z && ValidName(z) && ValidName(n) && ValidName(top)
    modifies labels
    ensures var b := Begin(n, Some(z), isDs, Some(top));
            walk == b.Some? && (walk ==> start == b.value)
    ensures walk ==> && IsNameAt(labels[..], off) && NameAt(labels[..], off) == start.left
                     && start.next == top == start.cur && start.visited == [] && AllValid(start)
  {
    hide NameAt, IsNameAt, WireLen, ValidName, IsSuffix, Same, AllValid;
    start := State([], [], [], [], []);
    off := 0;
    var q := CanonOrder.NameName(z, top);
    if q.None? {
      return false, off, start;
    }
    SuffixAt(z, top, q.value);
    TailValid(z, q.value);
    SameOnlyWhole(z, q.value);
    var whole := SameName(z, z[q.value..]);
    if whole {
      return false, off, start;
    }
    var atCut := SameName(z, n);
    var y := z;
    if atCut && isDs {
      FirstLabelGone(labels[..], z);
      off := 1;
      off := off + labels[0];
      y := z[1..];
      TailValid(z, 1);
      TailIsAnchor(z, y, top);
      q := CanonOrder.NameName(y, top);
      if q.None? {
        assert false;
      }
      SuffixAt(y, top, q.value);
    }
    CutAfter(labels, off, q.value);
    JoinValid(y, top);
    start := State(y[..q.value], top, top, [], []);
    StartIsValid(start);
    return true, off, start;
  }

  lemma SuffixAt(z: Name, top: Name, k: nat)
    requires k <= |z| && Same(z[k..], top)
    ensures k == |z| - |top| && IsSuffix(top, z)
  {
    TailEncloses(top, z, k);
  }

  lemma SameOnlyWhole(z: Name, k: nat)
    requires k <= |z|
    ensures Same(z, z[k..]) <==> k == 0
  {
    assert z[0..] == z;
  }

  lemma FirstLabelGone(w: seq<Byte>, z: Name)
    requires IsNameAt(w, 0) && NameAt(w, 0) == z && z != []
    ensures IsNameAt(w, 1 + w[0]) && NameAt(w, 1 + w[0]) == z[1..]
  {
    NameAtCons(w, 0);
  }

  lemma StartIsValid(s: State)
    requires ValidName(s.left + s.next) && ValidName(s.cur)
    ensures AllValid(s)
  {
  }
}
