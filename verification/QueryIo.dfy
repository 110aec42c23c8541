/**
 The query I/O manager of libsres/res_io_manager.c as a state machine: per-source retries,
 address failover, EDNS size fallback, the switch to TCP, timers and the count of open
 sockets.  Sockets, reads and the clock answer arbitrarily.  Every operation is a sequence
 of the elementary events below, and what every run of events keeps is proved once.
*/
module QueryIo {
  import opened Names

  // ----- time -----

  /** struct timeval. */
  datatype Time = Time(sec: int, usec: int)

  predicate Lteq(a: Time, b: Time) {
    if a.sec == b.sec then a.usec <= b.usec else a.sec < b.sec
  }

  predicate IsSet(t: Time) {
    t.sec != 0 || t.usec != 0
  }

  /** UPDATE: the earlier of an event, where zero stands for none, and a time. */
  function Update(evt: Time, b: Time): (r: Time)
    ensures IsSet(b) ==> IsSet(r) && Lteq(r, b) && (IsSet(evt) ==> Lteq(r, evt))
  {
    if !IsSet(evt) || !Lteq(evt, b) then b else evt
  }

  function Later(t: Time, secs: int): Time {
    Time(t.sec + secs, t.usec)
  }

  // ----- sources -----

  /** The part of a name server that matters here; 'stub' says that a validating-stub flag is set. */
  datatype Server = Server(retry: nat, retrans: int, addresses: nat, edns: int, stub: bool)

  /** struct expected_arrival; 'sent' counts the sends completed so far. */
  datatype Source = Source(ns: Server, which: nat, attempts: int, socket: bool, stream: bool,
                           nextTry: Time, cancel: Time, sent: nat)

  const EDNS_FALLBACK: seq<int> := [4096, 1492, 512, 0]
  const FALLBACK_MAX_INDEX := 3

  function EdnsSteps(size: int): nat {
    if size > 4096 then 3 else if size > 1492 then 2 else if size > 512 then 1 else 0
  }

  function Smaller(size: int): int
    requires EdnsSteps(size) > 0
  {
    if size > 4096 then 4096 else if size > 1492 then 1492 else 512
  }

  function Max0(x: int): nat {
    if x < 0 then 0 else x
  }

  function Times(k: int, n: int): int {
    k * n
  }

  lemma OneLess(k: int, n: int)
    ensures Times(k, n) == Times(k - 1, n) + n
  {
  }

  /** How many more sends the source may still complete. */
  function Potential(s: Source): int {
    Max0(s.attempts) + Times(s.ns.addresses - 1 - s.which, s.ns.retry + 1) + EdnsSteps(s.ns.edns)
    + (if s.stream then 0 else s.ns.retry + 1)
  }

  function SendBound(s: Source): int {
    (s.ns.retry + 1) * (s.ns.addresses + 1) + 3
  }

  predicate SourceOk(s: Source) {
    s.attempts >= -1 && s.which < s.ns.addresses && s.sent + Potential(s) <= SendBound(s)
  }

  // ----- the state and its events -----

  /** The transaction lists, the number of open sockets, and the limit on it (0 before it is known). */
  datatype State = State(lists: seq<seq<Source>>, open: int, maxFd: int)

  const MAX_TRANSACTIONS := 128

  datatype Event =
    | Limit(n: int)
    | Enqueue(t: nat, ns: Server, nextTry: Time, cancel: Time)
    | Open(t: nat, i: nat)
    | Close(t: nat, i: nat)
    | Send(t: nat, i: nat)
    | NextAddress(t: nat, i: nat)
    | GiveUp(t: nat, i: nat)
    | ShrinkEdns(t: nat, i: nat)
    | ToTcp(t: nat, i: nat)
    | StartOnTcp(t: nat, i: nat)
    | Timers(t: nat, i: nat, nextTry: Time, cancel: Time)
    | Forget(t: nat)

  predicate Has(s: State, t: nat, i: nat) {
    t < |s.lists| && i < |s.lists[t]|
  }

  function Put(s: State, t: nat, i: nat, src: Source): State
    requires Has(s, t, i)
  {
    s.(lists := s.lists[t := s.lists[t][i := src]])
  }

  function LiveIn(list: seq<Source>): nat {
    if list == [] then 0 else (if list[0].socket then 1 else 0) + LiveIn(list[1..])
  }

  function Live(lists: seq<seq<Source>>): nat {
    if lists == [] then 0 else LiveIn(lists[0]) + Live(lists[1..])
  }

  /** When an event can happen. */
  predicate Enabled(s: State, e: Event) {
    match e
    case Limit(n) => s.maxFd == 0 && n >= 1
    case Enqueue(t, ns, _, _) => t < |s.lists| && ns.addresses >= 1
    case Open(t, i) => Has(s, t, i) && !s.lists[t][i].socket && s.maxFd > 0 && s.open < s.maxFd
    case Close(t, i) => Has(s, t, i) && s.lists[t][i].socket
    case Send(t, i) => Has(s, t, i) && s.lists[t][i].socket && s.lists[t][i].attempts >= 1
    case NextAddress(t, i) => Has(s, t, i) && !s.lists[t][i].socket &&
                              s.lists[t][i].which + 1 < s.lists[t][i].ns.addresses
    case GiveUp(t, i) => Has(s, t, i) && !s.lists[t][i].socket
    case ShrinkEdns(t, i) => Has(s, t, i) && EdnsSteps(s.lists[t][i].ns.edns) > 0
    case ToTcp(t, i) => Has(s, t, i) && !s.lists[t][i].socket && !s.lists[t][i].stream
    case StartOnTcp(t, i) => Has(s, t, i)
    case Timers(t, i, _, _) => Has(s, t, i)
    case Forget(t) => t < |s.lists| && forall i :: 0 <= i < |s.lists[t]| ==> !s.lists[t][i].socket
  }

  function NewSource(ns: Server, nextTry: Time, cancel: Time): Source {
    Source(ns, 0, ns.retry + 1, false, false, nextTry, cancel, 0)
  }

  function Apply(s: State, e: Event): State
    requires Enabled(s, e)
  {
    match e
    case Limit(n) => s.(maxFd := n)
    case Enqueue(t, ns, nextTry, cancel) =>
      s.(lists := s.lists[t := s.lists[t] + [NewSource(ns, nextTry, cancel)]])
    case Open(t, i) => Put(s, t, i, s.lists[t][i].(socket := true)).(open := s.open + 1)
    case Close(t, i) => Put(s, t, i, s.lists[t][i].(socket := false)).(open := s.open - 1)
    case Send(t, i) =>
      var src := s.lists[t][i];
      Put(s, t, i, src.(attempts := src.attempts - 1, sent := src.sent + 1))
    case NextAddress(t, i) =>
      var src := s.lists[t][i];
      Put(s, t, i, src.(which := src.which + 1, attempts := src.ns.retry + 1))
    case GiveUp(t, i) => Put(s, t, i, s.lists[t][i].(attempts := -1))
    case ShrinkEdns(t, i) =>
      var src := s.lists[t][i];
      Put(s, t, i, src.(ns := src.ns.(edns := Smaller(src.ns.edns)), attempts := Max0(src.attempts) + 1))
    case ToTcp(t, i) =>
      var src := s.lists[t][i];
      Put(s, t, i, src.(stream := true, attempts := src.ns.retry + 1))
    case StartOnTcp(t, i) => Put(s, t, i, s.lists[t][i].(stream := true))
    case Timers(t, i, nextTry, cancel) => Put(s, t, i, s.lists[t][i].(nextTry := nextTry, cancel := cancel))
    case Forget(t) => s.(lists := s.lists[t := []])
  }

  function EmptyLists(n: nat): (l: seq<seq<Source>>)
    ensures |l| == n && forall t :: 0 <= t < n ==> l[t] == []
  {
    if n == 0 then [] else EmptyLists(n - 1) + [[]]
  }

  function Initial(): State {
    State(EmptyLists(MAX_TRANSACTIONS), 0, 0)
  }

  /** The state after a run of events, and whether each was possible when it happened. */
  function After(es: seq<Event>): (s: State)
    requires Legal(es)
    decreases |es|, 1
  {
    if es == [] then Initial() else Apply(After(es[..|es| - 1]), es[|es| - 1])
  }

  predicate Legal(es: seq<Event>)
    decreases |es|, 0
  {
    es == [] || (Legal(es[..|es| - 1]) && Enabled(After(es[..|es| - 1]), es[|es| - 1]))
  }

  // ----- what every run keeps -----

  predicate SourcesOk(s: State) {
    forall t, i :: 0 <= t < |s.lists| && 0 <= i < |s.lists[t]| ==> SourceOk(s.lists[t][i])
  }

  /** The socket count is exact, and never exceeds the limit once that is known. */
  predicate SocketsOk(s: State) {
    s.open == Live(s.lists) && s.maxFd >= 0 && s.open <= s.maxFd
  }

  predicate Inv(s: State) {
    |s.lists| == MAX_TRANSACTIONS && SourcesOk(s) && SocketsOk(s)
  }

  lemma {:induction false} LiveInPut(list: seq<Source>, i: nat, src: Source)
    requires i < |list|
    ensures LiveIn(list[i := src]) == LiveIn(list) - (if list[i].socket then 1 else 0) + (if src.socket then 1 else 0)
  {
    if i == 0 {
      assert list[0 := src][1..] == list[1..];
    } else {
      LiveInPut(list[1..], i - 1, src);
      assert list[i := src][1..] == list[1..][i - 1 := src];
    }
  }

  lemma {:induction false} LivePut(lists: seq<seq<Source>>, t: nat, list: seq<Source>)
    requires t < |lists|
    ensures Live(lists[t := list]) == Live(lists) - LiveIn(lists[t]) + LiveIn(list)
  {
    if t == 0 {
      assert lists[0 := list][1..] == lists[1..];
    } else {
      LivePut(lists[1..], t - 1, list);
      assert lists[t := list][1..] == lists[1..][t - 1 := list];
    }
  }

  lemma LiveAfterPut(s: State, t: nat, i: nat, src: Source)
    requires Has(s, t, i)
    ensures Live(Put(s, t, i, src).lists) ==
              Live(s.lists) - (if s.lists[t][i].socket then 1 else 0) + (if src.socket then 1 else 0)
  {
    LiveInPut(s.lists[t], i, src);
    LivePut(s.lists, t, s.lists[t][i := src]);
  }

  lemma {:induction false} LiveInSnoc(list: seq<Source>, src: Source)
    ensures LiveIn(list + [src]) == LiveIn(list) + (if src.socket then 1 else 0)
  {
    if list == [] {
      assert LiveIn([src][1..]) == 0;
    } else {
      LiveInSnoc(list[1..], src);
      assert (list + [src])[1..] == list[1..] + [src];
    }
  }

  lemma {:induction false} NoneLive(list: seq<Source>)
    requires forall i :: 0 <= i < |list| ==> !list[i].socket
    ensures LiveIn(list) == 0
  {
    if list != [] { NoneLive(list[1..]); }
  }

  /** An event on one source keeps the budget of that source. */
  lemma BudgetKept(s: State, e: Event)
    requires Enabled(s, e) && !e.Limit? && !e.Enqueue? && !e.Forget? && SourceOk(s.lists[e.t][e.i])
    ensures var x, y := s.lists[e.t][e.i], Apply(s, e).lists[e.t][e.i];
            && SourceOk(y) && SendBound(y) == SendBound(x)
            && y.sent + Potential(y) <= x.sent + Potential(x)
            && (e.Send? ==> y.sent == x.sent + 1 && Potential(y) == Potential(x) - 1)
  {
    var x := s.lists[e.t][e.i];
    OneLess(x.ns.addresses - 1 - x.which, x.ns.retry + 1);
    hide Times, SendBound;
    var y := Apply(s, e).lists[e.t][e.i];
    BoundKept(x, y);
  }

  lemma BoundKept(x: Source, y: Source)
    requires y.ns.retry == x.ns.retry && y.ns.addresses == x.ns.addresses
    ensures SendBound(y) == SendBound(x)
  {
  }

  lemma PotentialNatural(s: Source)
    requires s.which < s.ns.addresses
    ensures Potential(s) >= 0
  {
    var k, r := s.ns.addresses - 1 - s.which, s.ns.retry + 1;
    assert Times(k, r) >= 0;
  }

  lemma NewSourceOk(ns: Server, nextTry: Time, cancel: Time)
    requires ns.addresses >= 1
    ensures SourceOk(NewSource(ns, nextTry, cancel))
  {
    var r, n := ns.retry + 1, ns.addresses;
    assert Times(n - 1, r) + r + r == r * (n + 1);
  }

  lemma EventKeeps(s: State, e: Event)
    requires Inv(s) && Enabled(s, e)
    ensures Inv(Apply(s, e))
  {
    hide SourceOk, Live, LiveIn, EdnsSteps;
    var s' := Apply(s, e);
    match e
    case Limit(n) =>
    case Enqueue(t, ns, nextTry, cancel) =>
      NewSourceOk(ns, nextTry, cancel);
      LiveInSnoc(s.lists[t], NewSource(ns, nextTry, cancel));
      LivePut(s.lists, t, s'.lists[t]);
    case Forget(t) =>
      NoneLive(s.lists[t]);
      NoneLive([]);
      LivePut(s.lists, t, []);
    case _ =>
      BudgetKept(s, e);
      LiveAfterPut(s, e.t, e.i, s'.lists[e.t][e.i]);
      assert s'.lists == s.lists[e.t := s.lists[e.t][e.i := s'.lists[e.t][e.i]]];
  }

  lemma {:induction false} InitialOk(lists: seq<seq<Source>>)
    requires forall t :: 0 <= t < |lists| ==> lists[t] == []
    ensures Live(lists) == 0
  {
    if lists != [] { InitialOk(lists[1..]); }
  }

  /**
   Every run: each source completes at most (retry + 1) * (addresses + 1) + 3 sends, and the
   count of open sockets is the number of sources that hold one and stays within the limit.
  */
  lemma {:induction false} EveryRun(es: seq<Event>)
    requires Legal(es)
    ensures Inv(After(es))
    ensures forall t: nat, i: nat :: Has(After(es), t, i) ==>
              After(es).lists[t][i].sent <= SendBound(After(es).lists[t][i])
    ensures After(es).open == Live(After(es).lists) && After(es).open <= After(es).maxFd
    decreases |es|
  {
    hide Enabled, Apply, SourceOk, Live, Potential, SendBound;
    if es == [] {
      InitialOk(EmptyLists(MAX_TRANSACTIONS));
    } else {
      EveryRun(es[..|es| - 1]);
      EventKeeps(After(es[..|es| - 1]), es[|es| - 1]);
    }
    var s := After(es);
    forall t: nat, i: nat | Has(s, t, i) ensures s.lists[t][i].sent <= SendBound(s.lists[t][i]) {
      assert SourceOk(s.lists[t][i]);
      WithinBound(s.lists[t][i]);
    }
  }

  lemma WithinBound(s: Source)
    requires SourceOk(s)
    ensures s.sent <= SendBound(s)
  {
    hide Potential, SendBound;
    PotentialNatural(s);
  }

  // ----- the manager -----

  datatype SendResult = Unset | TooManyTransactions | SocketError

  /** Whether a call into the operating system succeeds. */
  method Succeeds() returns (ok: bool)
  {
    ok := *;
  }

  function Timeout(ns: Server): int {
    (ns.retry + 1) * ns.retrans
  }

  /** res_get_timeout. */
  method GetTimeout(ns: Server) returns (delay: int)
    ensures delay == Timeout(ns)
  {
    delay := 0;
    var i := 0;
    while i <= ns.retry
      invariant 0 <= i <= ns.retry + 1 && delay == i * ns.retrans
    {
      delay := delay + ns.retrans;
      i := i + 1;
    }
  }

  /** The source is still being tried. */
  predicate Active(s: Source) {
    s.attempts != -1
  }

  function CountActive(list: seq<Source>): nat {
    if list == [] then 0
    else CountActive(list[..|list| - 1]) + if Active(list[|list| - 1]) then 1 else 0
  }

  /** Every source still being tried has its timers set. */
  predicate Timed(list: seq<Source>) {
    forall j :: 0 <= j < |list| && Active(list[j]) ==> IsSet(list[j].nextTry) && IsSet(list[j].cancel)
  }

  /** The event is no later than any timer of a source still being tried. */
  predicate WakesInTime(evt: Time, list: seq<Source>) {
    forall j :: 0 <= j < |list| && Active(list[j]) ==> WakesFor(evt, list[j])
  }

  predicate WakesFor(evt: Time, s: Source) {
    IsSet(evt) && Lteq(evt, s.nextTry) && Lteq(evt, s.cancel)
  }

  lemma TimeoutSign(ns: Server)
    ensures ns.retrans >= 0 ==> Timeout(ns) >= 0
  {
  }

  /** Two tables of lists agree except at source 'i' of list 't'. */
  predicate OnlyAt(a: seq<seq<Source>>, b: seq<seq<Source>>, t: nat, i: nat) {
    && t < |a| && SameShape(a, b, t) && i < |a[t]|
    && forall j :: 0 <= j < |a[t]| && j != i ==> b[t][j] == a[t][j]
  }

  /** Two tables of lists agree except at the sources from 'i' on of list 't'. */
  predicate OnlyFrom(a: seq<seq<Source>>, b: seq<seq<Source>>, t: nat, i: nat) {
    && t < |a| && SameShape(a, b, t)
    && forall j :: 0 <= j < i && j < |a[t]| ==> b[t][j] == a[t][j]
  }

  /** After source 'i' only timers differ. */
  predicate OnlyTimersAfter(a: seq<Source>, b: seq<Source>, i: nat) {
    |a| == |b| && forall j :: i < j < |a| ==> b[j] == a[j].(nextTry := b[j].nextTry, cancel := b[j].cancel)
  }

  predicate SameShape(a: seq<seq<Source>>, b: seq<seq<Source>>, t: nat)
    requires t < |a|
  {
    |b| == |a| && |b[t]| == |a[t]| && forall u :: 0 <= u < |a| && u != t ==> b[u] == a[u]
  }

  /** A later source that waits for its turn is moved forward in time, one with a socket is not. */
  function Shifted(s: Source, offset: int): Source {
    if s.socket then s else s.(nextTry := Later(s.nextTry, -offset), cancel := Later(s.cancel, -offset))
  }

  /** What _reset_timeouts does to a list, given the source it leaves at 'i'. */
  predicate TimeoutsReset(a: seq<Source>, b: seq<Source>, i: nat, clock: int) {
    && i < |a| == |b| && b[i].nextTry.sec >= clock
    && b[i] == a[i].(nextTry := b[i].nextTry, cancel := Later(b[i].nextTry, Timeout(a[i].ns)))
    && (var offset := if i + 1 < |a| then a[i + 1].nextTry.sec - b[i].nextTry.sec else 0;
        forall j :: 0 <= j < |a| && j != i ==> b[j] == if j > i && offset > 0 then Shifted(a[j], offset) else a[j])
  }

  /** The alarms that a completed send sets. */
  predicate SentAt(s: Source, clock: int) {
    s.nextTry.sec >= clock + s.ns.retrans && s.cancel == Later(s.nextTry, Timeout(s.ns))
  }

  /** The source has been sent to once, at its address with one attempt less or at a later address. */
  predicate SentTo(x: Source, y: Source, clock: int) {
    && x.which <= y.which < x.ns.addresses && y.nextTry.sec >= clock + x.ns.retrans
    && y == x.(socket := true, sent := x.sent + 1, which := y.which,
               attempts := if y.which == x.which then x.attempts - 1 else x.ns.retry,
               nextTry := y.nextTry, cancel := Later(y.nextTry, Timeout(x.ns)))
  }

  /** All addresses have been tried, and the source is given up. */
  predicate TriedAll(x: Source, y: Source) {
    x.ns.addresses > 0 &&
    y == x.(socket := false, attempts := -1, which := x.ns.addresses - 1, nextTry := y.nextTry, cancel := y.cancel)
  }

  /** Between two addresses. */
  predicate Trying(x: Source, y: Source) {
    && x.which <= y.which < x.ns.addresses
    && (if y.which == x.which then y == x else y.attempts == x.ns.retry + 1 && !y.socket)
    && y == x.(socket := y.socket, attempts := y.attempts, which := y.which, nextTry := y.nextTry, cancel := y.cancel)
  }

  /** There is an attempt left after a fallback, if one is possible, and the query can be built again. */
  predicate Rebuilt(x: Source, built: bool) {
    Shrunk(x).attempts > 0 && x.ns.edns != 0 && built
  }

  /**
   A source that timed out, with the EDNS size and the attempts that the fallback leaves: its query
   is built again for the same address; or else it is at its next address; or, at the last one, it
   is given up.
  */
  predicate MovedOn(x: Source, y: Source, built: bool, clock: int) {
    var z := Shrunk(x);
    if Rebuilt(x, built) then
      && y.nextTry.sec >= clock
      && y == z.(socket := false, nextTry := y.nextTry, cancel := Later(y.nextTry, Timeout(x.ns)))
    else if x.which + 1 < x.ns.addresses then
      && y.nextTry.sec >= clock
      && y == z.(socket := false, which := x.which + 1, attempts := x.ns.retry + 1,
                 nextTry := y.nextTry, cancel := Later(y.nextTry, Timeout(x.ns)))
    else
      y == z.(socket := false, attempts := -1, nextTry := y.nextTry, cancel := y.cancel)
  }

  /** res_io_send refuses to open a socket for the source. */
  predicate NoRoomFor(s: Source, open: int, maxFd: int) {
    !s.socket && 0 < maxFd <= open
  }

  /** What res_io_next_address does to a list. */
  predicate NextAddressTaken(a: seq<Source>, b: seq<Source>, i: nat, clock: int)
  {
    && i < |a| == |b| && !b[i].socket
    && (if a[i].which + 1 < a[i].ns.addresses then
          && b == a[i := b[i]] && b[i].nextTry.sec >= clock
          && b[i] == a[i].(socket := false, which := a[i].which + 1, attempts := a[i].ns.retry + 1,
                           nextTry := b[i].nextTry, cancel := Later(b[i].nextTry, Timeout(a[i].ns)))
        else
          && b[i] == a[i].(socket := false, attempts := -1, cancel := b[i].cancel)
          && (if i + 1 < |a| && a[i + 1].attempts != 0 && !a[i + 1].socket then
                TimeoutsReset(a[i := b[i]], b, i + 1, clock)
              else
                b == a[i := b[i]]))
  }

  /** The source after a fallback to a smaller EDNS size, if there is one to fall back to. */
  function Shrunk(s: Source): Source {
    if s.ns.stub && EdnsSteps(s.ns.edns) > 0 then
      s.(ns := s.ns.(edns := Smaller(s.ns.edns)), attempts := Max0(s.attempts) + 1)
    else s
  }

  /** A source after 'n' fallbacks. */
  function ShrunkTimes(s: Source, n: nat): Source {
    if n == 0 then s else Shrunk(ShrunkTimes(s, n - 1))
  }

  /**
   No number of fallbacks disables EDNS: the size stays at least 512 where it was, and the last
   entry of the table, which is there to disable EDNS, is never used.
  */
  lemma {:induction false} EdnsNeverDisabled(s: Source, n: nat)
    ensures ShrunkTimes(s, n).ns.edns == 0 <==> s.ns.edns == 0
    ensures ShrunkTimes(s, n).ns == s.ns <==> n == 0 || !s.ns.stub || s.ns.edns <= 512
    ensures s.ns.stub && n >= EdnsSteps(s.ns.edns) ==>
              ShrunkTimes(s, n).ns == s.ns.(edns := if s.ns.edns <= 512 then s.ns.edns else 512)
    ensures s.ns.stub && n <= EdnsSteps(s.ns.edns) ==>
              EdnsSteps(ShrunkTimes(s, n).ns.edns) == EdnsSteps(s.ns.edns) - n
    ensures ShrunkTimes(s, n).ns == s.ns.(edns := ShrunkTimes(s, n).ns.edns) && ShrunkTimes(s, n).ns.edns <= s.ns.edns
  {
    if n > 0 {
      EdnsNeverDisabled(s, n - 1);
    }
  }

  /** An input: at 512 octets and out of attempts, the fallback changes the cancel time only, and is failed. */
  lemma NoFallbackTo0(s: Source, b: seq<Source>, evt: Time, evt': Time, r: int, built: bool, clock: int)
    requires s.ns == Server(2, 5, 1, 512, true) && s.attempts == 0 && FellBack([s], b, 0, 0, evt, evt', r, built, clock)
    ensures r == 0 && b == [s.(socket := false, cancel := b[0].cancel)]
  {
    assert Shrunk(s) == s;
    assert b[0..] == [b[0]];
    CountActiveZero([b[0]]);
  }

  /**
   What res_nsfallback_ea does to the source 'i' of a list that it searches from 'head' on; 'built'
   tells whether the query could be built again.
  */
  predicate FellBack(a: seq<Source>, b: seq<Source>, head: nat, i: nat, evt: Time, evt': Time, r: int, built: bool,
                     clock: int)
  {
    && i < |a| == |b|
    && var x := Shrunk(a[i]);
       if x.attempts <= 0 then
         && b[i] == x.(socket := false, cancel := b[i].cancel) && b[i].cancel.sec >= clock && b == a[i := b[i]]
         && evt' == evt && r == (if head <= i && CountActive(b[head..]) == 0 then -1 else 0)
       else
         && evt' == Update(evt, b[i].nextTry)
         && r == (if a[i].ns.edns == 0 then 0 else if built then 1 else -1)
         && TimeoutsReset(a[i := if r == 1 then x.(socket := false) else x], b, i, clock)
  }

  /** The source to fall back: the first one from 'head' on, of the given server if there is one. */
  function ServerFrom(list: seq<Source>, head: nat, server: Option<Source -> bool>): (i: Option<nat>)
    ensures i.Some? ==> head <= i.value < |list| && (server.Some? ==> server.value(list[i.value]))
    ensures i.Some? && server.Some? ==> forall j :: head <= j < i.value ==> !server.value(list[j])
    ensures i.None? && server.Some? ==> forall j :: head <= j < |list| ==> !server.value(list[j])
    ensures server.None? && head < |list| ==> i == Some(head)
    decreases |list| - head
  {
    if head >= |list| then None
    else if server.None? || server.value(list[head]) then Some(head)
    else ServerFrom(list, head + 1, server)
  }

  lemma {:induction false} CountActiveZero(list: seq<Source>)
    ensures CountActive(list) == 0 <==> forall j :: 0 <= j < |list| ==> !Active(list[j])
  {
    if list != [] {
      CountActiveZero(list[..|list| - 1]);
      assert forall j :: 0 <= j < |list| - 1 ==> list[..|list| - 1][j] == list[j];
    }
  }

  class IoManager {
    var lists: seq<seq<Source>>
    var openSockets: int
    var maxFd: int
    var nextTransaction: nat
    ghost var trace: seq<Event>

    /** No reading of the clock is earlier, in seconds. */
    const epoch: int

    ghost function View(): State
      reads this
    {
      State(lists, openSockets, maxFd)
    }

    /** The state is the result of a run of events, each possible when it happened. */
    ghost predicate Valid()
      reads this
    {
      Legal(trace) && After(trace) == View() && nextTransaction < MAX_TRANSACTIONS && epoch > 0
    }

    predicate In(t: nat, i: nat)
      reads this
    {
      t < |lists| && i < |lists[t]|
    }

    constructor (epoch: int)
      requires epoch > 0
      ensures Valid() && View() == Initial() && this.epoch == epoch
    {
      this.epoch := epoch;
      lists, openSockets, maxFd, nextTransaction, trace := EmptyLists(MAX_TRANSACTIONS), 0, 0, 0, [];
    }

    /** The clock. */
    method GetTimeOfDay() returns (now: Time)
      ensures now.sec >= epoch
    {
      var sec: int :| sec >= epoch;
      var usec: int := *;
      now := Time(sec, usec);
    }

    /** What Valid gives: the facts of EveryRun about the present state. */
    lemma Facts()
      requires Valid()
      ensures |lists| == MAX_TRANSACTIONS
      ensures openSockets == Live(lists) && openSockets <= maxFd && maxFd >= 0
      ensures forall t: nat, i: nat :: In(t, i) ==> lists[t][i].sent <= SendBound(lists[t][i]) && SourceOk(lists[t][i])
    {
      hide SendBound, Live, SourceOk, Legal, After;
      EveryRun(trace);
      forall t: nat, i: nat | In(t, i) ensures lists[t][i].sent <= SendBound(lists[t][i]) && SourceOk(lists[t][i]) {
        assert Has(View(), t, i);
      }
    }

    /** What Facts says of one source. */
    lemma FactsAt(t: nat, i: nat)
      requires Valid() && In(t, i)
      ensures lists[t][i].attempts >= -1 && lists[t][i].which < lists[t][i].ns.addresses
    {
      hide Legal, After, Live, SendBound, Potential;
      Facts();
    }

    /** Records that the fields have just changed by one event. */
    ghost method Happened(e: Event, s: State)
      requires Legal(trace) && After(trace) == s && Enabled(s, e) && View() == Apply(s, e)
      requires nextTransaction < MAX_TRANSACTIONS && epoch > 0
      modifies this`trace
      ensures Valid() && trace == old(trace) + [e]
    {
      hide Enabled, Apply;
      trace := trace + [e];
      assert trace[..|trace| - 1] == old(trace);
    }

    /** Replaces one source, which is what event 'e' does. */
    method Step(t: nat, i: nat, src: Source, delta: int, ghost e: Event)
      requires Valid() && In(t, i) && Enabled(View(), e)
      requires Apply(View(), e) == Put(View(), t, i, src).(open := openSockets + delta)
      modifies this
      ensures Valid() && maxFd == old(maxFd) && openSockets == old(openSockets) + delta
      ensures nextTransaction == old(nextTransaction)
      ensures OnlyAt(old(lists), lists, t, i) && lists[t][i] == src
    {
      hide Enabled, Apply, Legal, After;
      ghost var s := View();
      lists := lists[t := lists[t][i := src]];
      openSockets := openSockets + delta;
      Happened(e, s);
    }

    /** Closes the socket of a source if it has one. */
    method CloseSocket(t: nat, i: nat)
      requires Valid() && In(t, i)
      modifies this
      ensures Valid() && maxFd == old(maxFd)
      ensures OnlyAt(old(lists), lists, t, i) && lists[t][i] == old(lists)[t][i].(socket := false)
      ensures openSockets == old(openSockets) - if old(lists)[t][i].socket then 1 else 0
    {
      hide Legal, After;
      if lists[t][i].socket {
        Step(t, i, lists[t][i].(socket := false), -1, Close(t, i));
      }
    }

    method SetTimers(t: nat, i: nat, nextTry: Time, cancel: Time)
      requires Valid() && In(t, i)
      modifies this
      ensures Valid() && maxFd == old(maxFd) && openSockets == old(openSockets)
      ensures OnlyAt(old(lists), lists, t, i)
      ensures lists[t][i] == old(lists)[t][i].(nextTry := nextTry, cancel := cancel)
    {
      hide Legal, After;
      Step(t, i, lists[t][i].(nextTry := nextTry, cancel := cancel), 0, Timers(t, i, nextTry, cancel));
    }

    /** set_alarms. */
    method SetAlarms(t: nat, i: nat, next: int, cancel: int)
      requires Valid() && In(t, i)
      modifies this
      ensures Valid() && maxFd == old(maxFd) && openSockets == old(openSockets)
      ensures OnlyAt(old(lists), lists, t, i)
      ensures lists[t][i] == old(lists)[t][i].(nextTry := lists[t][i].nextTry, cancel := lists[t][i].cancel)
      ensures lists[t][i].nextTry.sec >= epoch + next && lists[t][i].cancel == Later(lists[t][i].nextTry, cancel)
    {
      hide Legal, After;
      var now := GetTimeOfDay();
      var n := Later(now, next);
      SetTimers(t, i, n, Later(n, cancel));
    }

    /** res_io_retry_source: close the socket, try this address again now. */
    method RetrySource(t: nat, i: nat)
      requires Valid() && In(t, i)
      modifies this
      ensures Valid() && maxFd == old(maxFd) && OnlyAt(old(lists), lists, t, i) && lists[t][i].nextTry.sec >= epoch
      ensures lists[t][i] == old(lists)[t][i].(socket := false, nextTry := lists[t][i].nextTry)
      ensures openSockets == old(openSockets) - if old(lists)[t][i].socket then 1 else 0
    {
      hide Legal, After;
      CloseSocket(t, i);
      var now := GetTimeOfDay();
      SetTimers(t, i, now, lists[t][i].cancel);
    }

    /** res_io_reset_source: close the socket, give up on this address now. */
    method ResetSource(t: nat, i: nat)
      requires Valid() && In(t, i)
      modifies this
      ensures Valid() && maxFd == old(maxFd) && OnlyAt(old(lists), lists, t, i) && lists[t][i].cancel.sec >= epoch
      ensures lists[t][i] == old(lists)[t][i].(socket := false, cancel := lists[t][i].cancel)
      ensures openSockets == old(openSockets) - if old(lists)[t][i].socket then 1 else 0
    {
      hide Legal, After;
      CloseSocket(t, i);
      var now := GetTimeOfDay();
      SetTimers(t, i, lists[t][i].nextTry, now);
    }

    /** res_io_cancel_source: close the socket, no more retries. */
    method CancelSource(t: nat, i: nat)
      requires Valid() && In(t, i)
      modifies this
      ensures Valid() && maxFd == old(maxFd) && OnlyAt(old(lists), lists, t, i) && lists[t][i].cancel.sec >= epoch
      ensures lists[t][i] == old(lists)[t][i].(socket := false, cancel := lists[t][i].cancel, attempts := -1)
      ensures openSockets == old(openSockets) - if old(lists)[t][i].socket then 1 else 0
    {
      hide Legal, After;
      CloseSocket(t, i);
      var now := GetTimeOfDay();
      SetTimers(t, i, lists[t][i].nextTry, now);
      Step(t, i, lists[t][i].(attempts := -1), 0, GiveUp(t, i));
    }

    /** res_io_cancel_all_remaining_attempts. */
    method CancelAll(t: nat)
      requires Valid() && t < |lists|
      modifies this
      ensures Valid() && OnlyFrom(old(lists), lists, t, 0)
      ensures forall j :: 0 <= j < |lists[t]| ==> !Active(lists[t][j]) && !lists[t][j].socket
    {
      hide Legal, After;
      for i := 0 to |lists[t]|
        invariant Valid() && OnlyFrom(old(lists), lists, t, 0)
        invariant forall j :: 0 <= j < i ==> !Active(lists[t][j]) && !lists[t][j].socket
      {
        CancelSource(t, i);
      }
    }

    /** The part of res_io_send that makes a socket ready: on failure there is none. */
    method Connect(t: nat, i: nat) returns (ok: bool)
      requires Valid() && In(t, i) && !lists[t][i].socket && openSockets < maxFd
      modifies this
      ensures Valid() && maxFd == old(maxFd) && OnlyAt(old(lists), lists, t, i)
      ensures lists[t][i] == old(lists)[t][i].(socket := ok, nextTry := lists[t][i].nextTry,
            cancel := lists[t][i].cancel)
      ensures openSockets == old(openSockets) + if ok then 1 else 0
    {
      Facts();
      hide Legal, After, Live, SendBound;
      var created := Succeeds();
      if !created {
        return false;
      }
      Step(t, i, lists[t][i].(socket := true), 1, Open(t, i));
      var bound := Succeeds();
      if !bound {
        RetrySource(t, i);
        return false;
      }
      var timeoutSet := Succeeds();
      if !timeoutSet {
        RetrySource(t, i);
        return false;
      }
      var connected := Succeeds();
      if !connected {
        ResetSource(t, i);
        return false;
      }
      return true;
    }

    /** The part of res_io_send that sends the query over the socket it has. */
    method Transmit(t: nat, i: nat) returns (ok: bool)
      requires Valid() && In(t, i) && lists[t][i].attempts >= 1 && lists[t][i].socket
      modifies this
      ensures Valid() && maxFd == old(maxFd) && OnlyAt(old(lists), lists, t, i)
      ensures var x, y := old(lists)[t][i], lists[t][i];
              && (ok ==> y == x.(sent := x.sent + 1, attempts := x.attempts - 1,
                              nextTry := y.nextTry, cancel := y.cancel))
              && (!ok ==> y == x.(socket := false, cancel := y.cancel))
      ensures openSockets == old(openSockets) - if ok then 0 else 1
      ensures ok ==> SentAt(lists[t][i], epoch)
    {
      hide Legal, After, Timeout;
      if lists[t][i].stream {
        var lengthSent := Succeeds();
        if !lengthSent {
          ResetSource(t, i);
          return false;
        }
      }
      var sent := Succeeds();
      if !sent {
        ResetSource(t, i);
        return false;
      }
      Step(t, i, lists[t][i].(attempts := lists[t][i].attempts - 1, sent := lists[t][i].sent + 1), 0, Send(t, i));
      var timeout := GetTimeout(lists[t][i].ns);
      SetAlarms(t, i, lists[t][i].ns.retrans, timeout);
      return true;
    }

    /** res_io_send, for a source that has an attempt left. */
    method Ship(t: nat, i: nat) returns (r: SendResult)
      requires Valid() && In(t, i) && lists[t][i].attempts >= 1
      modifies this
      ensures Valid() && maxFd > 0 && OnlyAt(old(lists), lists, t, i) && (old(maxFd) > 0 ==> maxFd == old(maxFd))
      ensures var x, y := old(lists)[t][i], lists[t][i];
              && y == x.(socket := y.socket, attempts := y.attempts, sent := y.sent,
                        nextTry := y.nextTry, cancel := y.cancel)
              && (r.Unset? ==> y.sent == x.sent + 1 && y.attempts == x.attempts - 1 && y.socket && SentAt(y, epoch))
              && (!r.Unset? ==> y.sent == x.sent && y.attempts == x.attempts)
              && (r.TooManyTransactions? <==> NoRoomFor(x, old(openSockets), old(maxFd)))
              && (r.TooManyTransactions? ==> y == x && openSockets == old(openSockets))
              && (r.SocketError? ==> !y.socket && openSockets < maxFd)
    {
      Facts();
      hide Legal, After, Live, SendBound, SourceOk;
      if maxFd == 0 {
        ghost var s := View();
        var n: int :| n >= 1;
        maxFd := n;
        Happened(Limit(n), s);
      }
      if !lists[t][i].socket && openSockets >= maxFd {
        return TooManyTransactions;
      }
      if !lists[t][i].socket {
        var ok := Connect(t, i);
        if !ok {
          return SocketError;
        }
      }
      var sent := Transmit(t, i);
      return if sent then Unset else SocketError;
    }

    /** _reset_timeouts: this source is tried now, and the ones that wait for it move forward as much. */
    method ResetTimeouts(t: nat, i: nat)
      requires Valid() && In(t, i)
      modifies this
      ensures Valid() && maxFd == old(maxFd) && openSockets == old(openSockets) && OnlyFrom(old(lists), lists, t, i)
      ensures TimeoutsReset(old(lists)[t], lists[t], i, epoch)
    {
      hide Legal, After;
      var timeout := GetTimeout(lists[t][i].ns);
      SetAlarms(t, i, 0, timeout);
      if i + 1 < |lists[t]| {
        var offset := lists[t][i + 1].nextTry.sec - lists[t][i].nextTry.sec;
        if offset > 0 {
          ghost var first := lists[t][i];
          for j := i + 1 to |lists[t]|
            invariant Valid() && maxFd == old(maxFd) && openSockets == old(openSockets)
            invariant OnlyFrom(old(lists), lists, t, i) && lists[t][i] == first
            invariant forall k :: i < k < |lists[t]| ==>
                        lists[t][k] == if k < j then Shifted(old(lists)[t][k], offset) else old(lists)[t][k]
          {
            var x := lists[t][j];
            if !x.socket {
              SetTimers(t, j, Later(x.nextTry, -offset), Later(x.cancel, -offset));
            }
          }
        }
      }
    }

    /** res_io_next_address: the next address if there is one, or else the next source. */
    method NextAddressOf(t: nat, i: nat)
      requires Valid() && In(t, i)
      modifies this
      ensures Valid() && maxFd == old(maxFd) && OnlyFrom(old(lists), lists, t, i)
      ensures openSockets == old(openSockets) - if old(lists)[t][i].socket then 1 else 0
      ensures NextAddressTaken(old(lists)[t], lists[t], i, epoch)
    {
      hide Legal, After;
      var x := lists[t][i];
      if x.which < x.ns.addresses - 1 {
        CloseSocket(t, i);
        var y := lists[t][i];
        Step(t, i, y.(which := y.which + 1, attempts := y.ns.retry + 1), 0, NextAddress(t, i));
        var timeout := GetTimeout(lists[t][i].ns);
        SetAlarms(t, i, 0, timeout);
        assert lists[t] == old(lists)[t][i := lists[t][i]];
      } else {
        CancelSource(t, i);
        assert lists[t] == old(lists)[t][i := lists[t][i]];
        if i + 1 < |lists[t]| && lists[t][i + 1].attempts != 0 && !lists[t][i + 1].socket {
          ResetTimeouts(t, i + 1);
          assert old(lists)[t][i := lists[t][i]] == old(lists)[t][i := lists[t][i]];
        }
      }
    }

    /** The loop of res_nsfallback_ea over the table of sizes, and the attempt it adds. */
    method Shrink(t: nat, i: nat)
      requires Valid() && In(t, i)
      modifies this
      ensures Valid() && maxFd == old(maxFd) && OnlyAt(old(lists), lists, t, i)
      ensures lists[t][i] == Shrunk(old(lists)[t][i])
    {
      FactsAt(t, i);
      hide Legal, After;
      var x := lists[t][i];
      if x.ns.stub && x.ns.edns > 0 {
        assert EDNS_FALLBACK[0] == 4096 && EDNS_FALLBACK[1] == 1492 && EDNS_FALLBACK[2] == 512;
        var k := 0;
        while k < FALLBACK_MAX_INDEX
          invariant 0 <= k <= FALLBACK_MAX_INDEX && forall j :: 0 <= j < k ==> x.ns.edns <= EDNS_FALLBACK[j]
          invariant Valid() && lists == old(lists) && maxFd == old(maxFd)
        {
          if x.ns.edns > EDNS_FALLBACK[k] {
            var attempts := if x.attempts <= 0 then 1 else x.attempts + 1;
            Step(t, i, x.(ns := x.ns.(edns := EDNS_FALLBACK[k]), attempts := attempts), 0, ShrinkEdns(t, i));
            return;
          }
          k := k + 1;
        }
      }
    }

    /** res_io_are_all_finished. */
    method AreAllFinished(t: nat, head: nat) returns (all: bool)
      requires t < |lists| && head <= |lists[t]|
      ensures all == (CountActive(lists[t][head..]) == 0)
    {
      CountActiveZero(lists[t][head..]);
      for j := head to |lists[t]|
        invariant forall k :: head <= k < j ==> !Active(lists[t][k])
      {
        if lists[t][j].attempts != -1 {
          assert lists[t][head..][j - head] == lists[t][j];
          return false;
        }
      }
      return true;
    }

    /**
     res_nsfallback_ea on the list that starts at source 'head': the search for a given server,
     represented by what its name and address match, and then the fallback.
    */
    method NsFallback(t: nat, head: nat, server: Option<Source -> bool>, evt: Time)
      returns (r: int, evt': Time, ghost built: bool)
      requires Valid() && t < |lists|
      modifies this
      ensures Valid() && maxFd == old(maxFd) && OnlyFrom(old(lists), lists, t, head)
      ensures match ServerFrom(old(lists)[t], head, server)
              case None => r == -1 && lists == old(lists) && evt' == evt
              case Some(i) => FellBack(old(lists)[t], lists[t], head, i, evt, evt', r, built, epoch)
    {
      hide Legal, After, FellBack;
      var i := head;
      if server.Some? {
        while i < |lists[t]|
          invariant head <= i && Valid() && lists == old(lists) && maxFd == old(maxFd)
          invariant ServerFrom(lists[t], head, server) == ServerFrom(lists[t], i, server)
        {
          if server.value(lists[t][i]) {
            break;
          }
          i := i + 1;
        }
      }
      if i >= |lists[t]| {
        return -1, evt, false;
      }
      r, evt', built := FallBack(t, head, i, evt);
    }

    /** The rest of res_nsfallback_ea, once it has settled on source 'i'. */
    method FallBack(t: nat, head: nat, i: nat, evt: Time) returns (r: int, evt': Time, ghost built: bool)
      requires Valid() && In(t, i) && head <= i
      modifies this
      ensures Valid() && maxFd == old(maxFd) && OnlyFrom(old(lists), lists, t, i)
      ensures FellBack(old(lists)[t], lists[t], head, i, evt, evt', r, built, epoch)
    {
      hide Legal, After, EdnsSteps;
      ghost var a := lists[t];
      var oldSize := lists[t][i].ns.edns;
      evt' := evt;
      Shrink(t, i);
      ghost var x := lists[t][i];
      assert lists[t] == a[i := x];
      if lists[t][i].attempts <= 0 {
        ResetSource(t, i);
        var all := AreAllFinished(t, head);
        assert lists[t] == a[i := lists[t][i]];
        return if all then -1 else 0, evt', false;
      }
      ResetTimeouts(t, i);
      evt' := Update(evt, lists[t][i].nextTry);
      if oldSize == 0 {
        return 0, evt', false;
      }
      var payload := Succeeds();
      if !payload {
        return -1, evt', false;
      }
      ghost var b := lists[t];
      CloseSocket(t, i);
      assert TimeoutsReset(a[i := x.(socket := false)], lists[t], i, epoch) by {
        assert TimeoutsReset(a[i := x], b, i, epoch);
        assert lists[t] == b[i := b[i].(socket := false)];
      }
      return 1, evt', true;
    }

    /**
     The resend loop of res_io_check_ea_list.  If a socket is needed and there is no room for one,
     nothing changes.  Otherwise every failure uses up an address and leaves room, so the loop ends,
     with the source given up or with one send.
    */
    method TryNow(t: nat, i: nat)
      requires Valid() && In(t, i) && lists[t][i].attempts >= 1
      modifies this
      ensures Valid() && OnlyFrom(old(lists), lists, t, i) && OnlyTimersAfter(old(lists)[t], lists[t], i)
      ensures SpansKept(old(lists)[t], lists[t], i) && (old(maxFd) > 0 ==> maxFd == old(maxFd))
      ensures var x, y := old(lists)[t][i], lists[t][i];
              if NoRoomFor(x, old(openSockets), old(maxFd)) then View() == old(View())
              else SentTo(x, y, epoch) || TriedAll(x, y)
    {
      FactsAt(t, i);
      ghost var x := lists[t][i];
      assert Trying(x, x);
      hide Legal, After, Timeout, Trying, SentTo, TriedAll, SpansKept, NextAddressTaken;
      assert SpansKept(lists[t], lists[t], i) by { SpansStay(lists[t], i); }
      while lists[t][i].attempts != -1
        invariant Valid() && OnlyFrom(old(lists), lists, t, i) && OnlyTimersAfter(old(lists)[t], lists[t], i)
        invariant old(maxFd) > 0 ==> maxFd == old(maxFd)
        invariant if lists[t][i].attempts == -1 then TriedAll(x, lists[t][i]) else Trying(x, lists[t][i])
        invariant SpansKept(old(lists)[t], lists[t], i)
        invariant lists[t][i].attempts != -1 ==> forall j :: i < j < |lists[t]| ==> lists[t][j] == old(lists)[t][j]
        invariant View() == old(View()) || (!NoRoomFor(x, old(openSockets), old(maxFd)) && openSockets < maxFd)
        decreases x.ns.addresses - lists[t][i].which, lists[t][i].attempts + 1
      {
        ghost var y := lists[t][i];
        StillTrying(x, y);
        var r := Ship(t, i);
        ghost var a := lists[t];
        SpansLater(old(lists)[t], a, i);
        if r != SocketError {
          if r == Unset { SentNow(x, y, a[i], epoch); }
          return;
        }
        NextAddressOf(t, i);
        NextAddressMoves(a, lists[t], i, epoch);
        SpansThen(old(lists)[t], a, lists[t], i);
        TriedNext(x, y, a[i], lists[t][i], epoch);
      }
    }

    /** What res_io_check_ea_list does with a source that timed out: a smaller EDNS size, or the next address. */
    method TimeOut(t: nat, i: nat, evt: Time) returns (evt': Time, ghost built: bool)
      requires Valid() && In(t, i)
      modifies this
      ensures Valid() && OnlyFrom(old(lists), lists, t, i) && OnlyTimersAfter(old(lists)[t], lists[t], i)
      ensures SpansKept(old(lists)[t], lists[t], i) && maxFd == old(maxFd)
      ensures MovedOn(old(lists)[t][i], lists[t][i], built, epoch)
      ensures IsSet(evt) ==> IsSet(evt') && Lteq(evt', evt)
    {
      FactsAt(t, i);
      hide Legal, After, NextAddressTaken, FellBack, SpansKept, MovedOn, AfterFallback, Shrunk;
      ghost var a := lists[t];
      var r;
      r, evt', built := NsFallback(t, i, None, evt);
      ghost var b := lists[t];
      FallbackFacts(a, b, i, evt, evt', r, built, epoch);
      if 1 != r {
        NextAddressOf(t, i);
        NextAddressMoves(b, lists[t], i, epoch);
        SpansThen(a, b, lists[t], i);
      }
      FallbackThen(a[i], b[i], lists[t][i], r, built, epoch);
    }

    /**
     One round of res_io_check_ea_list, for a source that is not finished.  If it timed out, the
     query is built again for the same address, or the next address is taken, or it is given up;
     if it is due and there is room for the socket it needs, it is sent to, at the first address from
     the present one on that can be sent to, or given up when there is none; otherwise it is left
     alone.
    */
    method CheckSource(t: nat, i: nat, now: Time, evt: Time) returns (evt': Time, ghost built: bool)
      requires Valid() && In(t, i) && Active(lists[t][i])
      modifies this
      ensures Valid() && OnlyFrom(old(lists), lists, t, i) && OnlyTimersAfter(old(lists)[t], lists[t], i)
      ensures SpansKept(old(lists)[t], lists[t], i) && (old(maxFd) > 0 ==> maxFd == old(maxFd))
      ensures EventUpdated(evt, evt', lists[t][i])
      ensures var x, y := old(lists)[t][i], lists[t][i];
              if Lteq(x.cancel, now) || (x.attempts == 0 && Lteq(x.nextTry, now)) then
                MovedOn(x, y, built, epoch)
              else if Lteq(x.nextTry, now) && !NoRoomFor(x, old(openSockets), old(maxFd)) then
                SentTo(x, y, epoch) || TriedAll(x, y)
              else
                View() == old(View()) && evt' == Update(Update(evt, x.cancel), x.nextTry)
    {
      FactsAt(t, i);
      hide Legal, After, Timeout, MovedOn, SentTo, TriedAll;
      evt', built := evt, false;
      var x := lists[t][i];
      if Lteq(x.cancel, now) || (0 == x.attempts && Lteq(x.nextTry, now)) {
        evt', built := TimeOut(t, i, evt);
      } else if Lteq(x.nextTry, now) {
        TryNow(t, i);
      }
      if lists[t][i].attempts != -1 {
        evt' := Update(evt', lists[t][i].cancel);
        evt' := Update(evt', lists[t][i].nextTry);
      }
    }

    /**
     res_io_check_ea_list.  The event is no later than any timer of a source still being tried,
     whatever the timers were before, if there is room for the sockets that can be needed; and
     without room, if no source's cancel time is as far after its next try as the clock is after
     zero.  A timer that is not set afterwards is the next try of a source that was left alone
     without a socket.  If all sources are left alone, nothing changes, and the event is the
     earliest of their timers as UPDATE has it.  Each source has one round as CheckSource has it, the
     first one with its own timers, and a later one with those that the rounds before it leave it.
    */
    method CheckList(t: nat, now: Option<Time>, evt: Time) returns (r: CheckResult, evt': Time, active: nat)
      requires Valid() && t < |lists|
      modifies this
      ensures Valid() && OnlyFrom(old(lists), lists, t, 0) && (old(maxFd) > 0 ==> maxFd == old(maxFd))
      ensures active == CountActive(lists[t]) && (r == NoAnswer <==> active == 0)
      ensures WakesUp(evt, evt', lists[t]) && Users(lists[t]) <= Users(old(lists)[t])
      ensures forall j :: 0 <= j < |lists[t]| ==>
                && lists[t][j].sent <= old(lists)[t][j].sent + 1
                && (Forward(old(lists)[t], now) ==>
                      TimersOk(old(lists)[t][j], lists[t][j], Room(old(lists), t, old(maxFd)), Reading(now, epoch)))
      ensures Forward(old(lists)[t], now) && Serves(old(lists), t, old(maxFd), Reading(now, epoch)) ==>
                Timed(lists[t]) && WakesInTime(evt', lists[t])
      ensures exists at :: IsReading(now, at, epoch) &&
                           ListTurned(old(lists)[t], lists[t], at, Room(old(lists), t, old(maxFd)), epoch)
      ensures now.Some? && AllLeftAlone(old(lists)[t], now.value, old(openSockets), old(maxFd)) ==>
                View() == old(View()) && evt' == EventAfter(evt, lists[t])
    {
      hide Legal, After, Live, Users, Room, SourceOk, SendBound, Passing, Rounded, NextEvent, AllLeftAlone, LeftAlone,
           Forward, Serves, TimersOk, Timed, WakesInTime, WakesUp, CountActive, EventAfter, EventStep, SpansKept,
           OnlyTimersAfter, ListTurned;
      ghost var s0 := View();
      var localNow;
      match now {
        case None => localNow := GetTimeOfDay();
        case Some(v) => localNow := v;
      }
      ghost var p := PassOf(s0, t, now, localNow, epoch);
      PassStart(s0, t, now, localNow, epoch, evt);
      evt', active := evt, 0;
      var i := 0;
      while i < |lists[t]|
        invariant Valid() && OnlyFrom(s0.lists, lists, t, 0) && 0 <= i <= |lists[t]|
        invariant s0.maxFd > 0 ==> maxFd == s0.maxFd
        invariant Passing(p, lists[t], i, evt, evt', active) && (p.idle ==> View() == s0)
      {
        ghost var s1, evt0 := View(), evt';
        Facts();
        PassTurn(p, s0, s1, t, i, now, localNow, epoch, evt, evt0, active);
        ghost var built;
        var running;
        running, evt', built := CheckNext(t, i, localNow, evt');
        PassStep(p, s1, lists[t], t, i, built, evt, evt0, evt', active);
        if running {
          active := active + 1;
        }
        i := i + 1;
      }
      PassEnd(s0, lists[t], t, now, localNow, epoch, evt, evt', active);
      r := if active > 0 then Remaining else NoAnswer;
    }

    /** The loop body of res_io_check_ea_list, which skips a source that is finished. */
    method CheckNext(t: nat, i: nat, now: Time, evt: Time) returns (running: bool, evt': Time, ghost built: bool)
      requires Valid() && In(t, i)
      modifies this
      ensures Valid() && OnlyFrom(old(lists), lists, t, i) && OnlyTimersAfter(old(lists)[t], lists[t], i)
      ensures SpansKept(old(lists)[t], lists[t], i) && (old(maxFd) > 0 ==> maxFd == old(maxFd))
      ensures running == Active(lists[t][i])
      ensures NextEvent(evt, evt', lists[t][i])
      ensures var x, y := old(lists)[t][i], lists[t][i];
              && Rounded(x, y, now, old(openSockets), old(maxFd), built, epoch)
              && ((Active(x) ==> LeftAlone(x, now, old(openSockets), old(maxFd))) ==>
                    View() == old(View()) && evt' == EventStep(evt, x))
    {
      hide Legal, After, EventUpdated, SentTo, TriedAll, MovedOn, Lteq, Update;
      evt', built := evt, false;
      running := false;
      if lists[t][i].attempts != -1 {
        evt', built := CheckSource(t, i, now, evt);
        running := lists[t][i].attempts != -1;
      }
    }

    /** res_io_check: every transaction is looked at, the given one last. */
    method Check(tid: nat) returns (active: bool, evt: Time)
      requires Valid() && tid < MAX_TRANSACTIONS
      modifies this
      ensures Valid() && |lists| == |old(lists)| == MAX_TRANSACTIONS
      ensures active == (CountActive(lists[tid]) > 0)
      ensures (forall t :: 0 <= t < |lists| ==> Timed(lists[t])) ==>
                forall t :: 0 <= t < |lists| ==> WakesInTime(evt, lists[t])
      ensures ServesAll(old(lists), old(maxFd), epoch) ==> forall t :: 0 <= t < |lists| ==> WakesInTime(evt, lists[t])
      ensures exists at: Time :: at.sec >= epoch && AllTurned(old(lists), lists, at, old(maxFd), epoch)
    {
      Facts();
      hide Legal, After, Live, SendBound, SourceOk, CountActive, WakesUp, Timed, WakesInTime, ServesAll, AllChecked,
           ListTurned, AllTurned, RoomForAll;
      var tv := GetTimeOfDay();
      evt := Time(0, 0);
      var i := 0;
      ghost var s0 := View();
      NoneChecked(lists, openSockets, maxFd, tid, tv, epoch);
      while i < MAX_TRANSACTIONS
        invariant Valid() && |lists| == |s0.lists| == MAX_TRANSACTIONS && 0 <= i <= MAX_TRANSACTIONS
        invariant WakesAll(evt, lists, i, tid)
        invariant AllChecked(s0, lists, maxFd, i, tid, tv, epoch)
      {
        if i != tid {
          ghost var a, evt0, m := lists, evt, maxFd;
          TurnServed(s0, a, m, i, i, tid, tv, epoch);
          var other;
          other, evt := CheckOneTid(i, evt, tv);
          WakesAllNext(a, lists, i, tid, evt0, evt);
          OneChecked(s0, a, m, lists, maxFd, i, tid, tv, epoch);
        } else {
          WakesAllSkip(evt, lists, i, tid);
          SkipChecked(s0, lists, maxFd, tid, tv, epoch);
        }
        i := i + 1;
      }
      ghost var a, evt0, m := lists, evt, maxFd;
      TurnServed(s0, a, m, i, tid, tid, tv, epoch);
      active, evt := CheckOneTid(tid, evt, tv);
      WakesAllLast(a, lists, tid, evt0, evt);
      LastChecked(s0, a, m, lists, tid, tv, epoch);
    }

    /** _check_one_tid, which leaves a transaction without sources alone. */
    method CheckOneTid(tid: nat, evt: Time, now: Time) returns (active: bool, evt': Time)
      requires Valid() && tid < |lists|
      modifies this
      ensures Valid() && tid < |old(lists)| && SameShape(old(lists), lists, tid)
      ensures old(maxFd) > 0 ==> maxFd == old(maxFd)
      ensures active == (CountActive(lists[tid]) > 0) && WakesUp(evt, evt', lists[tid])
      ensures Users(lists[tid]) <= Users(old(lists)[tid])
      ensures Forward(old(lists)[tid], Some(now)) && Serves(old(lists), tid, old(maxFd), now.sec) ==> Timed(lists[tid])
      ensures ListTurned(old(lists)[tid], lists[tid], now, Room(old(lists), tid, old(maxFd)), epoch)
    {
      EmptyList(evt);
      hide Legal, After, CountActive, WakesUp, Timed, Users, Room, Turned;
      evt' := evt;
      if lists[tid] == [] {
        return false, evt';
      }
      var r, n;
      r, evt', n := CheckList(tid, Some(now), evt);
      active := n > 0;
    }

    /** The search of res_io_queue_ea, around the table from the slot after the last one given out. */
    method FreeSlot() returns (i: int)
      requires |lists| == MAX_TRANSACTIONS && nextTransaction < MAX_TRANSACTIONS
      ensures i == -1 <==> forall u :: 0 <= u < |lists| ==> lists[u] != []
      ensures i != -1 ==> 0 <= i < |lists| && lists[i] == []
    {
      hide Slot;
      i := nextTransaction;
      ghost var k := 0;
      SlotNext(nextTransaction, 0);
      while lists[i] != []
        invariant 0 <= i < MAX_TRANSACTIONS && 0 <= k < MAX_TRANSACTIONS && i == Slot(nextTransaction, k)
        invariant forall j :: 0 <= j < k ==> lists[Slot(nextTransaction, j)] != []
        decreases MAX_TRANSACTIONS - k
      {
        SlotNext(nextTransaction, k);
        i := (i + 1) % MAX_TRANSACTIONS;
        k := k + 1;
        if i == nextTransaction {
          AllVisited(lists, nextTransaction);
          return -1;
        }
      }
    }

    /** res_io_queue_ea after res_ea_init: a new source goes to the end of its list, or of a free one. */
    method Queue(tid: int, ns: Server, delay: int) returns (ok: bool, id: int)
      requires Valid() && -1 <= tid < MAX_TRANSACTIONS && ns.addresses >= 1
      modifies this
      ensures Valid() && maxFd == old(maxFd) && openSockets == old(openSockets)
      ensures !ok <==> tid == -1 && forall u :: 0 <= u < |old(lists)| ==> old(lists)[u] != []
      ensures !ok ==> id == -1 && lists == old(lists)
      ensures ok ==> && 0 <= id < |old(lists)| == |lists| && (if tid == -1 then old(lists)[id] == [] else id == tid)
                     && |lists[id]| > 0
                     && var src := lists[id][|lists[id]| - 1];
                        && lists == old(lists)[id := old(lists)[id] + [src]]
                        && src == NewSource(ns, src.nextTry, Later(src.nextTry, Timeout(ns)))
                        && src.nextTry.sec >= epoch + delay
    {
      Facts();
      hide Legal, After, Live, SendBound, SourceOk;
      id := tid;
      if tid == -1 {
        id := FreeSlot();
        if id == -1 {
          return false, -1;
        }
        nextTransaction := (id + 1) % MAX_TRANSACTIONS;
      }
      var now := GetTimeOfDay();
      var nextTry := Later(now, delay);
      var timeout := GetTimeout(ns);
      ghost var s := View();
      var src := NewSource(ns, nextTry, Later(nextTry, timeout));
      lists := lists[id := lists[id] + [src]];
      Happened(Enqueue(id, ns, nextTry, Later(nextTry, timeout)), s);
      return true, id;
    }

    /** res_cancel: the whole list is freed, with the sockets it holds. */
    method Cancel(t: nat)
      requires Valid() && t < |lists|
      modifies this
      ensures Valid() && lists == old(lists)[t := []] && maxFd == old(maxFd)
      ensures openSockets == old(openSockets) - LiveIn(old(lists)[t])
    {
      Facts();
      hide Legal, After, SendBound, SourceOk, Live;
      for i := 0 to |lists[t]|
        invariant Valid() && OnlyFrom(old(lists), lists, t, 0) && maxFd == old(maxFd)
        invariant forall j :: 0 <= j < i ==> !lists[t][j].socket
      {
        CloseSocket(t, i);
      }
      ghost var s := View();
      lists := lists[t := []];
      Happened(Forget(t), s);
      assert lists == old(lists)[t := []];
      Facts();
      LivePut(old(lists), t, []);
      assert LiveIn([]) == 0;
    }

    /** res_switch_to_tcp, which res_io_read calls only for a source that is not on TCP yet. */
    method SwitchToTcp(t: nat, i: nat)
      requires Valid() && In(t, i) && !lists[t][i].stream
      modifies this
      ensures Valid() && maxFd == old(maxFd) && OnlyAt(old(lists), lists, t, i)
      ensures SwitchedToTcp(old(lists)[t][i], lists[t][i], epoch)
    {
      hide Legal, After;
      CloseSocket(t, i);
      var x := lists[t][i];
      Step(t, i, x.(stream := true, attempts := x.ns.retry + 1), 0, ToTcp(t, i));
      var timeout := GetTimeout(lists[t][i].ns);
      SetAlarms(t, i, 0, timeout);
    }

    /** res_switch_all_to_tcp: neither attempts nor timers change. */
    method SwitchAllToTcp(t: nat)
      requires Valid() && t < |lists|
      modifies this
      ensures Valid() && maxFd == old(maxFd) && OnlyFrom(old(lists), lists, t, 0)
      ensures forall j :: 0 <= j < |lists[t]| ==> lists[t][j] == old(lists)[t][j].(stream := true, socket := false)
    {
      hide Legal, After;
      for i := 0 to |lists[t]|
        invariant Valid() && maxFd == old(maxFd) && OnlyFrom(old(lists), lists, t, 0)
        invariant forall j :: 0 <= j < |lists[t]| ==>
                    lists[t][j] == if j < i then old(lists)[t][j].(stream := true, socket := false)
                    else old(lists)[t][j]
      {
        Step(t, i, lists[t][i].(stream := true), 0, StartOnTcp(t, i));
        CloseSocket(t, i);
      }
    }

    /** res_io_read: what a read can do to the sources that have data waiting. */
    method Read(t: nat, ready: seq<bool>) returns (handled: nat)
      requires Valid() && t < |lists| && |ready| == |lists[t]|
      modifies this
      ensures Valid() && maxFd == old(maxFd) && OnlyFrom(old(lists), lists, t, 0)
      ensures forall j :: 0 <= j < |lists[t]| ==>
                if ready[j] && Active(old(lists)[t][j]) && old(lists)[t][j].socket
                then ReadOutcome(old(lists)[t][j], lists[t][j], epoch) else lists[t][j] == old(lists)[t][j]
    {
      hide Legal, After;
      handled := 0;
      for i := 0 to |lists[t]|
        invariant Valid() && maxFd == old(maxFd) && OnlyFrom(old(lists), lists, t, 0)
        invariant forall j :: i <= j < |lists[t]| ==> lists[t][j] == old(lists)[t][j]
        invariant forall j :: 0 <= j < i ==>
                    if ready[j] && Active(old(lists)[t][j]) && old(lists)[t][j].socket
                    then ReadOutcome(old(lists)[t][j], lists[t][j], epoch) else lists[t][j] == old(lists)[t][j]
      {
        if lists[t][i].attempts != -1 && lists[t][i].socket && ready[i] {
          handled := handled + 1;
          var received := Succeeds();
          var wouldBlock := Succeeds();
          var truncated := Succeeds();
          if !received && !wouldBlock {
            ResetSource(t, i);
          } else if received && truncated && !lists[t][i].stream {
            SwitchToTcp(t, i);
          }
        }
      }
    }

    /** The part of res_io_get_a_response that drops a malformed response. */
    method DropResponse(t: nat, i: nat)
      requires Valid() && In(t, i)
      modifies this
      ensures Valid() && maxFd == old(maxFd) && OnlyAt(old(lists), lists, t, i)
      ensures var x, y := old(lists)[t][i], lists[t][i];
              && y == x.(socket := false, nextTry := y.nextTry, cancel := Later(y.nextTry, Timeout(x.ns)))
              && y.nextTry.sec >= epoch
    {
      hide Legal, After;
      CloseSocket(t, i);
      var timeout := GetTimeout(lists[t][i].ns);
      SetAlarms(t, i, 0, timeout);
    }
  }

  predicate SwitchedToTcp(x: Source, y: Source, clock: int) {
    && y.nextTry.sec >= clock
    && y == x.(stream := true, socket := false, attempts := x.ns.retry + 1,
               nextTry := y.nextTry, cancel := Later(y.nextTry, Timeout(x.ns)))
  }

  /** Reading leaves a source alone, gives up on its address, or puts it on TCP once. */
  predicate ReadOutcome(x: Source, y: Source, clock: int) {
    || y == x
    || (y == x.(socket := false, cancel := y.cancel) && y.cancel.sec >= clock)
    || (!x.stream && SwitchedToTcp(x, y, clock))
  }

  /** The slot 'j' places after 'start'. */
  function Slot(start: nat, j: nat): (i: nat)
    ensures i < MAX_TRANSACTIONS
  {
    (start + j) % MAX_TRANSACTIONS
  }

  lemma SlotNext(start: nat, j: nat)
    requires start < MAX_TRANSACTIONS && j < MAX_TRANSACTIONS
    ensures Slot(start, 0) == start && Slot(start, j + 1) == (Slot(start, j) + 1) % MAX_TRANSACTIONS
    ensures Slot(start, j + 1) == start <==> j + 1 == MAX_TRANSACTIONS
  {
  }

  lemma AllVisited(lists: seq<seq<Source>>, start: nat)
    requires |lists| == MAX_TRANSACTIONS && start < MAX_TRANSACTIONS
    requires forall j :: 0 <= j < MAX_TRANSACTIONS ==> lists[Slot(start, j)] != []
    ensures forall u :: 0 <= u < |lists| ==> lists[u] != []
  {
    forall u | 0 <= u < |lists| ensures lists[u] != [] {
      var j := (u - start + MAX_TRANSACTIONS) % MAX_TRANSACTIONS;
      assert Slot(start, j) == u;
    }
  }

  /** The event serves every list before 'n' other than 'tid', if all their timers are set. */
  predicate WakesAll(evt: Time, lists: seq<seq<Source>>, n: nat, tid: nat)
    requires n <= |lists|
  {
    (forall t :: 0 <= t < n && t != tid ==> Timed(lists[t])) ==>
      forall t :: 0 <= t < n && t != tid ==> WakesInTime(evt, lists[t])
  }

  lemma WakesAllSkip(evt: Time, lists: seq<seq<Source>>, i: nat, tid: nat)
    requires i < |lists| && WakesAll(evt, lists, i, tid) && i == tid
    ensures WakesAll(evt, lists, i + 1, tid)
  {
  }

  lemma WakesAllNext(a: seq<seq<Source>>, b: seq<seq<Source>>, i: nat, tid: nat, evt: Time, evt': Time)
    requires i < |a| && SameShape(a, b, i) && i != tid
    requires WakesAll(evt, a, i, tid) && WakesUp(evt, evt', b[i])
    ensures WakesAll(evt', b, i + 1, tid)
  {
    hide Timed, WakesInTime;
    if forall t :: 0 <= t < i + 1 && t != tid ==> Timed(b[t]) {
      OthersWake(a, b, i, tid, i, evt, evt');
    }
  }

  /** Handling list 'i', the event still serves the lists it served. */
  lemma OthersWake(a: seq<seq<Source>>, b: seq<seq<Source>>, n: nat, tid: nat, i: nat, evt: Time, evt': Time)
    requires i < |a| && SameShape(a, b, i) && n <= |a| && (i == tid || n <= i)
    requires WakesAll(evt, a, n, tid) && WakesUp(evt, evt', b[i])
    requires Timed(b[i]) && forall t :: 0 <= t < n && t != tid ==> Timed(b[t])
    ensures forall t :: 0 <= t < n && t != tid ==> WakesInTime(evt', b[t])
  {
  }

  lemma WakesAllLast(a: seq<seq<Source>>, b: seq<seq<Source>>, tid: nat, evt: Time, evt': Time)
    requires tid < |a| && SameShape(a, b, tid)
    requires WakesAll(evt, a, |a|, tid) && WakesUp(evt, evt', b[tid])
    ensures (forall t :: 0 <= t < |b| ==> Timed(b[t])) ==> forall t :: 0 <= t < |b| ==> WakesInTime(evt', b[t])
  {
    hide Timed, WakesInTime;
    if forall t :: 0 <= t < |b| ==> Timed(b[t]) {
      OthersWake(a, b, |a|, tid, tid, evt, evt');
    }
  }

  /** What serves the sources of all transactions: room for all, or no long spans. */
  predicate ServesAll(lists: seq<seq<Source>>, maxFd: int, sec: int) {
    && (forall t :: 0 <= t < |lists| ==> Forward(lists[t], None))
    && ((maxFd > 0 && UsersAll(lists) <= maxFd) || forall t :: 0 <= t < |lists| ==> AllPrompt(lists[t], sec))
  }

  function UsersAll(lists: seq<seq<Source>>): nat {
    if lists == [] then 0 else Users(lists[0]) + UsersAll(lists[1..])
  }

  lemma {:induction false} LiveUsersAll(lists: seq<seq<Source>>)
    ensures Live(lists) <= UsersAll(lists)
  {
    if lists != [] {
      LiveAreUsers(lists[0]);
      LiveUsersAll(lists[1..]);
    }
  }

  lemma {:induction false} UsersOfOne(lists: seq<seq<Source>>, t: nat)
    requires t < |lists|
    ensures Live(lists[t := []]) + Users(lists[t]) <= UsersAll(lists)
  {
    hide Users, LiveIn;
    if t == 0 {
      assert lists[0 := []][1..] == lists[1..];
      assert LiveIn([]) == 0 by { NoneLive([]); }
      LiveUsersAll(lists[1..]);
    } else {
      assert lists[t := []][1..] == lists[1..][t - 1 := []];
      LiveAreUsers(lists[0]);
      UsersOfOne(lists[1..], t - 1);
    }
  }

  lemma {:induction false} FewerUsersAll(a: seq<seq<Source>>, b: seq<seq<Source>>)
    requires |a| == |b| && forall t :: 0 <= t < |a| ==> Users(b[t]) <= Users(a[t])
    ensures UsersAll(b) <= UsersAll(a)
  {
    if a != [] { FewerUsersAll(a[1..], b[1..]); }
  }

  predicate RoomForAll(lists: seq<seq<Source>>, maxFd: int) {
    maxFd > 0 && UsersAll(lists) <= maxFd
  }

  /** Every source of every list has had one round. */
  ghost predicate AllTurned(a: seq<seq<Source>>, b: seq<seq<Source>>, at: Time, maxFd: int, clock: int) {
    |a| == |b| && forall t :: 0 <= t < |a| ==> ListTurned(a[t], b[t], at, RoomForAll(a, maxFd), clock)
  }

  lemma LessRoom(a: seq<Source>, b: seq<Source>, at: Time, room: bool, less: bool, clock: int)
    requires ListTurned(a, b, at, room, clock) && (less ==> room)
    ensures ListTurned(a, b, at, less, clock)
  {
    hide Rounded, Waits;
    forall j | 0 <= j < |a| ensures Turned(a[j], b[j], at, less, clock, j == 0) {
      assert Turned(a[j], b[j], at, room, clock, j == 0);
    }
  }

  /** Lists before 'n' other than 'tid' have been checked, if what serves them held in the beginning. */
  ghost predicate AllChecked(s: State, lists: seq<seq<Source>>, maxFd: int, n: nat, tid: nat, at: Time, sec: int) {
    && |lists| == |s.lists| && UsersAll(lists) <= UsersAll(s.lists) && (s.maxFd > 0 ==> maxFd == s.maxFd)
    && forall t :: 0 <= t < |lists| ==>
         if t < n && t != tid then
           && (ServesAll(s.lists, s.maxFd, sec) ==> Timed(lists[t]))
           && ListTurned(s.lists[t], lists[t], at, RoomForAll(s.lists, s.maxFd), sec)
         else lists[t] == s.lists[t]
  }

  lemma NoneChecked(lists: seq<seq<Source>>, open: int, maxFd: int, tid: nat, at: Time, sec: int)
    ensures AllChecked(State(lists, open, maxFd), lists, maxFd, 0, tid, at, sec)
  {
  }

  lemma SkipChecked(s: State, lists: seq<seq<Source>>, maxFd: int, tid: nat, at: Time, sec: int)
    requires AllChecked(s, lists, maxFd, tid, tid, at, sec)
    ensures AllChecked(s, lists, maxFd, tid + 1, tid, at, sec)
  {
  }

  /** A list whose turn has come is still served. */
  lemma TurnServed(s: State, lists: seq<seq<Source>>, maxFd: int, n: nat, i: nat, tid: nat, now: Time, sec: int)
    requires AllChecked(s, lists, maxFd, n, tid, now, sec) && i < |lists| && (n <= i || i == tid)
    requires 0 < sec <= now.sec
    ensures ServesAll(s.lists, s.maxFd, sec) ==> Forward(lists[i], Some(now)) && Serves(lists, i, maxFd, now.sec)
    ensures RoomForAll(s.lists, s.maxFd) ==> Room(lists, i, maxFd)
  {
    UsersOfOne(lists, i);
    hide UsersAll, Users, Live, Timed, ListTurned;
  }

  lemma OneChecked(s: State, a: seq<seq<Source>>, maxFd: int, b: seq<seq<Source>>, maxFd': int,
                   i: nat, tid: nat, at: Time, sec: int)
    requires AllChecked(s, a, maxFd, i, tid, at, sec) && i < |a| && SameShape(a, b, i) && i != tid
    requires Users(b[i]) <= Users(a[i]) && (maxFd > 0 ==> maxFd' == maxFd)
    requires ServesAll(s.lists, s.maxFd, sec) ==> Timed(b[i])
    requires RoomForAll(s.lists, s.maxFd) ==> Room(a, i, maxFd)
    requires ListTurned(a[i], b[i], at, Room(a, i, maxFd), sec)
    ensures AllChecked(s, b, maxFd', i + 1, tid, at, sec)
  {
    hide UsersAll, Users, Timed, ServesAll, ListTurned, RoomForAll, Room;
    LessRoom(a[i], b[i], at, Room(a, i, maxFd), RoomForAll(s.lists, s.maxFd), sec);
    FewerUsersAll(a, b);
  }

  lemma LastChecked(s: State, a: seq<seq<Source>>, maxFd: int, b: seq<seq<Source>>, tid: nat,
                    at: Time, sec: int)
    requires tid < |a| && AllChecked(s, a, maxFd, |a|, tid, at, sec) && SameShape(a, b, tid)
    requires ServesAll(s.lists, s.maxFd, sec) ==> Timed(b[tid])
    requires RoomForAll(s.lists, s.maxFd) ==> Room(a, tid, maxFd)
    requires ListTurned(a[tid], b[tid], at, Room(a, tid, maxFd), sec)
    ensures AllTurned(s.lists, b, at, s.maxFd, sec)
    ensures ServesAll(s.lists, s.maxFd, sec) ==> forall t :: 0 <= t < |b| ==> Timed(b[t])
  {
    hide UsersAll, Timed, ServesAll, ListTurned, RoomForAll, Room;
    LessRoom(a[tid], b[tid], at, Room(a, tid, maxFd), RoomForAll(s.lists, s.maxFd), sec);
  }

  datatype CheckResult = Remaining | NoAnswer

  predicate TimedOut(s: Source, now: Time) {
    Lteq(s.cancel, now) || (s.attempts == 0 && Lteq(s.nextTry, now))
  }

  /** How the event may move when a source has been handled and is left as 's'. */
  predicate EventUpdated(evt: Time, evt': Time, s: Source) {
    (Active(s) ==> IsSet(s.nextTry) && IsSet(s.cancel)) ==>
      && (IsSet(evt) ==> IsSet(evt') && Lteq(evt', evt))
      && (Active(s) ==> WakesFor(evt', s))
  }

  lemma EmptyList(evt: Time)
    ensures WakesUp(evt, evt, []) && CountActive([]) == 0 && Timed([])
  {
  }

  /** If every timer is set, the event is no later than before, and no later than any of them. */
  predicate WakesUp(evt: Time, evt': Time, list: seq<Source>) {
    Timed(list) ==> WakesInTime(evt', list) && (IsSet(evt) ==> IsSet(evt') && Lteq(evt', evt))
  }

  lemma WakesUpSnoc(evt: Time, evt1: Time, evt2: Time, list: seq<Source>, s: Source)
    requires WakesUp(evt, evt1, list)
    requires if Active(s) then EventUpdated(evt1, evt2, s) else evt1 == evt2 || EventUpdated(evt1, evt2, s)
    ensures WakesUp(evt, evt2, list + [s])
  {
    var all := list + [s];
    if Timed(all) {
      assert forall j :: 0 <= j < |list| ==> all[j] == list[j];
      assert all[|list|] == s;
      assert Timed(list);
    }
  }

  lemma PrefixGrows(a: seq<Source>, b: seq<Source>, i: nat)
    requires i < |a| == |b| && forall j :: 0 <= j < i ==> b[j] == a[j]
    ensures b[..i + 1] == a[..i] + [b[i]]
  {
  }

  lemma CountActiveSnoc(list: seq<Source>, s: Source)
    ensures CountActive(list + [s]) == CountActive(list) + if Active(s) then 1 else 0
  {
    assert (list + [s])[..|list|] == list;
  }

  // ----- the wake-up -----

  /** How long after its next try the source is given up, in seconds. */
  function Span(s: Source): int {
    s.cancel.sec - s.nextTry.sec
  }

  predicate SpansSame(a: seq<Source>, b: seq<Source>, i: nat) {
    |a| == |b| && forall j :: i < j < |a| ==> Span(b[j]) == Span(a[j])
  }

  /** Handling source 'i' moves the timers of later ones together, or sets those of the next one. */
  predicate SpansKept(a: seq<Source>, b: seq<Source>, i: nat) {
    |a| == |b| && forall j :: i < j < |a| ==> Span(b[j]) == Span(a[j]) || (j == i + 1 && b[j].nextTry.sec > 0)
  }

  lemma SpansStay(a: seq<Source>, i: nat)
    ensures SpansKept(a, a, i)
  {
  }

  lemma SpansLater(a: seq<Source>, b: seq<Source>, i: nat)
    requires |a| == |b| && forall j :: i < j < |a| ==> b[j] == a[j]
    ensures SpansSame(a, b, i) && SpansKept(a, b, i)
  {
  }

  lemma StillTrying(x: Source, y: Source)
    requires Trying(x, y) && x.attempts >= 1
    ensures y.which < y.ns.addresses == x.ns.addresses && y.attempts >= 1 && (y == x || !y.socket)
  {
  }

  lemma SentNow(x: Source, y: Source, z: Source, clock: int)
    requires Trying(x, y) && SentAt(z, clock)
    requires z == y.(socket := true, attempts := y.attempts - 1, sent := y.sent + 1,
                     nextTry := z.nextTry, cancel := z.cancel)
    ensures SentTo(x, z, clock)
  {
    hide Timeout;
  }

  /** A failure to send and the next address. */
  lemma TriedNext(x: Source, y: Source, z: Source, w: Source, clock: int)
    requires Trying(x, y) && z == y.(socket := false, nextTry := z.nextTry, cancel := z.cancel)
    requires if z.which + 1 < z.ns.addresses then Moved(z, w, clock)
             else w == z.(socket := false, attempts := -1, nextTry := w.nextTry, cancel := w.cancel)
    ensures if w.attempts == -1 then TriedAll(x, w) else Trying(x, w)
    ensures w.attempts == -1 || (w.attempts >= 1 && w.which == y.which + 1)
  {
    hide Timeout;
  }

  lemma SpansThen(a: seq<Source>, b: seq<Source>, c: seq<Source>, i: nat)
    requires SpansSame(a, b, i) && SpansKept(b, c, i)
    ensures SpansKept(a, c, i)
  {
  }

  /** Neither timer is before the clock. */
  predicate SetFrom(s: Source, clock: int) {
    s.nextTry.sec >= clock && s.cancel.sec >= clock
  }

  /** The source is not due, or has to wait for room for a socket. */
  predicate LeftAlone(s: Source, now: Time, open: int, maxFd: int) {
    !TimedOut(s, now) && (Lteq(s.nextTry, now) ==> NoRoomFor(s, open, maxFd))
  }

  predicate AllLeftAlone(list: seq<Source>, now: Time, open: int, maxFd: int) {
    forall j :: 0 <= j < |list| && Active(list[j]) ==> LeftAlone(list[j], now, open, maxFd)
  }

  /** The time given is not before zero, and no source sends again before it has sent. */
  predicate Forward(list: seq<Source>, now: Option<Time>) {
    && (now.Some? ==> Lteq(Time(0, 0), now.value))
    && forall j :: 0 <= j < |list| ==> list[j].ns.retrans >= 0
  }

  /** The seconds that the clock is known to have reached. */
  function Reading(now: Option<Time>, epoch: int): int {
    if now.Some? then now.value.sec else epoch
  }

  /** How many sources have a socket or may still ask for one. */
  function Users(list: seq<Source>): nat {
    if list == [] then 0 else (if Using(list[0]) then 1 else 0) + Users(list[1..])
  }

  predicate Using(s: Source) {
    s.socket || Active(s)
  }

  /** There is room for the sockets of the other lists and of all users of this one. */
  predicate Room(lists: seq<seq<Source>>, t: nat, maxFd: int)
    requires t < |lists|
  {
    maxFd > 0 && Live(lists[t := []]) + Users(lists[t]) <= maxFd
  }

  /** No source's cancel time is as far after its next try as this many seconds. */
  predicate AllPrompt(list: seq<Source>, sec: int) {
    forall j :: 0 <= j < |list| && Active(list[j]) ==> Span(list[j]) < sec
  }

  predicate Serves(lists: seq<seq<Source>>, t: nat, maxFd: int, sec: int)
    requires t < |lists|
  {
    Room(lists, t, maxFd) || AllPrompt(lists[t], sec)
  }

  /**
   Both timers are set, except that the next try of a source that waits for a socket may be zero,
   when there is no room and the source was to be given up this long after its next try.
  */
  predicate TimersOk(x: Source, y: Source, room: bool, sec: int) {
    Active(y) ==>
      && IsSet(y.cancel)
      && (IsSet(y.nextTry) || (!room && Span(x) >= sec && !y.socket &&
                               y == x.(nextTry := Time(0, 0), cancel := y.cancel)))
  }

  /** The event after an update with both timers of an active source. */
  function EventStep(evt: Time, s: Source): Time {
    if Active(s) then Update(Update(evt, s.cancel), s.nextTry) else evt
  }

  /** The event after updates with the timers of all active sources of a list. */
  function EventAfter(evt: Time, list: seq<Source>): Time {
    if list == [] then evt else EventStep(EventAfter(evt, list[..|list| - 1]), list[|list| - 1])
  }

  lemma EventAfterSnoc(evt: Time, list: seq<Source>, s: Source)
    ensures EventAfter(evt, list + [s]) == EventStep(EventAfter(evt, list), s)
  {
    assert (list + [s])[..|list|] == list;
  }

  predicate BeforeZero(t: Time) {
    !Lteq(Time(0, 0), t)
  }

  /** With all next tries set, the event after the updates is no later than any timer. */
  lemma {:induction false} EventServes(evt: Time, list: seq<Source>)
    ensures WakesUp(evt, EventAfter(evt, list), list)
  {
    hide WakesUp;
    if list == [] {
      EmptyList(evt);
    } else {
      var front, x := list[..|list| - 1], list[|list| - 1];
      EventServes(evt, front);
      assert list == front + [x];
      WakesUpSnoc(evt, EventAfter(evt, front), EventAfter(evt, list), front, x);
    }
  }

  /** Once an event or timer is before zero, the event stays at the earliest one. */
  lemma {:induction false} NegativeStays(evt: Time, list: seq<Source>)
    ensures BeforeZero(EventAfter(evt, list)) <==>
              BeforeZero(evt) || exists s :: s in list && Active(s) && (BeforeZero(s.cancel) || BeforeZero(s.nextTry))
    ensures BeforeZero(EventAfter(evt, list)) ==> WakesInTime(EventAfter(evt, list), list)
  {
    if list != [] {
      var front, x := list[..|list| - 1], list[|list| - 1];
      NegativeStays(evt, front);
      assert list == front + [x];
      NegativeStep(EventAfter(evt, front), x, front);
    }
  }

  lemma NegativeStep(evt: Time, x: Source, front: seq<Source>)
    requires BeforeZero(evt) ==> WakesInTime(evt, front)
    requires !BeforeZero(evt) ==>
               forall s :: s in front && Active(s) ==> !BeforeZero(s.cancel) && !BeforeZero(s.nextTry)
    ensures BeforeZero(EventStep(evt, x)) <==>
              BeforeZero(evt) || (Active(x) && (BeforeZero(x.cancel) || BeforeZero(x.nextTry)))
    ensures BeforeZero(EventStep(evt, x)) ==> WakesInTime(EventStep(evt, x), front + [x])
  {
  }

  /**
   When every source is left alone, the event serves them all exactly if every next try is set, or
   something is before zero.  UPDATE takes a next try of zero for no event.
  */
  lemma WakeUpExact(evt: Time, list: seq<Source>, now: Time, open: int, maxFd: int)
    requires AllLeftAlone(list, now, open, maxFd) && !BeforeZero(now)
    ensures WakesInTime(EventAfter(evt, list), list) <==>
              || BeforeZero(evt)
              || (forall s :: s in list && Active(s) ==> IsSet(s.nextTry))
              || (exists s :: s in list && Active(s) && BeforeZero(s.nextTry))
  {
    EventServes(evt, list);
    NegativeStays(evt, list);
    hide EventAfter, NoRoomFor;
    forall s | s in list && Active(s) ensures IsSet(s.cancel) && !BeforeZero(s.cancel) {
      assert LeftAlone(s, now, open, maxFd);
    }
    if s :| s in list && Active(s) && !IsSet(s.nextTry) {
      var j :| 0 <= j < |list| && list[j] == s;
      assert WakesInTime(EventAfter(evt, list), list) ==> WakesFor(EventAfter(evt, list), list[j]);
    }
  }

  lemma OneEvent(es: seq<Event>, e: Event, s: State)
    requires Legal(es) && After(es) == s && Enabled(s, e)
    ensures Legal(es + [e]) && After(es + [e]) == Apply(s, e)
  {
    hide Enabled, Apply;
    assert (es + [e])[..|es|] == es;
  }

  /** A run to a state with one socket allowed and in use. */
  lemma OneBusy(y: Source) returns (es: seq<Event>)
    requires y == NewSource(y.ns, y.nextTry, y.cancel) && y.ns.addresses >= 1
    ensures Legal(es)
    ensures var s := After(es);
            |s.lists| == MAX_TRANSACTIONS && s.lists[0] == [y.(socket := true)] && s.lists[1] == []
            && s.open == 1 && s.maxFd == 1
  {
    es := [];
    var s := Initial();
    assert Legal([]) && After([]) == s;
    hide Legal, After;
    OneEvent(es, Limit(1), s);
    es := es + [Limit(1)];
    s := Apply(s, Limit(1));
    var e := Enqueue(0, y.ns, y.nextTry, y.cancel);
    OneEvent(es, e, s);
    es := es + [e];
    s := Apply(s, e);
    assert s.lists[0] == [] + [y] == [y];
    OneEvent(es, Open(0, 0), s);
    es := es + [Open(0, 0)];
    assert [y][0 := y.(socket := true)] == [y.(socket := true)];
  }

  /**
   A wake-up that is lost, whatever the clock: one socket is allowed and in use, and a source of
   another list waits for one with a next try of zero.  A pass over its list leaves it alone, as
   CheckList has it, and the event ends as none.  One socket more would have served the source, and
   so would a cancel time one second closer to its next try.
  */
  lemma WakeUpLost(now: Time) returns (es: seq<Event>)
    requires now.sec > 0
    ensures Legal(es) && |After(es).lists| == MAX_TRANSACTIONS
    ensures var s := After(es);
            && |s.lists[1]| == 1 && Active(s.lists[1][0]) && AllLeftAlone(s.lists[1], now, s.open, s.maxFd)
            && !WakesInTime(EventAfter(Time(0, 0), s.lists[1]), s.lists[1])
            && EventAfter(Time(0, 0), s.lists[1]) == Time(0, 0)
            && Live(s.lists[1 := []]) + Users(s.lists[1]) == s.maxFd + 1 && Span(s.lists[1][0]) == now.sec
  {
    var ns, zero, cancel := Server(0, 1, 1, 512, true), Time(0, 0), Time(now.sec, now.usec + 1);
    var x, y := NewSource(ns, zero, cancel), NewSource(ns, now, cancel);
    StarvedSource(x, now);
    es := OneBusy(y);
    var s1 := After(es);
    hide Legal, After, Live, Users, EventAfter, WakesInTime, AllLeftAlone;
    OneEvent(es, Enqueue(1, ns, zero, cancel), s1);
    es := es + [Enqueue(1, ns, zero, cancel)];
    var s := After(es);
    assert s.lists[1] == [] + [x] == [x];
    EveryRun(es);
    LivePut(s.lists, 1, []);
  }

  lemma StarvedSource(x: Source, now: Time)
    requires x == NewSource(x.ns, Time(0, 0), Time(now.sec, now.usec + 1)) && now.sec > 0
    ensures AllLeftAlone([x], now, 1, 1) && LiveIn([x]) == LiveIn([]) == 0 && Users([x]) == 1
    ensures EventAfter(Time(0, 0), [x]) == Time(0, 0) && !WakesInTime(Time(0, 0), [x])
  {
    assert [x][1..] == [] && [x][..0] == [] && [x][0] == x;
    assert EventAfter(Time(0, 0), [x]) == EventStep(EventAfter(Time(0, 0), []), x);
    assert !WakesFor(Time(0, 0), [x][0]);
  }

  /** What one round does to its source. */
  predicate Rounded(x: Source, y: Source, now: Time, open: int, maxFd: int, built: bool, clock: int) {
    if !Active(x) then y == x
    else if Lteq(x.cancel, now) || (x.attempts == 0 && Lteq(x.nextTry, now)) then MovedOn(x, y, built, clock)
    else if Lteq(x.nextTry, now) && !NoRoomFor(x, open, maxFd) then SentTo(x, y, clock) || TriedAll(x, y)
    else y == x
  }

  /**
   What a pass does to a source: one round, at the time 'at', with its own timers if it is the first,
   and always with room for its socket if there is 'room'.
  */
  ghost predicate Turned(x: Source, y: Source, at: Time, room: bool, clock: int, first: bool) {
    exists w: Source, open: int, maxFd: int, built: bool ::
      && Rounded(w, y, at, open, maxFd, built, clock)
      && Waits(x, w, true) && (first ==> w == x)
      && (room && Active(w) && !w.socket ==> open < maxFd)
  }

  ghost predicate ListTurned(a: seq<Source>, b: seq<Source>, at: Time, room: bool, clock: int) {
    |a| == |b| && forall j :: 0 <= j < |a| ==> Turned(a[j], b[j], at, room, clock, j == 0)
  }

  /** The time that a pass goes by: the one given, or a reading of the clock. */
  predicate IsReading(now: Option<Time>, at: Time, epoch: int) {
    if now.Some? then at == now.value else at.sec >= epoch
  }

  /**
   A queue whose first source is due, not timed out, and has room: the pass sends to it, or gives it
   up after trying every address from its present one to the last.
  */
  lemma DueIsSent(a: seq<Source>, b: seq<Source>, at: Time, clock: int)
    requires ListTurned(a, b, at, true, clock) && a != [] && a[0].attempts >= 1
    requires Lteq(a[0].nextTry, at) && !Lteq(a[0].cancel, at)
    ensures var x, y := a[0], b[0];
            || (y.attempts == -1 && y.which == x.ns.addresses - 1 && !y.socket && y.sent == x.sent)
            || (y.sent == x.sent + 1 && y.socket && y.nextTry.sec >= clock + x.ns.retrans && x.which <= y.which)
  {
    assert Turned(a[0], b[0], at, true, clock, true);
  }

  /**
   A queue whose first source has timed out: its EDNS size is the next smaller one of the table, it
   stays at its address or takes the next one, and it is not given up while there is another address.
  */
  lemma TimedOutGoesOn(a: seq<Source>, b: seq<Source>, at: Time, room: bool, clock: int)
    requires ListTurned(a, b, at, room, clock) && a != [] && a[0].attempts >= 0 && Lteq(a[0].cancel, at)
    ensures var x, y := a[0], b[0];
            && !y.socket && y.sent == x.sent && y.stream == x.stream
            && (y.attempts == -1 ==> x.which + 1 >= x.ns.addresses)
            && y.ns == x.ns.(edns := if x.ns.stub && x.ns.edns > 4096 then 4096
                                     else if x.ns.stub && x.ns.edns > 1492 then 1492
                                     else if x.ns.stub && x.ns.edns > 512 then 512 else x.ns.edns)
            && (y.which == x.which || (y.which == x.which + 1 && y.attempts == x.ns.retry + 1))
            && (y.which == x.which && y.attempts != -1 ==>
                  y.attempts == x.attempts + if x.ns.stub && x.ns.edns > 512 then 1 else 0)
  {
    assert Turned(a[0], b[0], at, room, clock, true);
  }

  /** A source whose turn is still to come. */
  predicate Waits(x: Source, y: Source, first: bool) {
    && y == x.(nextTry := y.nextTry, cancel := y.cancel)
    && (Span(y) == Span(x) || (first && y.nextTry.sec > 0))
  }

  /** What is known when a pass starts: the list, and what of the conditions of CheckList holds. */
  datatype Pass = Pass(list: seq<Source>, at: Time, clock: int, room: bool, sec: int, forward: bool, idle: bool)

  function PassOf(s: State, t: nat, now: Option<Time>, at: Time, epoch: int): Pass
    requires t < |s.lists|
  {
    Pass(s.lists[t], at, epoch, Room(s.lists, t, s.maxFd), Reading(now, epoch), Forward(s.lists[t], now),
         now.Some? && AllLeftAlone(s.lists[t], now.value, s.open, s.maxFd))
  }

  /** The list, the event and the count when source 'i' is about to be handled. */
  ghost predicate Passing(p: Pass, y: seq<Source>, i: nat, evt: Time, evt': Time, active: nat) {
    && Sources(p, y, i)
    && WakesUp(evt, evt', y[..i]) && active == CountActive(y[..i])
    && (p.idle ==> y == p.list && evt' == EventAfter(evt, y[..i]))
  }

  ghost predicate Sources(p: Pass, y: seq<Source>, i: nat) {
    && i <= |p.list| == |y| && Users(y) <= Users(p.list)
    && (forall j :: 0 <= j < i ==>
          && y[j].sent <= p.list[j].sent + 1 && Turned(p.list[j], y[j], p.at, p.room, p.clock, j == 0)
          && (p.forward ==> TimersOk(p.list[j], y[j], p.room, p.sec)))
    && (forall j :: i <= j < |y| ==> Waits(p.list[j], y[j], j == i)) && (i == 0 ==> y == p.list)
  }

  lemma PassStart(s: State, t: nat, now: Option<Time>, at: Time, epoch: int, evt: Time)
    requires t < |s.lists| && IsReading(now, at, epoch)
    ensures Passing(PassOf(s, t, now, at, epoch), s.lists[t], 0, evt, evt, 0)
  {
    EmptyList(evt);
    hide Users, Room, Forward, AllLeftAlone, WakesUp;
    assert s.lists[t][..0] == [];
  }

  /** The timers after a round that did not leave its source alone. */
  lemma RoundSets(x: Source, y: Source, built: bool, clock: int)
    requires x.ns.retrans >= 0 && (MovedOn(x, y, built, clock) || SentTo(x, y, clock) || TriedAll(x, y))
    ensures Active(y) ==> SetFrom(y, clock)
  {
    TimeoutSign(x.ns);
    hide Timeout, EdnsSteps, Smaller;
  }

  /** A source that has had its round. */
  lemma RoundTimers(x: Source, y: Source, z: Source, now: Time, open: int, maxFd: int, built: bool, clock: int,
                    room: bool, sec: int)
    requires Waits(x, y, true) && Rounded(y, z, now, open, maxFd, built, clock)
    requires Lteq(Time(0, 0), now) && sec <= now.sec && y.ns.retrans >= 0 && clock > 0
    requires room && Active(y) && !y.socket ==> open < maxFd
    ensures TimersOk(x, z, room, sec)
  {
    hide MovedOn, SentTo, TriedAll;
    if MovedOn(y, z, built, clock) || SentTo(y, z, clock) || TriedAll(y, z) { RoundSets(y, z, built, clock); }
  }

  lemma SourcesStep(p: Pass, y: seq<Source>, z: seq<Source>, i: nat, open: int, maxFd: int, built: bool)
    requires Sources(p, y, i) && i < |z| == |y| && forall j :: 0 <= j < i ==> z[j] == y[j]
    requires OnlyTimersAfter(y, z, i) && SpansKept(y, z, i) && Rounded(y[i], z[i], p.at, open, maxFd, built, p.clock)
    requires p.forward ==> Lteq(Time(0, 0), p.at) && p.sec <= p.at.sec && y[i].ns.retrans >= 0
    requires p.clock > 0 && (p.room && Active(y[i]) && !y[i].socket ==> open < maxFd)
    ensures Sources(p, z, i + 1)
  {
    hide Users, TimersOk, Rounded, Lteq;
    if p.forward { RoundTimers(p.list[i], y[i], z[i], p.at, open, maxFd, built, p.clock, p.room, p.sec); }
    RoundUses(y[i], z[i], p.at, open, maxFd, built, p.clock);
    assert Turned(p.list[i], z[i], p.at, p.room, p.clock, i == 0);
    hide Turned;
    FewerUsers(y, z);
  }

  /** What holds before the turn of source 'i'. */
  predicate Turn(p: Pass, s: State, t: nat, i: nat)
    requires Has(s, t, i)
  {
    var x := s.lists[t][i];
    && p.clock > 0
    && (p.forward ==> Lteq(Time(0, 0), p.at) && p.sec <= p.at.sec && x.ns.retrans >= 0)
    && (p.room && Active(x) && !x.socket ==> s.open < s.maxFd)
    && (p.idle && Active(x) ==> LeftAlone(x, p.at, s.open, s.maxFd))
  }

  lemma PassTurn(p: Pass, s: State, s1: State, t: nat, i: nat, now: Option<Time>, at: Time, epoch: int,
                 evt: Time, evt': Time, active: nat)
    requires OnlyFrom(s.lists, s1.lists, t, 0) && p == PassOf(s, t, now, at, epoch) && i < |s1.lists[t]|
    requires Passing(p, s1.lists[t], i, evt, evt', active) && (p.idle ==> s1 == s)
    requires epoch > 0 && IsReading(now, at, epoch)
    requires s1.open == Live(s1.lists) && (s.maxFd > 0 ==> s1.maxFd == s.maxFd)
    ensures Turn(p, s1, t, i)
  {
    hide WakesUp, CountActive, EventAfter, Users, TimersOk, Live, LeftAlone, Turned;
    if p.room {
      RoomAtTurn(s.lists, s1.lists, t, i, s.maxFd);
    }
  }

  lemma PassStep(p: Pass, s: State, z: seq<Source>, t: nat, i: nat, built: bool,
                 evt: Time, evt0: Time, evt': Time, active: nat)
    requires Has(s, t, i) && |z| == |s.lists[t]| && Passing(p, s.lists[t], i, evt, evt0, active)
    requires Turn(p, s, t, i)
    requires forall j :: 0 <= j < i ==> z[j] == s.lists[t][j]
    requires OnlyTimersAfter(s.lists[t], z, i) && SpansKept(s.lists[t], z, i)
    requires Rounded(s.lists[t][i], z[i], p.at, s.open, s.maxFd, built, p.clock) && NextEvent(evt0, evt', z[i])
    requires p.idle ==> z == s.lists[t] && evt' == EventStep(evt0, z[i])
    ensures Passing(p, z, i + 1, evt, evt', active + if Active(z[i]) then 1 else 0)
  {
    hide WakesUp, CountActive, EventUpdated, EventAfter, EventStep, Sources, Rounded, SpansKept, OnlyTimersAfter,
         LeftAlone, Lteq;
    var y := s.lists[t];
    assert |y| == |p.list| by { PassingLength(p, y, i, evt, evt0, active); }
    SourcesStep(p, y, z, i, s.open, s.maxFd, built);
    PrefixGrows(y, z, i);
    WakesUpSnoc(evt, evt0, evt', y[..i], z[i]);
    CountActiveSnoc(y[..i], z[i]);
    if p.idle { EventAfterSnoc(evt, y[..i], z[i]); }
  }

  lemma PassingLength(p: Pass, y: seq<Source>, i: nat, evt: Time, evt': Time, active: nat)
    requires i <= |y| && Passing(p, y, i, evt, evt', active)
    ensures |y| == |p.list|
  {
    hide WakesUp, CountActive, EventAfter, Users, TimersOk, Turned;
  }

  /** How the event may move in one round. */
  predicate NextEvent(evt: Time, evt': Time, s: Source) {
    if Active(s) then EventUpdated(evt, evt', s) else evt' == evt || EventUpdated(evt, evt', s)
  }

  lemma RoundUses(x: Source, y: Source, now: Time, open: int, maxFd: int, built: bool, clock: int)
    requires Rounded(x, y, now, open, maxFd, built, clock)
    ensures (Using(y) ==> Using(x)) && y.sent <= x.sent + 1
  {
    hide EdnsSteps, Smaller, Timeout;
  }

  lemma {:induction false} FewerUsers(a: seq<Source>, b: seq<Source>)
    requires |a| == |b| && forall j :: 0 <= j < |a| && Using(b[j]) ==> Using(a[j])
    ensures Users(b) <= Users(a)
  {
    if a != [] { FewerUsers(a[1..], b[1..]); }
  }

  lemma {:induction false} LiveAreUsers(list: seq<Source>)
    ensures LiveIn(list) <= Users(list)
    ensures forall i :: 0 <= i < |list| && Active(list[i]) && !list[i].socket ==> LiveIn(list) < Users(list)
  {
    if list != [] {
      LiveAreUsers(list[1..]);
      forall i | 0 <= i < |list| && Active(list[i]) && !list[i].socket ensures LiveIn(list) < Users(list) {
        if i > 0 { assert list[i] == list[1..][i - 1]; }
      }
    }
  }

  /** With room in the beginning there is room at every turn. */
  lemma RoomAtTurn(a: seq<seq<Source>>, b: seq<seq<Source>>, t: nat, i: nat, maxFd: int)
    requires t < |a| && SameShape(a, b, t) && i < |b[t]| && Room(a, t, maxFd) && Users(b[t]) <= Users(a[t])
    ensures Active(b[t][i]) && !b[t][i].socket ==> Live(b) < maxFd
  {
    hide Live, LiveIn, Users;
    assert a[t := []] == b[t := []];
    LivePut(b, t, []);
    NoneLive([]);
    LiveAreUsers(b[t]);
  }

  lemma PassEnd(s: State, z: seq<Source>, t: nat, now: Option<Time>, at: Time, epoch: int,
                evt: Time, evt': Time, active: nat)
    requires t < |s.lists| && Passing(PassOf(s, t, now, at, epoch), z, |z|, evt, evt', active)
    ensures ListTurned(s.lists[t], z, at, Room(s.lists, t, s.maxFd), epoch)
    ensures |z| == |s.lists[t]| && Users(z) <= Users(s.lists[t]) && WakesUp(evt, evt', z) && active == CountActive(z)
    ensures forall j :: 0 <= j < |z| ==>
              && z[j].sent <= s.lists[t][j].sent + 1
              && (Forward(s.lists[t], now) ==>
                    TimersOk(s.lists[t][j], z[j], Room(s.lists, t, s.maxFd), Reading(now, epoch)))
    ensures Forward(s.lists[t], now) && Serves(s.lists, t, s.maxFd, Reading(now, epoch)) ==>
              Timed(z) && WakesInTime(evt', z)
    ensures now.Some? && AllLeftAlone(s.lists[t], now.value, s.open, s.maxFd) ==> evt' == EventAfter(evt, z)
  {
    hide Room, Users, Forward, CountActive, EventAfter, AllLeftAlone, Turned;
    assert z[..|z|] == z;
  }

  predicate Moved(x: Source, y: Source, clock: int) {
    && y.nextTry.sec >= clock
    && y == x.(socket := false, which := x.which + 1, attempts := x.ns.retry + 1,
               nextTry := y.nextTry, cancel := Later(y.nextTry, Timeout(x.ns)))
  }

  /** What the fallback leaves of its source. */
  predicate AfterFallback(x: Source, y: Source, r: int, built: bool, clock: int) {
    && (r == 1 <==> Rebuilt(x, built))
    && y == Shrunk(x).(socket := y.socket, nextTry := y.nextTry, cancel := y.cancel)
    && (r == 1 ==> !y.socket && y.nextTry.sec >= clock && y.cancel == Later(y.nextTry, Timeout(x.ns)))
  }

  /** The fallback and then the next address, unless the fallback succeeded. */
  lemma FallbackThen(x: Source, y: Source, z: Source, r: int, built: bool, clock: int)
    requires AfterFallback(x, y, r, built, clock)
    requires if r == 1 then z == y else if y.which + 1 < y.ns.addresses then Moved(y, z, clock)
             else z == y.(socket := false, attempts := -1, nextTry := z.nextTry, cancel := z.cancel)
    ensures MovedOn(x, z, built, clock)
  {
    hide EdnsSteps, Smaller;
  }

  /** A move to the next address uses up an address or gives the source up. */
  lemma NextAddressMoves(a: seq<Source>, b: seq<Source>, i: nat, clock: int)
    requires NextAddressTaken(a, b, i, clock) && a[i].which < a[i].ns.addresses
    ensures b[i].sent == a[i].sent && b[i].ns == a[i].ns && !b[i].socket
    ensures OnlyTimersAfter(a, b, i)
    ensures clock > 0 ==> SpansKept(a, b, i)
    ensures Active(b[i]) && b[i].ns.retrans >= 0 ==> SetFrom(b[i], clock)
    ensures if a[i].which + 1 < a[i].ns.addresses then Moved(a[i], b[i], clock)
            else b[i] == a[i].(socket := false, attempts := -1, nextTry := b[i].nextTry, cancel := b[i].cancel)
  {
    TimeoutSign(b[i].ns);
    hide Timeout;
  }

  lemma FallbackFacts(a: seq<Source>, b: seq<Source>, i: nat, evt: Time, evt': Time, r: int, built: bool, clock: int)
    requires FellBack(a, b, i, i, evt, evt', r, built, clock) && clock > 0
    ensures OnlyTimersAfter(a, b, i) && SpansSame(a, b, i) && AfterFallback(a[i], b[i], r, built, clock)
    ensures b[i].which == a[i].which && b[i].ns.addresses == a[i].ns.addresses
    ensures IsSet(evt) ==> IsSet(evt') && Lteq(evt', evt)
  {
    ShrunkTimeout(a[i]);
    hide EdnsSteps, Smaller, Timeout, Shrunk;
  }

  lemma ShrunkTimeout(s: Source)
    ensures Timeout(Shrunk(s).ns) == Timeout(s.ns) && Shrunk(s).which == s.which && Shrunk(s).sent == s.sent
    ensures Shrunk(s).ns.addresses == s.ns.addresses && Shrunk(s).ns.retrans == s.ns.retrans
  {
  }
}
