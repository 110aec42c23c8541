/**
 The policy lookups of libval/val_assertion.c: find_trust_point, which tries one suffix of the
 name after another against the list, and get_zse, which tries one entry of the list after
 another against the name.  The lists are kept by decreasing length of the zone name.
*/
module Policy {
  import opened Names
  import opened NameLength
  import CanonOrder

  datatype Trust = Untrusted | DoVal | Ignore

  datatype Status = UntrustedZone | WaitForTrust | IgnoreValidation

  /** policy_entry_t: the zone in wire form, the policy if there is one, the time to live. */
  datatype Entry = Entry(zone: seq<Byte>, pol: Option<Trust>, ttl: int)

  predicate WellFormed(e: Entry) {
    IsNameAt(e.zone, 0) && ValidName(NameAt(e.zone, 0))
  }

  predicate AllWellFormed(list: seq<Entry>) {
    forall i :: 0 <= i < |list| ==> WellFormed(list[i])
  }

  function Zone(e: Entry): (n: Name)
    requires WellFormed(e)
  {
    NameAt(e.zone, 0)
  }

  /** The order in which the policy file reader leaves a list. */
  predicate Sorted(list: seq<Entry>)
    requires AllWellFormed(list)
  {
    forall i, j :: 0 <= i < j < |list| ==> WireLen(Zone(list[i])) >= WireLen(Zone(list[j]))
  }

  /** The entry is for the name or for an ancestor of it. */
  predicate Applies(e: Entry, n: Name, needPol: bool)
    requires WellFormed(e)
  {
    IsSuffix(Zone(e), n) && (needPol ==> e.pol.Some?)
  }

  /** The first entry from 'i' on that applies. */
  function FirstApplies(list: seq<Entry>, n: Name, needPol: bool, i: nat): (r: Option<nat>)
    requires AllWellFormed(list) && i <= |list|
    ensures r.Some? ==> i <= r.value < |list| && Applies(list[r.value], n, needPol)
    decreases |list| - i
  {
    if i == |list| then None
    else if Applies(list[i], n, needPol) then Some(i)
    else FirstApplies(list, n, needPol, i + 1)
  }

  lemma {:induction false} FirstAppliesIs(list: seq<Entry>, n: Name, needPol: bool, i: nat, k: nat)
    requires AllWellFormed(list) && i <= k <= |list|
    requires forall j :: i <= j < k ==> !Applies(list[j], n, needPol)
    ensures FirstApplies(list, n, needPol, i) == FirstApplies(list, n, needPol, k)
    decreases k - i
  {
    hide Applies, WellFormed;
    if i < k { FirstAppliesIs(list, n, needPol, i + 1, k); }
  }

  lemma {:induction false} NoneBefore(list: seq<Entry>, n: Name, needPol: bool, i: nat)
    requires AllWellFormed(list) && i <= |list|
    ensures var r := FirstApplies(list, n, needPol, i);
            forall j :: i <= j < (if r.Some? then r.value else |list|) ==> !Applies(list[j], n, needPol)
    decreases |list| - i
  {
    hide WellFormed, IsSuffix;
    if i < |list| && !Applies(list[i], n, needPol) { NoneBefore(list, n, needPol, i + 1); }
  }

  /**
   Both lookups, which are proved below to choose FirstApplies, choose the longest match: an
   entry is chosen exactly when some entry applies, and the zone chosen is at or below the zone
   of every entry that applies.
  */
  lemma LongestMatch(list: seq<Entry>, n: Name, needPol: bool)
    requires AllWellFormed(list) && Sorted(list)
    ensures var r := FirstApplies(list, n, needPol, 0);
            && (r.None? <==> forall j :: 0 <= j < |list| ==> !Applies(list[j], n, needPol))
            && (r.Some? ==> forall j :: 0 <= j < |list| && Applies(list[j], n, needPol) ==>
                  IsSuffix(Zone(list[j]), Zone(list[r.value])))
  {
    hide WireLen, IsSuffix;
    var r := FirstApplies(list, n, needPol, 0);
    NoneBefore(list, n, needPol, 0);
    if r.Some? {
      forall j | 0 <= j < |list| && Applies(list[j], n, needPol)
        ensures IsSuffix(Zone(list[j]), Zone(list[r.value]))
      {
        if j != r.value {
          LongerIsBelow(Zone(list[r.value]), Zone(list[j]), n);
        } else {
          SuffixOfItself(Zone(list[j]));
        }
      }
    }
  }

  lemma LongerIsBelow(a: Name, b: Name, n: Name)
    requires IsSuffix(a, n) && IsSuffix(b, n) && WireLen(a) >= WireLen(b)
    ensures IsSuffix(b, a)
  {
    WireLenOrdersSuffixes(b, a, n);
    SuffixesNest(b, a, n);
  }

  /** An entry longer than the name cannot apply. */
  lemma LongerNeverApplies(e: Entry, n: Name, needPol: bool)
    requires WellFormed(e) && WireLen(Zone(e)) > WireLen(n)
    ensures !Applies(e, n, needPol)
  {
    hide WireLen;
    if IsSuffix(Zone(e), n) {
      SuffixWireLen(Zone(e), n);
      WireLenOfTail(n, |n| - |Zone(e)|);
    }
  }

  method SkipLonger(list: seq<Entry>, ghost n: Name, ghost needPol: bool, length: nat) returns (k: nat)
    requires AllWellFormed(list) && length == WireLen(n)
    ensures k <= |list| && forall j :: 0 <= j < k ==> WireLen(Zone(list[j])) > length
    ensures FirstApplies(list, n, needPol, 0) == FirstApplies(list, n, needPol, k)
  {
    hide Applies, WireLen, IsNameAt, NameAt;
    k := 0;
    while k < |list|
      invariant k <= |list| && forall j :: 0 <= j < k ==> WireLen(Zone(list[j])) > length
    {
      var l := WireNameLength(list[k].zone, 0);
      if l <= length {
        break;
      }
      k := k + 1;
    }
    forall j | 0 <= j < k ensures !Applies(list[j], n, needPol) {
      LongerNeverApplies(list[j], n, needPol);
    }
    FirstAppliesIs(list, n, needPol, 0, k);
  }

  /** The name read at 'p' is what is left of 'n' from its 'k'th label on. */
  predicate AtLabel(name: seq<Byte>, p: nat, n: Name, k: nat) {
    k <= |n| && IsNameAt(name, p) && NameAt(name, p) == n[k..] && ValidName(n)
  }

  /** One namecmp call used as an equality test. */
  method SameAt(a: seq<Byte>, p: nat, ghost x: Name, ghost i: nat, b: seq<Byte>, q: nat, ghost y: Name)
    returns (same: bool)
    requires AtLabel(a, p, x, i) && AtLabel(b, q, y, 0)
    ensures same == Same(x[i..], y)
  {
    TailsAreShort(x);
    TailsAreShort(y);
    assert y[0..] == y;
    hide NameAt, IsNameAt, WireLen, CanonOrder.NameOrd, Same;
    CanonOrder.NameOrdZero(x[i..], y);
    var d := CanonOrder.BufCmp(a, p, b, q);
    return d == 0;
  }

  /** The inner loop of get_zse: the first label of the name at which the zone is found, or its end. */
  method ScanFor(zone: seq<Byte>, ghost z: Name, name: seq<Byte>, ghost n: Name) returns (p: nat, ghost k: nat)
    requires AtLabel(zone, 0, z, 0) && AtLabel(name, 0, n, 0)
    ensures AtLabel(name, p, n, k) && forall m :: 0 <= m < k ==> !Same(n[m..], z)
    ensures k <= |n| && (k < |n| ==> Same(n[k..], z))
  {
    hide *;
    p, k := 0, 0;
    AtTail(name, p, n, k);
    while name[p] != 0
      invariant AtLabel(name, p, n, k) && k <= |n|
      invariant p < |name| && (name[p] == 0 <==> k == |n|)
      invariant forall m :: 0 <= m < k ==> !Same(n[m..], z)
      decreases |n| - k
    {
      AtTail(name, p, n, k);
      var same := SameAt(name, p, n, k, zone, 0, z);
      if same {
        break;
      }
      p, k := p + 1 + name[p], k + 1;
      AtTail(name, p, n, k);
    }
  }

  /** Whether the suffix test of get_zse finds the zone at some label of the name, or is for the root. */
  method OccursIn(zone: seq<Byte>, name: seq<Byte>) returns (found: bool)
    requires IsNameAt(zone, 0) && ValidName(NameAt(zone, 0))
    requires IsNameAt(name, 0) && ValidName(NameAt(name, 0))
    ensures found == IsSuffix(NameAt(zone, 0), NameAt(name, 0))
  {
    ghost var z, n := NameAt(zone, 0), NameAt(name, 0);
    assert n[0..] == n && z[0..] == z;
    assert AtLabel(zone, 0, z, 0) && AtLabel(name, 0, n, 0);
    RootNameIs();
    hide *;
    var root := SameAt(zone, 0, z, 0, RootName(), 0, []);
    if root {
      RootEncloses(z, n);
      return true;
    }
    ghost var k;
    var p: nat;
    p, k := ScanFor(zone, z, name, n);
    found := SameAt(name, p, n, k, zone, 0, z);
    if found {
      TailEncloses(z, n, k);
    } else {
      NoTail(z, n);
    }
  }

  function RootName(): seq<Byte> {
    [0]
  }

  lemma RootNameIs()
    ensures AtLabel(RootName(), 0, [], 0)
  {
  }

  /** Reading at the 'k'th label of a name: at its end, or one label before the next. */
  lemma AtTail(name: seq<Byte>, p: nat, n: Name, k: nat)
    requires AtLabel(name, p, n, k)
    ensures k <= |n| && p < |name| && (name[p] == 0 <==> k == |n|)
    ensures k < |n| ==> AtLabel(name, p + 1 + name[p], n, k + 1)
    ensures k < |n| ==> WireLen(n[k..]) == 1 + name[p] + WireLen(n[k + 1..])
  {
    if k < |n| {
      NameAtCons(name, p);
      assert n[k..][1..] == n[k + 1..];
    }
  }

  lemma TailsAreShort(n: Name)
    requires ValidName(n)
    ensures forall k :: 0 <= k <= |n| ==> |n[k..]| < 256
  {
  }

  lemma NoTail(z: Name, n: Name)
    requires forall m :: 0 <= m <= |n| ==> !Same(n[m..], z)
    ensures !IsSuffix(z, n)
  {
    if IsSuffix(z, n) { SuffixIsSame(z, n); }
  }

  lemma RootEncloses(z: Name, n: Name)
    requires Same(z, [])
    ensures IsSuffix(z, n)
  {
  }

  function StatusOf(t: Trust): Status {
    match t
    case Untrusted => UntrustedZone
    case DoVal => WaitForTrust
    case Ignore => IgnoreValidation
  }

  /**
   get_zse.  The time to live given is changed only if the entry chosen has one; the match is the
   place in the name where the zone starts.
  */
  method GetZse(list: seq<Entry>, name: seq<Byte>, ttl: int)
    returns (status: Status, place: Option<nat>, ttl': int)
    requires AllWellFormed(list) && IsNameAt(name, 0) && ValidName(NameAt(name, 0))
    ensures var n, r := NameAt(name, 0), FirstApplies(list, NameAt(name, 0), true, 0);
            match r
            case None => status == WaitForTrust && place == None && ttl' == ttl
            case Some(i) =>
              && status == StatusOf(list[i].pol.value)
              && place.Some? && place.value <= |n| && Same(n[place.value..], Zone(list[i]))
              && ttl' == if list[i].ttl > 0 then list[i].ttl else ttl
  {
    ghost var n := NameAt(name, 0);
    var nameLen := WireNameLength(name, 0);
    hide *;
    var k := SkipLonger(list, n, true, nameLen);
    ghost var first := k;
    while k < |list|
      invariant first <= k <= |list| && forall j :: first <= j < k ==> !Applies(list[j], n, true)
    {
      var applies := EntryApplies(list, k, name);
      if applies {
        FirstAppliesIs(list, n, true, first, k);
        FirstAppliesHere(list, n, true, k);
        status, place, ttl' := UseEntry(list[k], name, ttl);
        return;
      }
      k := k + 1;
    }
    FirstAppliesIs(list, n, true, first, k);
    FirstAppliesEnd(list, n, true);
    return WaitForTrust, None, ttl;
  }

  lemma FirstAppliesHere(list: seq<Entry>, n: Name, needPol: bool, k: nat)
    requires AllWellFormed(list) && k < |list| && Applies(list[k], n, needPol)
    ensures FirstApplies(list, n, needPol, k) == Some(k)
    ensures needPol ==> list[k].pol.Some?
  {
  }

  lemma FirstAppliesEnd(list: seq<Entry>, n: Name, needPol: bool)
    requires AllWellFormed(list)
    ensures FirstApplies(list, n, needPol, |list|) == None
  {
  }

  method EntryApplies(list: seq<Entry>, k: nat, name: seq<Byte>) returns (b: bool)
    requires AllWellFormed(list) && k < |list| && IsNameAt(name, 0) && ValidName(NameAt(name, 0))
    ensures b == Applies(list[k], NameAt(name, 0), true)
  {
    hide IsNameAt, NameAt, ValidName, IsSuffix;
    assert WellFormed(list[k]);
    var found := OccursIn(list[k].zone, name);
    b := found && list[k].pol.Some?;
  }

  /** What get_zse reports of the entry it has chosen. */
  method UseEntry(e: Entry, name: seq<Byte>, ttl: int) returns (status: Status, place: Option<nat>, ttl': int)
    requires WellFormed(e) && IsNameAt(name, 0) && Applies(e, NameAt(name, 0), true)
    ensures status == StatusOf(e.pol.value) && ttl' == if e.ttl > 0 then e.ttl else ttl
    ensures place.Some? && place.value <= |NameAt(name, 0)| && Same(NameAt(name, 0)[place.value..], Zone(e))
  {
    hide IsNameAt, NameAt, ValidName, IsSuffix, Same;
    place := CanonOrder.NameName(NameAt(name, 0), NameAt(e.zone, 0));
    ttl' := if e.ttl > 0 then e.ttl else ttl;
    match e.pol.value
    case Untrusted => status := UntrustedZone;
    case DoVal => status := WaitForTrust;
    case Ignore => status := IgnoreValidation;
  }

  // ----- find_trust_point -----

  /** All entries before 'head' are longer than a length, and those longer are before it. */
  predicate Splits(list: seq<Entry>, head: nat, length: nat)
    requires AllWellFormed(list)
  {
    head <= |list| && forall j :: 0 <= j < head ==> WireLen(Zone(list[j])) > length
  }

  lemma SplitsShorter(list: seq<Entry>, head: nat, length: nat, shorter: nat)
    requires AllWellFormed(list) && Splits(list, head, length) && shorter <= length
    ensures Splits(list, head, shorter)
  {
  }

  /** No entry is for the suffix of 'n' at label 'm'. */
  predicate NoneFor(list: seq<Entry>, t: Name)
    requires AllWellFormed(list)
  {
    forall j :: 0 <= j < |list| ==> !Same(Zone(list[j]), t)
  }

  /**
   The inner loop: looks from 'head' on for an entry for the suffix at 'zp', and moves the head
   past the entries that are longer than it.
  */
  method FindFor(list: seq<Entry>, name: seq<Byte>, zp: nat, head: nat, ghost n: Name, ghost k: nat)
    returns (found: Option<nat>, head': nat)
    requires AllWellFormed(list) && Sorted(list) && AtLabel(name, zp, n, k)
    requires Splits(list, head, WireLen(n[k..]))
    ensures Splits(list, head', WireLen(n[k..]))
    ensures found.None? ==> NoneFor(list, n[k..])
    ensures found.Some? ==> found.value < |list| && Same(Zone(list[found.value]), n[k..])
                            && NoneForBefore(list, n[k..], found.value)
  {
    head' := head;
    LongerDiffers(list, head, n[k..]);
    hide *;
    var cur := head;
    while cur < |list|
      invariant head <= cur <= |list| && head' <= cur && Splits(list, head', WireLen(n[k..]))
      invariant NoneForBefore(list, n[k..], cur)
    {
      var same, longer := CompareEntry(list, cur, name, zp, n, k);
      if longer {
        head' := cur + 1;
      }
      if same {
        return Some(cur), head';
      }
      cur := cur + 1;
    }
    NoneForAll(list, n[k..]);
    found := None;
  }

  predicate NoneForBefore(list: seq<Entry>, t: Name, i: nat)
    requires AllWellFormed(list) && i <= |list|
  {
    forall j :: 0 <= j < i ==> !Same(Zone(list[j]), t)
  }

  lemma NoneForAll(list: seq<Entry>, t: Name)
    requires AllWellFormed(list)
    ensures NoneForBefore(list, t, |list|) ==> NoneFor(list, t)
  {
  }

  /** One round of the inner loop: whether the entry is longer than the suffix, and whether it is for it. */
  method CompareEntry(list: seq<Entry>, cur: nat, name: seq<Byte>, zp: nat, ghost n: Name, ghost k: nat)
    returns (same: bool, longer: bool)
    requires AllWellFormed(list) && Sorted(list) && cur < |list| && AtLabel(name, zp, n, k)
    ensures same == Same(Zone(list[cur]), n[k..])
    ensures longer ==> Splits(list, cur + 1, WireLen(n[k..]))
    ensures !same && NoneForBefore(list, n[k..], cur) ==> NoneForBefore(list, n[k..], cur + 1)
  {
    ghost var z := Zone(list[cur]);
    TailValid(n, k);
    assert z[0..] == z;
    assert AtLabel(list[cur].zone, 0, z, 0);
    SameSymmetric(n[k..], z);
    hide IsNameAt, NameAt, WireLen, Same, ValidLabels;
    same := SameAt(name, zp, n, k, list[cur].zone, 0, z);
    var a := WireNameLength(name, zp);
    var b := WireNameLength(list[cur].zone, 0);
    longer := a < b;
  }

  lemma SameSymmetric(a: Name, b: Name)
    ensures Same(a, b) <==> Same(b, a)
  {
  }

  lemma LongerDiffers(list: seq<Entry>, head: nat, t: Name)
    requires AllWellFormed(list) && Splits(list, head, WireLen(t))
    ensures head <= |list| && NoneForBefore(list, t, head)
  {
    forall j | 0 <= j < head ensures !Same(Zone(list[j]), t) {
      if Same(Zone(list[j]), t) { SameWireLen(Zone(list[j]), t); }
    }
  }

  /** Suffix first and entry first choose the same entry. */
  lemma SuffixFirstIsEntryFirst(list: seq<Entry>, n: Name, k: nat, i: nat)
    requires AllWellFormed(list) && Sorted(list) && k <= |n| && i < |list|
    requires forall m :: 0 <= m < k ==> NoneFor(list, n[m..])
    requires Same(Zone(list[i]), n[k..]) && NoneForBefore(list, n[k..], i)
    ensures FirstApplies(list, n, false, 0) == Some(i)
  {
    SameIsSuffix(Zone(list[i]), n, k);
    forall j | 0 <= j < i ensures !Applies(list[j], n, false) {
      EarlierDoesNotApply(list, n, k, i, j);
    }
    FirstAppliesIs(list, n, false, 0, i);
  }

  lemma EarlierDoesNotApply(list: seq<Entry>, n: Name, k: nat, i: nat, j: nat)
    requires AllWellFormed(list) && Sorted(list) && k <= |n| && j < i < |list|
    requires forall m :: 0 <= m < k ==> NoneFor(list, n[m..])
    requires IsSuffix(Zone(list[i]), n) && |Zone(list[i])| == |n| - k && !Same(Zone(list[j]), n[k..])
    ensures !IsSuffix(Zone(list[j]), n)
  {
    hide WireLen, Same, IsSuffix;
    if IsSuffix(Zone(list[j]), n) {
      SuffixNoLonger(Zone(list[j]), n);
      var m := |n| - |Zone(list[j])|;
      SuffixIsSame(Zone(list[j]), n);
      if m < k {
        OneFor(list, j, n[m..]);
      } else if m > k {
        WireLenOrdersSuffixes(Zone(list[i]), Zone(list[j]), n);
      }
    }
  }

  lemma OneFor(list: seq<Entry>, j: nat, t: Name)
    requires AllWellFormed(list) && j < |list| && Same(Zone(list[j]), t)
    ensures !NoneFor(list, t)
  {
  }

  lemma NoSuffixNoEntry(list: seq<Entry>, n: Name)
    requires AllWellFormed(list) && forall m :: 0 <= m <= |n| ==> NoneFor(list, n[m..])
    ensures FirstApplies(list, n, false, 0) == None
  {
    forall j | 0 <= j < |list| ensures !Applies(list[j], n, false) {
      if IsSuffix(Zone(list[j]), n) { SuffixIsSame(Zone(list[j]), n); }
    }
    FirstAppliesIs(list, n, false, 0, |list|);
  }

  lemma SameIsSuffix(z: Name, n: Name, k: nat)
    requires k <= |n| && Same(z, n[k..])
    ensures IsSuffix(z, n) && |z| == |n| - k
  {
    forall i | 0 <= i < |z| ensures SameLabel(n[|n| - |z| + i], z[i]) {
      assert SameLabel(z[i], n[k..][i]);
    }
  }

  /** The loops of find_trust_point: the entry chosen, and the suffix of the name it is for. */
  method SearchSuffixes(list: seq<Entry>, name: seq<Byte>, ghost n: Name, nameLen: nat)
    returns (found: Option<nat>, zp: nat, ghost k: nat)
    requires AllWellFormed(list) && Sorted(list) && IsNameAt(name, 0) && n == NameAt(name, 0) && ValidName(n)
    requires nameLen == WireLen(n)
    ensures found == FirstApplies(list, n, false, 0)
    ensures found.Some? ==> found.value < |list| && AtLabel(name, zp, n, k) && Same(Zone(list[found.value]), n[k..])
  {
    hide *;
    var head := SkipLonger(list, n, false, nameLen);
    StartWalk(list, head, name, n, nameLen);
    zp, k := 0, 0;
    while zp < nameLen
      invariant Walking(list, head, name, zp, n, k, nameLen)
      invariant forall m :: 0 <= m < k && m <= |n| ==> NoneFor(list, n[m..])
      decreases |n| + 1 - k
    {
      StillInside(list, head, name, zp, n, k, nameLen);
      found, head := FindFor(list, name, zp, head, n, k);
      if found.Some? {
        SuffixFirstIsEntryFirst(list, n, k, found.value);
        return;
      }
      NextSuffix(list, head, name, zp, n, k, nameLen);
      zp, k := zp + 1 + name[zp], k + 1;
    }
    ReachedEnd(list, head, name, zp, n, k, nameLen);
    NoSuffixNoEntry(list, n);
    found := None;
  }

  /**
   find_trust_point: a copy of the part of the name that is the zone of the entry chosen, in the
   spelling of the name.
  */
  method FindTrustPoint(list: seq<Entry>, name: seq<Byte>) returns (zone: Option<seq<Byte>>, ttl: int)
    requires AllWellFormed(list) && Sorted(list) && IsNameAt(name, 0) && ValidName(NameAt(name, 0))
    ensures var n, r := NameAt(name, 0), FirstApplies(list, NameAt(name, 0), false, 0);
            match r
            case None => zone == None && ttl == 0
            case Some(i) =>
              && zone.Some? && IsNameAt(zone.value, 0) && |Zone(list[i])| <= |n|
              && NameAt(zone.value, 0) == n[|n| - |Zone(list[i])|..] && Same(Zone(list[i]), NameAt(zone.value, 0))
              && ttl == if list[i].ttl > 0 then list[i].ttl else 0
  {
    ghost var n := NameAt(name, 0);
    var nameLen := WireNameLength(name, 0);
    hide *;
    ghost var k;
    var found, zp;
    found, zp, k := SearchSuffixes(list, name, n, nameLen);
    if found.None? {
      return None, 0;
    }
    zone := CopyName(list, found.value, name, zp, n, k);
    ttl := if list[found.value].ttl > 0 then list[found.value].ttl else 0;
  }

  /** Where the loop of find_trust_point stands: at a label of the name, or past its end. */
  predicate Walking(list: seq<Entry>, head: nat, name: seq<Byte>, zp: nat, n: Name, k: nat, nameLen: nat)
    requires AllWellFormed(list)
  {
    if k <= |n| then
      AtLabel(name, zp, n, k) && zp + WireLen(n[k..]) == nameLen && Splits(list, head, WireLen(n[k..]))
    else k == |n| + 1 && zp == nameLen && Splits(list, head, 0)
  }

  lemma StartWalk(list: seq<Entry>, head: nat, name: seq<Byte>, n: Name, nameLen: nat)
    requires AllWellFormed(list) && IsNameAt(name, 0) && n == NameAt(name, 0) && ValidName(n) && nameLen == WireLen(n)
    requires head <= |list| && forall j :: 0 <= j < head ==> WireLen(Zone(list[j])) > nameLen
    ensures Walking(list, head, name, 0, n, 0, nameLen)
  {
    assert n[0..] == n;
  }

  lemma StillInside(list: seq<Entry>, head: nat, name: seq<Byte>, zp: nat, n: Name, k: nat, nameLen: nat)
    requires AllWellFormed(list) && Walking(list, head, name, zp, n, k, nameLen) && zp < nameLen
    ensures k <= |n| && AtLabel(name, zp, n, k) && Splits(list, head, WireLen(n[k..])) && zp < |name|
    ensures zp + WireLen(n[k..]) == nameLen
  {
  }

  lemma NextSuffix(list: seq<Entry>, head: nat, name: seq<Byte>, zp: nat, n: Name, k: nat, nameLen: nat)
    requires AllWellFormed(list) && AtLabel(name, zp, n, k) && zp < |name|
    requires zp + WireLen(n[k..]) == nameLen && Splits(list, head, WireLen(n[k..]))
    ensures Walking(list, head, name, zp + 1 + name[zp], n, k + 1, nameLen)
  {
    hide IsNameAt, NameAt, AtLabel, Splits;
    AtTail(name, zp, n, k);
    SplitsShorter(list, head, WireLen(n[k..]), if k < |n| then WireLen(n[k + 1..]) else 0);
  }

  method CopyName(list: seq<Entry>, i: nat, name: seq<Byte>, zp: nat, ghost n: Name, ghost k: nat)
    returns (zone: Option<seq<Byte>>)
    requires AllWellFormed(list) && i < |list| && AtLabel(name, zp, n, k) && Same(Zone(list[i]), n[k..])
    ensures zone.Some? && IsNameAt(zone.value, 0) && |Zone(list[i])| <= |n|
    ensures NameAt(zone.value, 0) == n[|n| - |Zone(list[i])|..] && Same(Zone(list[i]), NameAt(zone.value, 0))
  {
    ghost var e := list[i];
    TailValid(n, k);
    SameIsSuffix(Zone(e), n, k);
    hide IsNameAt, NameAt, WireLen, Same;
    var len := WireNameLength(name, zp);
    CopyOfName(name, zp, len);
    zone := Some(name[zp..zp + len]);
  }

  lemma ReachedEnd(list: seq<Entry>, head: nat, name: seq<Byte>, zp: nat, n: Name, k: nat, nameLen: nat)
    requires AllWellFormed(list) && Walking(list, head, name, zp, n, k, nameLen) && zp >= nameLen
    ensures k == |n| + 1
  {
  }

  lemma CopyOfName(w: seq<Byte>, p: nat, len: nat)
    requires IsNameAt(w, p) && len == WireLen(NameAt(w, p))
    ensures p + len <= |w| && IsNameAt(w[p..p + len], 0) && NameAt(w[p..p + len], 0) == NameAt(w, p)
  {
    EncodeNameAt(w, p);
    var c := w[p..p + len];
    assert c[0..len] == c;
    NameAtEncode(c, 0, NameAt(w, p));
  }
}
