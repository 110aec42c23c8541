/**
 The canonical order of names (section 6.1 of RFC 4034) and the byte-level
 comparison functions of libsres/res_support.c that compute it.
*/
module CanonOrder {
  import opened Names

  // ----- the order on octet strings, labels and names -----

  function Sign(x: int): int {
    if x < 0 then -1 else if x > 0 then 1 else 0
  }

  /** Lexicographic on octets; the absence of an octet sorts first. */
  function OctetsOrd(a: seq<Byte>, b: seq<Byte>): (r: int)
    ensures -1 <= r <= 1
    ensures r == 0 <==> a == b
  {
    if a == [] then (if b == [] then 0 else -1)
    else if b == [] then 1
    else if a[0] != b[0] then (if a[0] < b[0] then -1 else 1)
    else assert a == [a[0]] + a[1..] && b == [b[0]] + b[1..]; OctetsOrd(a[1..], b[1..])
  }

  lemma {:induction false} OctetsAntisymmetric(a: seq<Byte>, b: seq<Byte>)
    ensures OctetsOrd(b, a) == -OctetsOrd(a, b)
  {
    if a != [] && b != [] { OctetsAntisymmetric(a[1..], b[1..]); }
  }

  lemma {:induction false} OctetsTransitive(a: seq<Byte>, b: seq<Byte>, c: seq<Byte>)
    requires OctetsOrd(a, b) <= 0 && OctetsOrd(b, c) <= 0
    ensures OctetsOrd(a, c) <= 0
    ensures OctetsOrd(a, b) < 0 || OctetsOrd(b, c) < 0 ==> OctetsOrd(a, c) < 0
  {
    if a != [] && b != [] && c != [] && a[0] == b[0] == c[0] {
      OctetsTransitive(a[1..], b[1..], c[1..]);
    }
  }

  function LabelOrd(a: Label, b: Label): int {
    OctetsOrd(FoldLabel(a), FoldLabel(b))
  }

  /** Lexicographic on the reversed label lists; a missing label sorts first. */
  function NameOrd(a: Name, b: Name): (r: int)
    ensures -1 <= r <= 1
    decreases |a|
  {
    if a == [] then (if b == [] then 0 else -1)
    else if b == [] then 1
    else
      var c := LabelOrd(a[|a| - 1], b[|b| - 1]);
      if c != 0 then c else NameOrd(a[..|a| - 1], b[..|b| - 1])
  }

  lemma {:induction false} NameOrdZero(a: Name, b: Name)
    ensures NameOrd(a, b) == 0 <==> Same(a, b)
    decreases |a|
  {
    if a != [] && b != [] {
      NameOrdZero(a[..|a| - 1], b[..|b| - 1]);
      if |a| == |b| && Same(a[..|a| - 1], b[..|b| - 1]) {
        assert forall i :: 0 <= i < |a| - 1 ==> a[..|a| - 1][i] == a[i] && b[..|a| - 1][i] == b[i];
        assert Same(a, b) <==> SameLabel(a[|a| - 1], b[|a| - 1]);
      }
    }
  }

  lemma {:induction false} NameOrdAntisymmetric(a: Name, b: Name)
    ensures NameOrd(b, a) == -NameOrd(a, b)
    decreases |a|
  {
    if a != [] && b != [] {
      OctetsAntisymmetric(FoldLabel(a[|a| - 1]), FoldLabel(b[|b| - 1]));
      NameOrdAntisymmetric(a[..|a| - 1], b[..|b| - 1]);
    }
  }

  lemma {:induction false} NameOrdTransitive(a: Name, b: Name, c: Name)
    requires NameOrd(a, b) <= 0 && NameOrd(b, c) <= 0
    ensures NameOrd(a, c) <= 0
    ensures NameOrd(a, b) < 0 || NameOrd(b, c) < 0 ==> NameOrd(a, c) < 0
    decreases |a|
  {
    if a != [] && b != [] && c != [] {
      var x, y, z := FoldLabel(a[|a| - 1]), FoldLabel(b[|b| - 1]), FoldLabel(c[|c| - 1]);
      OctetsTransitive(x, y, z);
      if x == y == z {
        NameOrdTransitive(a[..|a| - 1], b[..|b| - 1], c[..|c| - 1]);
      }
    }
  }

  /** The order does not see case. */
  lemma NameOrdFolds(a: Name, a': Name, b: Name)
    requires Same(a, a')
    ensures NameOrd(a, b) == NameOrd(a', b) && NameOrd(b, a) == NameOrd(b, a')
  {
    NameOrdZero(a, a');
    NameOrdZero(a', a);
    NameOrdAntisymmetric(a, b);
    NameOrdAntisymmetric(a', b);
    if NameOrd(a, b) <= 0 { NameOrdTransitive(a', a, b); }
    if NameOrd(a', b) <= 0 { NameOrdTransitive(a, a', b); }
    if NameOrd(b, a) <= 0 { NameOrdTransitive(b, a, a'); }
    if NameOrd(b, a') <= 0 { NameOrdTransitive(b, a', a); }
  }

  /** A proper ancestor sorts before everything below it. */
  lemma {:induction false} AncestorSortsFirst(s: Name, n: Name)
    requires IsSuffix(s, n)
    ensures NameOrd(s, n) <= 0
    ensures |s| < |n| ==> NameOrd(s, n) < 0
    decreases |s|
  {
    if s != [] {
      assert SameLabel(n[|n| - |s| + (|s| - 1)], s[|s| - 1]);
      AncestorSortsFirst(s[..|s| - 1], n[..|n| - 1]);
    }
  }

  // ----- byte-level comparison -----

  /** memcmp over the first 'n' octets. */
  method MemCmp(a: array<Byte>, b: array<Byte>, n: nat) returns (r: int)
    requires n <= a.Length && n <= b.Length
    ensures Sign(r) == OctetsOrd(a[..n], b[..n])
  {
    var i := 0;
    while i < n && a[i] == b[i]
      invariant 0 <= i <= n
      invariant OctetsOrd(a[..n], b[..n]) == OctetsOrd(a[i..n], b[i..n])
    {
      assert a[i..n][1..] == a[i + 1..n] && b[i..n][1..] == b[i + 1..n];
      i := i + 1;
    }
    if i == n { return 0; }
    var x: int, y: int := a[i], b[i];
    r := x - y;
  }

  lemma {:induction false} OrdByCommonLength(a: seq<Byte>, b: seq<Byte>, m: nat)
    requires m == if |a| < |b| then |a| else |b|
    ensures OctetsOrd(a[..m], b[..m]) != 0 ==> OctetsOrd(a, b) == OctetsOrd(a[..m], b[..m])
    ensures OctetsOrd(a[..m], b[..m]) == 0 ==> OctetsOrd(a, b) == Sign(|a| - |b|)
  {
    if m > 0 && a[0] == b[0] {
      OrdByCommonLength(a[1..], b[1..], m - 1);
      assert a[..m][1..] == a[1..][..m - 1] && b[..m][1..] == b[1..][..m - 1];
    }
  }

  method LabelBytesCmp(field1: seq<Byte>, field2: seq<Byte>) returns (r: int)
    requires |field1| <= MAXCDNAME || |field2| <= MAXCDNAME
    ensures Sign(r) == LabelOrd(field1, field2)
  {
    var length1, length2 := |field1|, |field2|;
    if length1 == 0 || length2 == 0 {
      return length1 - length2;
    }
    var minLen := if length1 < length2 then length1 else length2;
    var buffer1 := LowerCopy(field1, minLen);
    var buffer2 := LowerCopy(field2, minLen);
    r := MemCmp(buffer1, buffer2, minLen);
    ghost var f1, f2 := FoldLabel(field1), FoldLabel(field2);
    assert f1[..minLen] == buffer1[..minLen] && f2[..minLen] == buffer2[..minLen];
    OrdByCommonLength(f1, f2, minLen);
    if r != 0 {
      return r;
    }
    return length1 - length2;
  }

  /** memcpy into a local buffer, then lower-case it in place. */
  method LowerCopy(field: seq<Byte>, n: nat) returns (buffer: array<Byte>)
    requires n <= |field| && n <= MAXCDNAME
    ensures fresh(buffer) && buffer.Length == MAXCDNAME
    ensures buffer[..n] == FoldLabel(field[..n])
  {
    buffer := new Byte[MAXCDNAME](k => 0);
    forall k | 0 <= k < n { buffer[k] := field[k]; }
    var i := 0;
    while i < n
      invariant 0 <= i <= n
      invariant forall k :: 0 <= k < i ==> buffer[k] == Lower(field[k])
      invariant forall k :: i <= k < n ==> buffer[k] == field[k]
    {
      if 65 <= buffer[i] <= 90 {
        buffer[i] := buffer[i] + 32;
      }
      i := i + 1;
    }
  }

  /** Offset from 'pos' at which the k-th label starts. */
  function Start(w: seq<Byte>, pos: nat, k: nat): (r: nat)
    requires IsNameAt(w, pos) && k <= |NameAt(w, pos)|
    ensures IsNameAt(w, r) && NameAt(w, r) == NameAt(w, pos)[k..]
    ensures r < |w|
    decreases k
  {
    if k == 0 then pos else
      FromSecond(w, pos, k);
      Start(w, pos + 1 + w[pos], k - 1)
  }

  lemma FromSecond(w: seq<Byte>, pos: nat, k: nat)
    requires IsNameAt(w, pos) && 0 < k <= |NameAt(w, pos)|
    ensures w[pos] != 0 && IsNameAt(w, pos + 1 + w[pos])
    ensures |NameAt(w, pos + 1 + w[pos])| == |NameAt(w, pos)| - 1
    ensures NameAt(w, pos + 1 + w[pos])[k - 1..] == NameAt(w, pos)[k..]
  {
    NameAtCons(w, pos);
    hide NameAt, IsNameAt;
    assert NameAt(w, pos)[1..][k - 1..] == NameAt(w, pos)[k..];
  }

  lemma StartZero(w: seq<Byte>, pos: nat)
    requires IsNameAt(w, pos)
    ensures Start(w, pos, 0) == pos
  {
  }

  /** The label 'l' occupies the octets from 's' up to 'next'. */
  predicate LabelSpan(w: seq<Byte>, s: nat, next: nat, l: Label) {
    s < next < |w| && w[s] != 0 && next == s + 1 + w[s] && w[s + 1..next] == l
  }

  lemma {:induction false} StartNext(w: seq<Byte>, pos: nat, k: nat)
    requires IsNameAt(w, pos) && k < |NameAt(w, pos)|
    ensures LabelSpan(w, Start(w, pos, k), Start(w, pos, k + 1), NameAt(w, pos)[k])
    decreases k
  {
    if k == 0 {
      StartFirst(w, pos);
    } else {
      StartShift(w, pos, k);
      StartShift(w, pos, k + 1);
      hide NameAt, IsNameAt, Start, LabelSpan;
      StartNext(w, pos + 1 + w[pos], k - 1);
    }
  }

  lemma StartFirst(w: seq<Byte>, pos: nat)
    requires IsNameAt(w, pos) && NameAt(w, pos) != []
    ensures Start(w, pos, 0) == pos && LabelSpan(w, pos, Start(w, pos, 1), NameAt(w, pos)[0])
  {
    NameAtCons(w, pos);
    hide NameAt, IsNameAt;
    StartZero(w, pos + 1 + w[pos]);
    assert Start(w, pos, 1) == Start(w, pos + 1 + w[pos], 0);
  }

  lemma StartShift(w: seq<Byte>, pos: nat, k: nat)
    requires IsNameAt(w, pos) && 0 < k <= |NameAt(w, pos)|
    ensures w[pos] != 0 && IsNameAt(w, pos + 1 + w[pos])
    ensures |NameAt(w, pos + 1 + w[pos])| == |NameAt(w, pos)| - 1
    ensures Start(w, pos, k) == Start(w, pos + 1 + w[pos], k - 1)
    ensures k < |NameAt(w, pos)| ==> NameAt(w, pos)[k] == NameAt(w, pos + 1 + w[pos])[k - 1]
  {
    NameAtCons(w, pos);
    hide NameAt, IsNameAt;
    assert k < |NameAt(w, pos)| ==> NameAt(w, pos)[k] == NameAt(w, pos)[1..][k - 1];
  }

  /** Counts the labels of a name, the root label included. */
  method CountLabels(name: seq<Byte>, pos: nat) returns (labels: nat)
    requires IsNameAt(name, pos)
    ensures labels == |NameAt(name, pos)| + 1
  {
    var index := pos;
    labels := 1;
    while name[index] != 0
      invariant IsNameAt(name, index)
      invariant labels + |NameAt(name, index)| == |NameAt(name, pos)| + 1
      decreases |name| - index
    {
      NameAtCons(name, index);
      index := index + name[index] as int + 1;
      labels := labels + 1;
    }
  }

  /** When the last labels decide, so do the names; otherwise the shorter name is first. */
  lemma {:induction false} OrdBySplit(a: Name, b: Name)
    requires |a| >= |b|
    ensures var t := NameOrd(a[|a| - |b|..], b);
            NameOrd(a, b) == if t != 0 then t else Sign(|a| - |b|)
    decreases |b|
  {
    if b != [] {
      var t := a[|a| - |b|..];
      assert t[..|t| - 1] == a[..|a| - 1][|a| - |b|..];
      OrdBySplit(a[..|a| - 1], b[..|b| - 1]);
    }
  }

  function Last<T>(s: seq<T>, k: nat): seq<T> {
    if k <= |s| then s[|s| - k..] else s
  }

  lemma OrdAligned(a: Name, b: Name)
    ensures var t := NameOrd(Last(a, |b|), Last(b, |a|));
            NameOrd(a, b) == if t != 0 then t else Sign(|a| - |b|)
  {
    hide NameOrd;
    if |a| >= |b| {
      OrdBySplit(a, b);
      assert Last(b, |a|) == b;
    } else {
      OrdBySplit(b, a);
      assert Last(a, |b|) == a;
      NameOrdAntisymmetric(a, b);
      NameOrdAntisymmetric(a, Last(b, |a|));
    }
  }

  lemma {:induction false} OrdByTails(a: Name, b: Name, k: nat)
    requires |a| == |b| && k <= |a|
    requires forall i :: k <= i < |a| ==> SameLabel(a[i], b[i])
    ensures NameOrd(a, b) == NameOrd(a[..k], b[..k])
    decreases |a|
  {
    if k < |a| {
      var m := |a| - 1;
      assert SameLabel(a[m], b[m]);
      OrdByTails(a[..m], b[..m], k);
      assert a[..m][..k] == a[..k] && b[..m][..k] == b[..k];
    } else {
      assert a[..k] == a && b[..k] == b;
    }
  }

  /** The first label from the end at which the names differ decides. */
  lemma OrdAtLabel(a: Name, b: Name, k: nat)
    requires |a| == |b| && k < |a|
    requires forall i :: k < i < |a| ==> SameLabel(a[i], b[i])
    ensures LabelOrd(a[k], b[k]) != 0 ==> NameOrd(a, b) == LabelOrd(a[k], b[k])
    ensures LabelOrd(a[k], b[k]) == 0 ==> SameLabel(a[k], b[k])
  {
    OrdByTails(a, b, k + 1);
    assert a[..k + 1][|a[..k + 1]| - 1] == a[k] && b[..k + 1][|b[..k + 1]| - 1] == b[k];
  }

  /** Writes the start of each label of a name to a table. */
  method MarkLabels(name: seq<Byte>, pos: nat, cnt: nat) returns (table: seq<nat>)
    requires IsNameAt(name, pos) && cnt == |NameAt(name, pos)| + 1 <= 256
    ensures |table| == 256
    ensures forall k :: 0 <= k < cnt ==> table[k] == Start(name, pos, k)
  {
    hide NameAt, IsNameAt, Start;
    var ptr := new nat[256](k => 0);
    assert Start(name, pos, 0) == pos by { StartZero(name, pos); }
    var offset := pos;
    var i := 0;
    while i < cnt
      invariant 0 <= i <= cnt
      invariant i < cnt ==> offset == Start(name, pos, i)
      invariant forall k :: 0 <= k < i ==> ptr[k] == Start(name, pos, k)
    {
      ptr[i] := offset;
      StartOctet(name, pos, i);
      if i + 1 < cnt { StartNext(name, pos, i); }
      offset := offset + name[offset] as int + 1;
      i := i + 1;
    }
    table := ptr[..];
  }

  /** How the k-th labels compare; the root labels at the end are equal. */
  function OrdOfLabel(a: Name, b: Name, k: nat): int
    requires |a| == |b|
  {
    if k < |a| then LabelOrd(a[k], b[k]) else 0
  }

  /** Compares the k-th labels of two names, whose starts are p1 and p2. */
  method LabelAtCmp(name1: seq<Byte>, pos1: nat, p1: nat, name2: seq<Byte>, pos2: nat, p2: nat, k: nat)
      returns (r: int)
    requires IsNameAt(name1, pos1) && IsNameAt(name2, pos2)
    requires |NameAt(name1, pos1)| == |NameAt(name2, pos2)| && k <= |NameAt(name1, pos1)|
    requires p1 == Start(name1, pos1, k) && p2 == Start(name2, pos2, k)
    ensures Sign(r) == OrdOfLabel(NameAt(name1, pos1), NameAt(name2, pos2), k)
  {
    hide NameAt, IsNameAt, Start, LabelOrd;
    StartOctet(name1, pos1, k);
    StartOctet(name2, pos2, k);
    var length1: int, length2: int := name1[p1], name2[p2];
    if length1 == 0 || length2 == 0 {
      return length1 - length2;
    }
    r := LabelBytesCmp(name1[p1 + 1..p1 + 1 + length1], name2[p2 + 1..p2 + 1 + length2]);
  }

  lemma NameHead(w: seq<Byte>, s: nat)
    requires IsNameAt(w, s)
    ensures s < |w| && w[s] <= MAXLABEL && (w[s] == 0 <==> NameAt(w, s) == [])
  {
  }

  lemma StartOctet(w: seq<Byte>, pos: nat, k: nat)
    requires IsNameAt(w, pos) && k <= |NameAt(w, pos)|
    ensures Start(w, pos, k) < |w| && w[Start(w, pos, k)] <= MAXLABEL
    ensures k < |NameAt(w, pos)| ==> LabelSpan(w, Start(w, pos, k), Start(w, pos, k + 1), NameAt(w, pos)[k])
    ensures k == |NameAt(w, pos)| ==> w[Start(w, pos, k)] == 0
  {
    NameHead(w, Start(w, pos, k));
    hide *;
    if k < |NameAt(w, pos)| { StartNext(w, pos, k); }
  }

  lemma AllLabelsSame(a: Name, b: Name)
    requires |a| == |b| && forall i :: 0 <= i < |a| ==> SameLabel(a[i], b[i])
    ensures NameOrd(a, b) == 0
  {
    NameOrdZero(a, b);
  }

  /**
   Compares two names with the same number of labels, from the last label upwards.
   'labelCnt' counts the root label too.
  */
  method LabelCmp(name1: seq<Byte>, pos1: nat, name2: seq<Byte>, pos2: nat, labelCnt: nat) returns (r: int)
    requires IsNameAt(name1, pos1) && IsNameAt(name2, pos2)
    requires |NameAt(name1, pos1)| == |NameAt(name2, pos2)| == labelCnt - 1 < 256
    ensures Sign(r) == NameOrd(NameAt(name1, pos1), NameAt(name2, pos2))
  {
    ghost var n1, n2 := NameAt(name1, pos1), NameAt(name2, pos2);
    var length1: int, length2: int := name1[pos1], name2[pos2];
    if length1 == 0 || length2 == 0 {
      AllLabelsSame(n1, n2);
      return length1 - length2;
    }
    if labelCnt > 256 {
      return -1;
    }
    hide *;
    r := CompareUpwards(name1, pos1, name2, pos2, labelCnt);
  }

  /** The label tables and the loop of LabelCmp. */
  method CompareUpwards(name1: seq<Byte>, pos1: nat, name2: seq<Byte>, pos2: nat, labelCnt: nat) returns (r: int)
    requires IsNameAt(name1, pos1) && IsNameAt(name2, pos2)
    requires |NameAt(name1, pos1)| == |NameAt(name2, pos2)| == labelCnt - 1 < 256
    ensures Sign(r) == NameOrd(NameAt(name1, pos1), NameAt(name2, pos2))
  {
    hide NameAt, IsNameAt, Start, NameOrd, LabelOrd, SameLabel;
    ghost var n1, n2 := NameAt(name1, pos1), NameAt(name2, pos2);
    var ptr1 := MarkLabels(name1, pos1, labelCnt);
    var ptr2 := MarkLabels(name2, pos2, labelCnt);
    var cnt := labelCnt;
    while cnt > 0
      invariant 0 <= cnt <= labelCnt
      invariant forall i :: cnt <= i < |n1| ==> SameLabel(n1[i], n2[i])
    {
      var retval := LabelAtCmp(name1, pos1, ptr1[cnt - 1], name2, pos2, ptr2[cnt - 1], cnt - 1);
      if cnt - 1 < |n1| {
        OrdAtLabel(n1, n2, cnt - 1);
      }
      if retval != 0 {
        return retval;
      }
      cnt := cnt - 1;
    }
    AllLabelsSame(n1, n2);
    return 0;
  }

  predicate Readable(p: Ptr) {
    p.At? ==> IsNameAt(p.buf, p.pos) && WireLen(NameAt(p.buf, p.pos)) <= MAXCDNAME
  }

  /** The order of names, extended to null pointers, which sort first. */
  function PointerOrd(a: Ptr, b: Ptr): int
    requires Readable(a) && Readable(b)
  {
    if a.Null? then (if b.Null? then 0 else -1)
    else if b.Null? then 1
    else NameOrd(NameAt(a.buf, a.pos), NameAt(b.buf, b.pos))
  }

  /** Steps over the first 'k' labels. */
  method SkipLabels(name: seq<Byte>, pos: nat, k: nat) returns (index: nat)
    requires IsNameAt(name, pos) && k <= |NameAt(name, pos)|
    ensures index == Start(name, pos, k)
  {
    index := pos;
    var i := 0;
    while i < k
      invariant 0 <= i <= k && index == Start(name, pos, i)
    {
      StartNext(name, pos, i);
      index := index + name[index] as int + 1;
      i := i + 1;
    }
  }

  /** Compares two wire names; NULL is allowed on either side. */
  method NameCmp(name1: Ptr, name2: Ptr) returns (r: int)
    requires Readable(name1) && Readable(name2)
    ensures Sign(r) == PointerOrd(name1, name2)
  {
    if name1.Null? {
      if name2.Null? { return 0; } else { return -1; }
    } else if name2.Null? {
      return 1;
    }
    r := BufCmp(name1.buf, name1.pos, name2.buf, name2.pos);
  }

  /** The part of namecmp that follows its null checks. */
  method BufCmp(name1: seq<Byte>, pos1: nat, name2: seq<Byte>, pos2: nat) returns (r: int)
    requires IsNameAt(name1, pos1) && IsNameAt(name2, pos2)
    requires |NameAt(name1, pos1)| < 256 && |NameAt(name2, pos2)| < 256
    ensures Sign(r) == NameOrd(NameAt(name1, pos1), NameAt(name2, pos2))
  {
    hide NameOrd, NameAt, IsNameAt, Start;
    OrdAligned(NameAt(name1, pos1), NameAt(name2, pos2));
    var labels1 := CountLabels(name1, pos1);
    var labels2 := CountLabels(name2, pos2);
    var index1, index2, labelCnt := pos1, pos2, labels1;
    if labels1 > labels2 {
      labelCnt := labels2;
      index1 := SkipLabels(name1, pos1, labels1 - labels2);
    } else {
      index2 := SkipLabels(name2, pos2, labels2 - labels1);
    }
    assert NameAt(name1, index1) == Last(NameAt(name1, pos1), labels2 - 1);
    assert NameAt(name2, index2) == Last(NameAt(name2, pos2), labels1 - 1);
    r := LabelCmp(name1, index1, name2, index2, labelCnt);
    if r != 0 {
      return r;
    }
    var l1: int, l2: int := labels1, labels2;
    return l1 - l2;
  }

  /**
   The suffix of 'big' that equals 'little' ignoring case, as the number of labels to
   strip, or none.  The walk stops as soon as the remaining suffix sorts before 'little'.
  */
  method NameName(big: Name, little: Name) returns (k: Option<nat>)
    ensures k.Some? <==> IsSuffix(little, big)
    ensures k.Some? ==> k.value <= |big| && Same(big[k.value..], little)
  {
    if little == [] {
      return Some(|big|);
    }
    hide NameOrd, IsSuffix, Same;
    var p := 0;
    while p < |big|
      invariant 0 <= p <= |big|
      invariant p > |big| - |little| ==> !IsSuffix(little, big)
    {
      var d := NameOrd(big[p..], little);
      NameOrdZero(big[p..], little);
      SuffixAgainstTail(little, big, p);
      if d == 0 {
        return Some(p);
      } else if d < 0 {
        break;
      }
      p := p + 1;
    }
    return None;
  }

  /** The suffix test against big[p..]: decided at the right length, ruled out by order before it. */
  lemma SuffixAgainstTail(little: Name, big: Name, p: nat)
    requires p <= |big|
    ensures p == |big| - |little| ==> (IsSuffix(little, big) <==> Same(big[p..], little))
    ensures Same(big[p..], little) ==> IsSuffix(little, big)
    ensures p < |big| - |little| && NameOrd(big[p..], little) < 0 ==> !IsSuffix(little, big)
  {
    hide NameOrd;
    if IsSuffix(little, big) && p < |big| - |little| {
      SuffixOfTail(little, big, p);
      AncestorSortsFirst(little, big[p..]);
      NameOrdAntisymmetric(little, big[p..]);
    }
  }

  lemma SuffixOfTail(s: Name, n: Name, p: nat)
    requires IsSuffix(s, n) && p <= |n| - |s|
    ensures IsSuffix(s, n[p..])
  {
    forall i | 0 <= i < |s| ensures SameLabel(n[p..][|n[p..]| - |s| + i], s[i]) {
      assert SameLabel(n[|n| - |s| + i], s[i]);
    }
  }

  /**
   What section 6.1 of RFC 4034 asks of the order: total, transitive, and with
   equality up to ASCII case as its equivalence.
  */
  lemma CanonicalOrder(a: Name, b: Name, c: Name)
    ensures NameOrd(a, b) == -NameOrd(b, a)
    ensures NameOrd(a, b) <= 0 && NameOrd(b, c) <= 0 ==> NameOrd(a, c) <= 0
    ensures NameOrd(a, b) == 0 <==> Same(a, b)
  {
    NameOrdAntisymmetric(a, b);
    if NameOrd(a, b) <= 0 && NameOrd(b, c) <= 0 { NameOrdTransitive(a, b, c); }
    NameOrdZero(a, b);
  }

  /** Equality up to case on labels is equality up to case on the wire octets. */
  lemma {:induction false} SameOnWire(x: Name, y: Name)
    requires ValidLabels(x) && ValidLabels(y)
    ensures Same(x, y) <==> FoldLabel(Encode(x)) == FoldLabel(Encode(y))
  {
    var a, b := FoldLabel(Encode(x)), FoldLabel(Encode(y));
    if x == [] || y == [] {
      if x != [] { assert a[0] == |x[0]|; }
      if y != [] { assert b[0] == |y[0]|; }
    } else {
      SameOnWire(x[1..], y[1..]);
      FoldEncode(x);
      FoldEncode(y);
      SameHeadTail(x, y);
      hide Same, Encode, FoldLabel, ValidLabels;
      var l := |x[0]|;
      var m := |y[0]|;
      assert a == [a[0]] + a[1..1 + l] + a[1 + l..];
      assert b == [b[0]] + b[1..1 + m] + b[1 + m..];
      if a == b { assert a[0] == b[0]; }
    }
  }

  lemma FoldEncode(x: Name)
    requires ValidLabels(x) && x != []
    ensures var a := FoldLabel(Encode(x));
            && a[0] == |x[0]| && a[1..1 + |x[0]|] == FoldLabel(x[0]) && a[1 + |x[0]|..] == FoldLabel(Encode(x[1..]))
  {
    EncodeCons(x);
    FoldSlice(Encode(x), 1, 1 + |x[0]|);
    FoldSlice(Encode(x), 1 + |x[0]|, WireLen(x));
  }

  lemma FoldSlice(w: seq<Byte>, i: nat, j: nat)
    requires i <= j <= |w|
    ensures FoldLabel(w)[i..j] == FoldLabel(w[i..j])
  {
  }

  // ----- the order of section 6.1 of RFC 4034 -----

  /** The first 'i' octets are equal ignoring case, and 'x' ends there or has the smaller octet. */
  ghost predicate OctetDecides(x: Label, y: Label, i: nat) {
    && i <= |x| && i < |y|
    && (forall j :: 0 <= j < i ==> Lower(x[j]) == Lower(y[j]))
    && (i == |x| || Lower(x[i]) < Lower(y[i]))
  }

  ghost predicate LabelBefore(x: Label, y: Label) {
    exists i: nat :: OctetDecides(x, y, i)
  }

  /** The last 'k' labels are equal ignoring case, and 'a' has no more or the label before them sorts first. */
  ghost predicate LabelDecides(a: Name, b: Name, k: nat) {
    && k <= |a| && k < |b|
    && Same(a[|a| - k..], b[|b| - k..])
    && (k == |a| || LabelBefore(a[|a| - 1 - k], b[|b| - 1 - k]))
  }

  lemma {:induction false} OctetsBefore(a: seq<Byte>, b: seq<Byte>) returns (i: nat)
    requires OctetsOrd(a, b) < 0
    ensures i <= |a| && i < |b| && a[..i] == b[..i] && (i == |a| || a[i] < b[i])
  {
    i := 0;
    if a != [] && b != [] && a[0] == b[0] {
      i := OctetsBefore(a[1..], b[1..]);
      i := i + 1;
      assert a == [a[0]] + a[1..] && b == [b[0]] + b[1..];
    }
  }

  lemma {:induction false} OctetsDecided(a: seq<Byte>, b: seq<Byte>, i: nat)
    requires i <= |a| && i < |b| && a[..i] == b[..i] && (i == |a| || a[i] < b[i])
    ensures OctetsOrd(a, b) < 0
  {
    if i > 0 {
      assert a[0] == a[..i][0] == b[..i][0] == b[0];
      assert a[1..][..i - 1] == a[..i][1..] && b[1..][..i - 1] == b[..i][1..];
      OctetsDecided(a[1..], b[1..], i - 1);
    }
  }

  /** Labels sort as octet strings without case, a missing octet first. */
  lemma LabelOrder(x: Label, y: Label)
    ensures LabelOrd(x, y) < 0 <==> LabelBefore(x, y)
  {
    var f, g := FoldLabel(x), FoldLabel(y);
    if LabelOrd(x, y) < 0 {
      var i := OctetsBefore(f, g);
      forall j | 0 <= j < i ensures Lower(x[j]) == Lower(y[j]) { assert f[..i][j] == g[..i][j]; }
      assert OctetDecides(x, y, i);
    }
    if i: nat :| OctetDecides(x, y, i) {
      assert f[..i] == g[..i];
      OctetsDecided(f, g, i);
    }
  }

  lemma SameEnds(a: Name, b: Name, k: nat)
    requires k < |a| && k < |b|
    ensures Same(a[|a| - 1 - k..], b[|b| - 1 - k..])
       <==> SameLabel(a[|a| - 1], b[|b| - 1])
            && Same(a[..|a| - 1][|a| - 1 - k..], b[..|b| - 1][|b| - 1 - k..])
  {
    var x, y := a[|a| - 1 - k..], b[|b| - 1 - k..];
    assert a[..|a| - 1][|a| - 1 - k..] == x[..k] && b[..|b| - 1][|b| - 1 - k..] == y[..k];
    assert x[k] == a[|a| - 1] && y[k] == b[|b| - 1];
    hide SameLabel;
    if Same(x, y) {
      forall i | 0 <= i < k ensures SameLabel(x[..k][i], y[..k][i]) { assert SameLabel(x[i], y[i]); }
    }
    if Same(x[..k], y[..k]) && SameLabel(x[k], y[k]) {
      forall i | 0 <= i <= k ensures SameLabel(x[i], y[i]) {
        if i < k { assert SameLabel(x[..k][i], y[..k][i]); }
      }
    }
  }

  /**
   The canonical order, without the functions that compute it: names sort by the last labels they do
   not share, a name that has no more labels first.
  */
  lemma {:induction false} StandardOrder(a: Name, b: Name)
    ensures NameOrd(a, b) < 0 <==> exists k: nat :: LabelDecides(a, b, k)
    decreases |a|
  {
    hide OctetDecides, LabelOrd, SameLabel;
    if a == [] || b == [] {
      if a == [] && b != [] { assert LabelDecides(a, b, 0); }
    } else {
      var x, y, a', b' := a[|a| - 1], b[|b| - 1], a[..|a| - 1], b[..|b| - 1];
      LabelOrder(x, y);
      LabelOrdZero(x, y);
      StandardOrder(a', b');
      if LabelOrd(x, y) < 0 { assert LabelDecides(a, b, 0); }
      if LabelOrd(x, y) == 0 {
        Deeper(a, b, a', b');
      } else {
        assert forall k: nat :: LabelDecides(a, b, k) ==> k == 0 by {
          forall k: nat | LabelDecides(a, b, k) ensures k == 0 { LastShared(a, b, k); }
        }
      }
    }
  }

  lemma LabelOrdZero(x: Label, y: Label)
    ensures LabelOrd(x, y) == 0 <==> SameLabel(x, y)
  {
  }

  lemma LastShared(a: Name, b: Name, k: nat)
    requires a != [] && b != [] && LabelDecides(a, b, k)
    ensures k > 0 ==> SameLabel(a[|a| - 1], b[|b| - 1])
  {
    if k > 0 { SameEnds(a, b, k - 1); }
  }

  lemma Deeper(a: Name, b: Name, a': Name, b': Name)
    requires a != [] && b != [] && SameLabel(a[|a| - 1], b[|b| - 1]) && a' == a[..|a| - 1] && b' == b[..|b| - 1]
    ensures (exists k: nat :: LabelDecides(a, b, k)) <==> exists k: nat :: LabelDecides(a', b', k)
  {
    hide Same, SameLabel, LabelOrd, LabelBefore;
    if k: nat :| LabelDecides(a, b, k) {
      if k == 0 {
        LabelOrdZero(a[|a| - 1], b[|b| - 1]);
        LabelOrder(a[|a| - 1], b[|b| - 1]);
        assert false;
      }
      SameEnds(a, b, k - 1);
      assert LabelDecides(a', b', k - 1);
    }
    if k: nat :| LabelDecides(a', b', k) {
      SameEnds(a, b, k);
      assert LabelDecides(a, b, k + 1);
    }
  }
}
