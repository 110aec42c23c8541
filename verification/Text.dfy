/**
 Domain names as text: ns_name_ntop and ns_name_pton of libsres/ns_name.c.  Section 5.1 of
 RFC 1035 gives the escapes.
*/
module Text {
  import opened Names

  const DOT: Byte := 46
  const SLASH: Byte := 92
  const ZERO: Byte := 48
  const BRACKET: Byte := 91

  predicate Special(c: Byte) {
    c == 34 || c == DOT || c == 59 || c == SLASH || c == 40 || c == 41 || c == 64 || c == 36
  }

  predicate Printable(c: Byte) {
    32 < c < 127
  }

  predicate Digit(c: Byte) {
    ZERO <= c <= 57
  }

  // ----- the text of a name -----

  /** One octet as text. */
  function Esc(c: Byte): (t: seq<Byte>)
    ensures 1 <= |t| <= 4
  {
    if Special(c) then [SLASH, c]
    else if !Printable(c) then [SLASH, ZERO + c / 100, ZERO + (c % 100) / 10, ZERO + c % 10]
    else [c]
  }

  /**
   The escapes of section 5.1 of RFC 1035: a backslash before the characters with a meaning in a
   master file, three decimal digits for an octet that is not visible, and the octet itself else.
  */
  lemma EscapesAre(c: Byte)
    ensures Esc(c) == [92, c]
       <==> c == 34 || c == 36 || c == 40 || c == 41 || c == 46 || c == 59 || c == 64 || c == 92
    ensures c <= 32 || c >= 127 ==>
              |Esc(c)| == 4 && Esc(c)[0] == 92
              && 100 * (Esc(c)[1] - 48) + 10 * (Esc(c)[2] - 48) + (Esc(c)[3] - 48) == c
              && Esc(c)[1] <= 57 && Esc(c)[2] <= 57 && Esc(c)[3] <= 57
    ensures 32 < c < 127 ==> Esc(c) == [c] || Esc(c) == [92, c]
  {
  }

  function LabelText(l: Label): (t: seq<Byte>)
    ensures |l| <= |t| <= 4 * |l|
  {
    if l == [] then [] else LabelText(l[..|l| - 1]) + Esc(l[|l| - 1])
  }

  /** The text of a name other than the root. */
  function Joined(n: Name): (t: seq<Byte>)
    requires n != []
  {
    if |n| == 1 then LabelText(n[0]) else Joined(n[..|n| - 1]) + [DOT] + LabelText(n[|n| - 1])
  }

  function NameText(n: Name): seq<Byte> {
    if n == [] then [DOT] else Joined(n)
  }

  lemma LabelTextSnoc(l: Label, c: Byte)
    ensures LabelText(l + [c]) == LabelText(l) + Esc(c)
  {
    assert (l + [c])[..|l|] == l;
  }

  lemma JoinedSnoc(n: Name, l: Label)
    requires n != []
    ensures Joined(n + [l]) == Joined(n) + [DOT] + LabelText(l)
  {
    assert (n + [l])[..|n|] == n;
  }

  /** The text can be kept as a C string: it has visible characters only. */
  predicate Visible(t: seq<Byte>) {
    forall i :: 0 <= i < |t| ==> Printable(t[i])
  }

  lemma {:induction false} LabelTextVisible(l: Label)
    ensures Visible(LabelText(l))
  {
    if l != [] { LabelTextVisible(l[..|l| - 1]); }
  }

  lemma {:induction false} TextVisible(n: Name)
    ensures Visible(NameText(n))
  {
    if n != [] {
      LabelTextVisible(n[|n| - 1]);
      if |n| > 1 { TextVisible(n[..|n| - 1]); }
    }
  }

  // ----- the bound on the text -----

  const MAXTEXT := 1004

  function Octets(n: Name): nat {
    if n == [] then 0 else |n[0]| + Octets(n[1..])
  }

  lemma {:induction false} OctetsSnoc(n: Name, l: Label)
    ensures Octets(n + [l]) == Octets(n) + |l|
  {
    if n == [] {
      assert Octets([l][1..]) == 0;
    } else {
      OctetsSnoc(n[1..], l);
      assert (n + [l])[1..] == n[1..] + [l];
    }
  }

  lemma {:induction false} OctetsOfName(n: Name)
    requires ValidLabels(n)
    ensures WireLen(n) == Octets(n) + |n| + 1 && Octets(n) <= MAXLABEL * |n|
  {
    if n != [] { OctetsOfName(n[1..]); }
  }

  lemma {:induction false} JoinedLength(n: Name)
    requires n != []
    ensures |Joined(n)| <= 4 * Octets(n) + |n| - 1
  {
    if |n| == 1 {
      assert Octets(n[1..]) == 0;
    } else {
      JoinedLength(n[..|n| - 1]);
      OctetsSnoc(n[..|n| - 1], n[|n| - 1]);
      assert n[..|n| - 1] + [n[|n| - 1]] == n;
    }
  }

  /** The text of a valid name with its NUL never takes more than 1004 octets. */
  lemma TextBound(n: Name)
    requires ValidName(n)
    ensures |NameText(n)| + 1 <= MAXTEXT
  {
    OctetsOfName(n);
    if n != [] { JoinedLength(n); }
  }

  function Zeros(k: nat): (l: Label)
    ensures |l| == k
  {
    if k == 0 then [] else Zeros(k - 1) + [0]
  }

  lemma {:induction false} ZerosText(k: nat)
    ensures |LabelText(Zeros(k))| == 4 * k
  {
    if k > 0 {
      ZerosText(k - 1);
      LabelTextSnoc(Zeros(k - 1), 0);
    }
  }

  /** The bound is reached. */
  lemma TextBoundReached()
    ensures var n := [Zeros(63), Zeros(63), Zeros(63), Zeros(61)];
            ValidName(n) && |NameText(n)| + 1 == MAXTEXT
  {
    ZerosText(63);
    ZerosText(61);
    var a, b := Zeros(63), Zeros(61);
    assert |a| == 63 && |b| == 61;
    hide Zeros, LabelText;
    FourLabels(a, a, a, b);
  }

  lemma FourLabels(a: Label, b: Label, c: Label, d: Label)
    ensures var n := [a, b, c, d];
            && WireLen(n) == |a| + |b| + |c| + |d| + 5
            && Joined(n) == LabelText(a) + [DOT] + LabelText(b) + [DOT] + LabelText(c) + [DOT] + LabelText(d)
  {
    hide LabelText;
    var n := [a, b, c, d];
    assert n[1..] == [b, c, d] && n[1..][1..] == [c, d] && [c, d][1..] == [d] && [d][1..] == [];
    JoinedSnoc([a, b, c], d);
    JoinedSnoc([a, b], c);
    JoinedSnoc([a], b);
    assert [a, b, c] + [d] == n && [a, b] + [c] == [a, b, c] && [a] + [b] == [a, b];
    assert WireLen([]) == 1 && WireLen([d]) == |d| + 2 && WireLen([c, d]) == |c| + |d| + 3;
    assert WireLen([b, c, d]) == |b| + |c| + |d| + 4;
  }

  // ----- reading text -----

  datatype Parsed = Rejected | Accepted(name: Name, absolute: bool)

  /** The value of three digits, if they are digits and not above 255. */
  function ThreeDigits(s: seq<Byte>): (v: Option<Byte>)
  {
    if |s| >= 3 && Digit(s[0]) && Digit(s[1]) && Digit(s[2]) then
      var v: int := (s[0] - ZERO) * 100 + (s[1] - ZERO) * 10 + (s[2] - ZERO);
      if v > 255 then None else Some(v)
    else None
  }

  function Close(labels: Name, cur: Label): Name {
    if cur == [] then labels else labels + [cur]
  }

  /** Reads the rest of a text, with the labels read so far and the label begun. */
  function Scan(s: seq<Byte>, labels: Name, cur: Label): (r: Parsed)
    ensures ValidLabels(labels) && r.Accepted? ==> ValidLabels(r.name)
    decreases |s|
  {
    if s == [] || (s[0] == SLASH && |s| == 1) then
      if |cur| > MAXLABEL then Rejected else Accepted(Close(labels, cur), false)
    else if s[0] == SLASH && Digit(s[1]) then
      var v := ThreeDigits(s[1..]);
      if v.None? then Rejected else Scan(s[4..], labels, cur + [v.value])
    else if s[0] == SLASH then Scan(s[2..], labels, cur + [s[1]])
    else if s[0] == DOT then
      if |cur| > MAXLABEL then Rejected
      else if |s| == 1 then Accepted(Close(labels, cur), true)
      else if cur == [] || s[1] == DOT then Rejected
      else Scan(s[1..], labels + [cur], [])
    else Scan(s[1..], labels, cur + [s[0]])
  }

  /** No escape starts a bit-string label. */
  predicate Ordinary(s: seq<Byte>)
    decreases |s|
  {
    if s == [] || (s[0] == SLASH && |s| == 1) then true
    else if s[0] == SLASH && s[1] == BRACKET then false
    else if s[0] == SLASH && Digit(s[1]) then ThreeDigits(s[1..]).None? || Ordinary(s[4..])
    else if s[0] == SLASH then Ordinary(s[2..])
    else Ordinary(s[1..])
  }

  // ----- text and back -----

  lemma DigitsOf(c: Byte)
    ensures ThreeDigits([ZERO + c / 100, ZERO + (c % 100) / 10, ZERO + c % 10]) == Some(c)
  {
  }

  lemma ScanEsc(c: Byte, rest: seq<Byte>, labels: Name, cur: Label)
    ensures Scan(Esc(c) + rest, labels, cur) == Scan(rest, labels, cur + [c])
    ensures Ordinary(rest) ==> Ordinary(Esc(c) + rest)
  {
    var s := Esc(c) + rest;
    if Special(c) {
      assert s[2..] == rest;
    } else if !Printable(c) {
      DigitsOf(c);
      assert s[4..] == rest;
      assert s[1] == ZERO + c / 100 && s[2] == ZERO + (c % 100) / 10 && s[3] == ZERO + c % 10;
    } else {
      assert s[1..] == rest;
    }
  }

  lemma {:induction false} ScanLabel(l: Label, rest: seq<Byte>, labels: Name, cur: Label)
    ensures Scan(LabelText(l) + rest, labels, cur) == Scan(rest, labels, cur + l)
    ensures Ordinary(rest) ==> Ordinary(LabelText(l) + rest)
    decreases |l|
  {
    if l == [] {
      assert LabelText(l) + rest == rest && cur + l == cur;
    } else {
      var k, c := l[..|l| - 1], l[|l| - 1];
      hide Scan, Ordinary, Esc;
      assert LabelText(l) + rest == LabelText(k) + (Esc(c) + rest);
      ScanLabel(k, Esc(c) + rest, labels, cur);
      ScanEsc(c, rest, labels, cur + k);
      assert cur + k + [c] == cur + l;
    }
  }

  lemma {:induction false} FirstNotDot(l: Label)
    requires l != []
    ensures LabelText(l) != [] && LabelText(l)[0] != DOT
  {
    if |l| > 1 { FirstNotDot(l[..|l| - 1]); }
  }

  /** A separating dot ends a label. */
  lemma ScanDot(all: seq<Byte>, rest: seq<Byte>, labels: Name, cur: Label)
    requires all == [DOT] + rest && ValidLabel(cur) && rest != [] && rest[0] != DOT
    ensures Scan(all, labels, cur) == Scan(rest, labels + [cur], [])
    ensures Ordinary(rest) ==> Ordinary(all)
  {
    assert all[1..] == rest;
  }

  /** What is read after the last separator: a label, then the rest. */
  lemma ScanLast(l: Label, rest: seq<Byte>, tail: seq<Byte>, labels: Name)
    requires tail == LabelText(l) + rest
    ensures Scan(tail, labels, []) == Scan(rest, labels, l)
    ensures Ordinary(rest) ==> Ordinary(tail)
  {
    ScanLabel(l, rest, labels, []);
    assert [] + l == l;
  }

  lemma TailStart(l: Label, rest: seq<Byte>, tail: seq<Byte>)
    requires l != [] && tail == LabelText(l) + rest
    ensures tail != [] && tail[0] != DOT
  {
    FirstNotDot(l);
  }

  lemma {:induction false} ScanJoined(n: Name, rest: seq<Byte>, all: seq<Byte>)
    requires n != [] && ValidLabels(n) && all == Joined(n) + rest
    ensures Scan(all, [], []) == Scan(rest, n[..|n| - 1], n[|n| - 1])
    ensures Ordinary(rest) ==> Ordinary(all)
    decreases |n|
  {
    var m, l := n[..|n| - 1], n[|n| - 1];
    var tail := LabelText(l) + rest;
    ScanLast(l, rest, tail, m);
    TailStart(l, rest, tail);
    if |n| > 1 {
      JoinedLast(n);
      Reassociate(Joined(n), Joined(m), LabelText(l), rest);
      var dotted := [DOT] + tail;
      hide *;
      ScanJoined(m, dotted, all);
      ScanDot(dotted, tail, m[..|m| - 1], m[|m| - 1]);
      assert m[..|m| - 1] + [m[|m| - 1]] == m;
    }
  }

  lemma Reassociate(all: seq<Byte>, a: seq<Byte>, t: seq<Byte>, rest: seq<Byte>)
    requires all == a + [DOT] + t
    ensures all + rest == a + ([DOT] + (t + rest))
  {
  }

  /** Reading the text of a name gives back the name; only the root is absolute. */
  lemma TextReadsBack(n: Name)
    requires ValidLabels(n)
    ensures Scan(NameText(n), [], []) == Accepted(n, n == []) && Ordinary(NameText(n))
  {
    if n != [] {
      assert Joined(n) == Joined(n) + [];
      ScanJoined(n, [], Joined(n));
      ScanEnd(n[..|n| - 1], n[|n| - 1]);
      hide *;
      assert n[..|n| - 1] + [n[|n| - 1]] == n;
    }
  }

  lemma ScanEnd(labels: Name, cur: Label)
    requires ValidLabel(cur)
    ensures Scan([], labels, cur) == Accepted(labels + [cur], false) && Ordinary([])
  {
  }

  lemma TextInjective(x: Name, y: Name)
    requires ValidLabels(x) && ValidLabels(y) && NameText(x) == NameText(y)
    ensures x == y
  {
    TextReadsBack(x);
    TextReadsBack(y);
  }

  lemma {:induction false} JoinedSplit(n: Name, k: nat)
    requires 1 <= k < |n|
    ensures Joined(n) == Joined(n[..k]) + [DOT] + Joined(n[k..])
    decreases |n|
  {
    var m, l := n[..|n| - 1], n[|n| - 1];
    JoinedLast(n);
    hide *;
    if k == |n| - 1 {
      assert n[k..] == [l] && n[..k] == m;
    } else {
      JoinedSplit(m, k);
      NameSlices(n, k);
      JoinedSnoc(m[k..], l);
      Regroup(Joined(n), Joined(m), Joined(n[..k]), Joined(m[k..]), LabelText(l), Joined(n[k..]));
    }
  }

  lemma JoinedLast(n: Name)
    requires |n| > 1
    ensures Joined(n) == Joined(n[..|n| - 1]) + [DOT] + LabelText(n[|n| - 1])
    ensures Joined([n[|n| - 1]]) == LabelText(n[|n| - 1])
  {
  }

  lemma Regroup(all: seq<Byte>, m: seq<Byte>, a: seq<Byte>, b: seq<Byte>, c: seq<Byte>, bc: seq<Byte>)
    requires all == m + [DOT] + c && m == a + [DOT] + b && bc == b + [DOT] + c
    ensures all == a + [DOT] + bc
  {
  }

  lemma NameSlices(n: Name, k: nat)
    requires 1 <= k < |n|
    ensures n[..|n| - 1][..k] == n[..k] && n[..|n| - 1][k..] + [n[|n| - 1]] == n[k..]
  {
  }

  lemma ValidTail(x: Name, k: nat)
    requires ValidLabels(x) && k <= |x|
    ensures ValidLabels(x[k..]) && ValidLabels(x[..k])
  {
  }

  // ----- ns_name_ntop -----

  /** The text of the first 'k' labels. */
  function Built(n: Name, k: nat): seq<Byte>
    requires k <= |n|
  {
    if k == 0 then [] else Joined(n[..k])
  }

  /** The same with the separator that comes before the next label. */
  function Led(n: Name, k: nat): seq<Byte>
    requires k <= |n|
  {
    Built(n, k) + if k == 0 then [] else [DOT]
  }

  /** The buffer starts with this text, which ends at 'dn'. */
  predicate Shows(d: seq<Byte>, dn: nat, t: seq<Byte>) {
    dn <= |d| && d[..dn] == t
  }

  lemma ShowsJoined(d: seq<Byte>, dn: nat, base: seq<Byte>, t: seq<Byte>, all: seq<Byte>)
    requires Extends(d, dn, base, t) && all == base + t
    ensures Shows(d, dn, all)
  {
  }

  lemma BuiltNext(n: Name, k: nat)
    requires k < |n| && ValidLabels(n)
    ensures Built(n, k + 1) == Led(n, k) + LabelText(n[k])
    ensures k > 0 <==> Built(n, k) != []
    ensures |Built(n, k + 1)| <= |NameText(n)|
  {
    hide LabelText;
    var m := n[..k + 1];
    if k > 0 {
      JoinedSnoc(n[..k], n[k]);
      assert n[..k] + [n[k]] == m;
    }
    if k + 1 < |n| {
      JoinedSplit(n, k + 1);
    } else {
      assert m == n;
    }
    NotEmpty(n, k);
  }

  lemma JoinedNotEmpty(n: Name)
    requires n != [] && ValidLabels(n)
    ensures Joined(n) != []
  {
    assert ValidLabel(n[|n| - 1]);
  }

  lemma NotEmpty(n: Name, k: nat)
    requires k <= |n| && ValidLabels(n)
    ensures k > 0 <==> Built(n, k) != []
  {
    if k > 0 {
      ValidTail(n, k);
      JoinedNotEmpty(n[..k]);
    }
  }

  /** Writes one octet as text; it fails if the NUL could not follow. */
  method PutOctet(c: Byte, dst: array<Byte>, dn: nat) returns (ok: bool, dn': nat)
    requires dn <= dst.Length
    modifies dst
    ensures ok ==> dn' == dn + |Esc(c)| <= dst.Length && dst[..dn'] == old(dst[..dn]) + Esc(c)
    ensures !ok ==> dn + |Esc(c)| + 1 > dst.Length
  {
    ghost var before := dst[..dn];
    var eom := dst.Length;
    ok, dn' := true, dn;
    if Special(c) {
      if dn + 1 >= eom {
        return false, dn;
      }
      dst[dn] := SLASH;
      dst[dn + 1] := c;
      dn' := dn + 2;
    } else if !Printable(c) {
      if dn + 3 >= eom {
        return false, dn;
      }
      dst[dn] := SLASH;
      dst[dn + 1] := ZERO + c / 100;
      dst[dn + 2] := ZERO + (c % 100) / 10;
      dst[dn + 3] := ZERO + c % 10;
      dn' := dn + 4;
    } else {
      if dn >= eom {
        return false, dn;
      }
      dst[dn] := c;
      dn' := dn + 1;
    }
    assert dst[..dn'] == before + Esc(c);
  }

  lemma LabelTextOfPrefix(w: seq<Byte>, p: nat, j: nat, l: nat)
    requires j < l && p + l <= |w|
    ensures LabelText(w[p..p + (j + 1)]) == LabelText(w[p..p + j]) + Esc(w[p + j])
  {
    hide *;
    SliceSnoc(w, p, j);
    LabelTextSnoc(w[p..p + j], w[p + j]);
  }

  lemma SliceSnoc(w: seq<Byte>, p: nat, j: nat)
    requires p + j < |w|
    ensures w[p..p + (j + 1)] == w[p..p + j] + [w[p + j]]
  {
  }

  /** The text of a prefix of a label is no longer than that of the label. */
  lemma {:induction false} LabelTextGrows(w: seq<Byte>, p: nat, j: nat, l: nat)
    requires j <= l && p + l <= |w|
    ensures |LabelText(w[p..p + j])| <= |LabelText(w[p..p + l])|
    decreases l - j
  {
    if j < l {
      LabelTextOfPrefix(w, p, j, l);
      LabelTextGrows(w, p, j + 1, l);
    }
  }

  /** The buffer starts with one text and then another, up to 'dn'. */
  predicate Extends(d: seq<Byte>, dn: nat, base: seq<Byte>, t: seq<Byte>) {
    dn == |base| + |t| <= |d| && d[..dn] == base + t
  }

  lemma ExtendsMore(d: seq<Byte>, dn: nat, e: seq<Byte>, d': seq<Byte>, dn': nat, base: seq<Byte>, t: seq<Byte>)
    requires Extends(d, dn, base, t) && dn' == dn + |e| <= |d'| && d'[..dn'] == d[..dn] + e
    ensures Extends(d', dn', base, t + e)
  {
    assert (base + t) + e == base + (t + e);
  }

  /** One round of the inner loop of ns_name_ntop. */
  method PutOne(src: seq<Byte>, p: nat, j: nat, l: nat, dst: array<Byte>, dn: nat, ghost base: seq<Byte>)
    returns (ok: bool, dn': nat)
    requires j < l && p + l <= |src| && Extends(dst[..], dn, base, LabelText(src[p..p + j]))
    modifies dst
    ensures ok ==> Extends(dst[..], dn', base, LabelText(src[p..p + (j + 1)]))
    ensures !ok ==> |base| + |LabelText(src[p..p + l])| + 1 > dst.Length
  {
    hide LabelText, Esc;
    LabelTextOfPrefix(src, p, j, l);
    LabelTextGrows(src, p, j + 1, l);
    ghost var d := dst[..];
    assert dst[..dn] == d[..dn];
    ok, dn' := PutOctet(src[p + j], dst, dn);
    if ok {
      assert dst[..dn'] == dst[..][..dn'];
      ExtendsMore(d, dn, Esc(src[p + j]), dst[..], dn', base, LabelText(src[p..p + j]));
    }
  }

  /** The inner loop of ns_name_ntop: writes one label. */
  method PutLabel(src: seq<Byte>, p: nat, l: nat, dst: array<Byte>, dn: nat, ghost base: seq<Byte>)
    returns (ok: bool, dn': nat)
    requires p + l <= |src| && Extends(dst[..], dn, base, [])
    modifies dst
    ensures ok ==> Extends(dst[..], dn', base, LabelText(src[p..p + l]))
    ensures !ok ==> |base| + |LabelText(src[p..p + l])| + 1 > dst.Length
  {
    hide *;
    ok, dn' := true, dn;
    EmptyText(src, p);
    var j := 0;
    while j < l
      invariant 0 <= j <= l && Extends(dst[..], dn', base, LabelText(src[p..p + j]))
    {
      ok, dn' := PutOne(src, p, j, l, dst, dn', base);
      if !ok {
        return;
      }
      j := j + 1;
    }
  }

  lemma EmptyText(w: seq<Byte>, p: nat)
    requires p <= |w|
    ensures LabelText(w[p..p]) == []
  {
  }

  /**
   ns_name_ntop.  It fails exactly when the text and its NUL do not fit, which by TextBound is
   never when there is room for 1004 octets.
  */
  method Ntop(src: seq<Byte>, pos: nat, dst: array<Byte>) returns (r: int)
    requires IsNameAt(src, pos)
    modifies dst
    ensures var t := NameText(NameAt(src, pos));
            if |t| + 1 <= dst.Length then r == |t| + 1 && dst[..r] == t + [0] else r == -1
  {
    ghost var n := NameAt(src, pos);
    NameAtValid(src, pos);
    hide *;
    StartRead(src, pos);
    var cp: nat, dn: nat := pos, 0;
    ghost var k: nat := 0;
    while src[cp] != 0
      invariant cp < |src| && Read(src, cp, n, k) && (src[cp] == 0 <==> k == |n|)
      invariant k <= |n| && Shows(dst[..], dn, Built(n, k))
      decreases |n| - k
    {
      NextRead(src, cp, n, k);
      var ok;
      ok, dn := PutNext(src, cp, dst, dn, n, k);
      if !ok {
        return -1;
      }
      cp, k := cp + 1 + src[cp], k + 1;
      AtRead(src, cp, n, k);
    }
    AllBuilt(n);
    r := PutEnd(dst, dn, n);
  }

  /** The name read at 'cp' is what is left of 'n' after its first 'k' labels. */
  predicate Read(src: seq<Byte>, cp: nat, n: Name, k: nat) {
    k <= |n| && IsNameAt(src, cp) && NameAt(src, cp) == n[k..]
  }

  lemma StartRead(src: seq<Byte>, pos: nat)
    requires IsNameAt(src, pos)
    ensures pos < |src| && Read(src, pos, NameAt(src, pos), 0) && (src[pos] == 0 <==> NameAt(src, pos) == [])
    ensures Built(NameAt(src, pos), 0) == []
  {
    assert NameAt(src, pos)[0..] == NameAt(src, pos);
  }

  lemma AtRead(src: seq<Byte>, cp: nat, n: Name, k: nat)
    requires Read(src, cp, n, k)
    ensures cp < |src| && k <= |n| && (src[cp] == 0 <==> k == |n|)
  {
  }

  lemma NextRead(src: seq<Byte>, cp: nat, n: Name, k: nat)
    requires Read(src, cp, n, k) && k < |n|
    ensures cp < |src| && 0 < src[cp] <= MAXLABEL && cp + 1 + src[cp] <= |src|
    ensures n[k] == src[cp + 1..cp + 1 + src[cp]] && Read(src, cp + 1 + src[cp], n, k + 1)
  {
    NameAtCons(src, cp);
    assert n[k..][1..] == n[k + 1..];
  }

  lemma AllBuilt(n: Name)
    requires ValidLabels(n)
    ensures NameText(n) == if n == [] then [DOT] else Built(n, |n|)
    ensures n != [] <==> Built(n, |n|) != []
  {
    if n != [] { assert n[..|n|] == n; }
    NotEmpty(n, |n|);
  }

  /** One round of ns_name_ntop: a separator unless the label is the first, then the label. */
  method PutNext(src: seq<Byte>, cp: nat, dst: array<Byte>, dn: nat, ghost n: Name, ghost k: nat)
    returns (ok: bool, dn': nat)
    requires cp < |src| && 0 < src[cp] <= MAXLABEL && cp + 1 + src[cp] <= |src|
    requires k < |n| && ValidLabels(n) && n[k] == src[cp + 1..cp + 1 + src[cp]] && Shows(dst[..], dn, Built(n, k))
    modifies dst
    ensures ok ==> Shows(dst[..], dn', Built(n, k + 1))
    ensures !ok ==> |NameText(n)| + 1 > dst.Length
  {
    hide *;
    BuiltNext(n, k);
    ok, dn' := PutSeparator(dst, dn, n, k);
    if !ok {
      return;
    }
    var l := src[cp];
    ExtendsLength(dst[..], dn', Led(n, k), []);
    if dn' + l >= dst.Length {
      return false, dn';
    }
    ok, dn' := PutLabel(src, cp + 1, l, dst, dn', Led(n, k));
    if ok {
      ShowsJoined(dst[..], dn', Led(n, k), LabelText(n[k]), Built(n, k + 1));
    }
  }

  method PutSeparator(dst: array<Byte>, dn: nat, ghost n: Name, ghost k: nat) returns (ok: bool, dn': nat)
    requires k <= |n| && ValidLabels(n) && Shows(dst[..], dn, Built(n, k))
    modifies dst
    ensures ok ==> Extends(dst[..], dn', Led(n, k), [])
    ensures !ok ==> |Led(n, k)| > dst.Length
  {
    NotEmpty(n, k);
    hide Joined, LabelText, Built;
    ghost var d := dst[..];
    ok, dn' := true, dn;
    if dn != 0 {
      if dn >= dst.Length {
        return false, dn;
      }
      dst[dn] := DOT;
      dn' := dn + 1;
    }
    assert dst[..][..dn'] == d[..dn] + if k == 0 then [] else [DOT];
  }

  lemma ExtendsLength(d: seq<Byte>, dn: nat, base: seq<Byte>, t: seq<Byte>)
    requires Extends(d, dn, base, t)
    ensures dn == |base| + |t| <= |d|
  {
  }

  /** The end of ns_name_ntop: the root as a dot, and the NUL. */
  method PutEnd(dst: array<Byte>, dn: nat, ghost n: Name) returns (r: int)
    requires Shows(dst[..], dn, if n == [] then [] else NameText(n)) && (n != [] ==> NameText(n) != [])
    modifies dst
    ensures var t := NameText(n);
            if |t| + 1 <= dst.Length then r == |t| + 1 && dst[..r] == t + [0] else r == -1
  {
    ghost var t := NameText(n);
    RootText();
    hide NameText;
    var eom := dst.Length;
    var end := dn;
    assert dst[..dn] == dst[..][..dn];
    if dn == 0 {
      if end >= eom {
        return -1;
      }
      dst[end] := DOT;
      end := end + 1;
    }
    assert dst[..end] == t;
    if end >= eom {
      return -1;
    }
    dst[end] := 0;
    end := end + 1;
    assert dst[..end] == t + [0];
    return end;
  }

  lemma RootText()
    ensures NameText([]) == [DOT]
  {
  }

  // ----- ns_name_pton -----

  /** The wire form of labels without the root octet. */
  function Body(n: Name): (w: seq<Byte>)
    requires ValidLabels(n)
    ensures |w| + 1 == WireLen(n)
  {
    if n == [] then [] else [|n[0]|] + n[0] + Body(n[1..])
  }

  lemma {:induction false} BodyEncode(n: Name)
    requires ValidLabels(n)
    ensures Encode(n) == Body(n) + [0]
  {
    if n != [] {
      BodyEncode(n[1..]);
      assert [|n[0]|] + n[0] + (Body(n[1..]) + [0]) == ([|n[0]|] + n[0] + Body(n[1..])) + [0];
    }
  }

  lemma {:induction false} BodySnoc(n: Name, l: Label)
    requires ValidLabels(n) && ValidLabel(l)
    ensures ValidLabels(n + [l]) && Body(n + [l]) == Body(n) + ([|l|] + l)
  {
    if n == [] {
      assert [l][1..] == [] && n + [l] == [l];
      assert Body([l]) == [|l|] + l + [];
    } else {
      BodySnoc(n[1..], l);
      assert (n + [l])[1..] == n[1..] + [l];
      assert Body(n + [l]) == [|n[0]|] + n[0] + (Body(n[1..]) + ([|l|] + l));
    }
  }

  /** What is accepted is at least as long as what has been read. */
  lemma {:induction false} ScanGrows(s: seq<Byte>, labels: Name, cur: Label)
    requires ValidLabels(labels)
    ensures var r := Scan(s, labels, cur);
            r.Accepted? ==> WireLen(r.name) >= |Body(labels)| + 1 + if cur == [] then 0 else |cur| + 1
    decreases |s|
  {
    if s == [] || (s[0] == SLASH && |s| == 1) {
      CloseLength(labels, cur);
    } else if s[0] == SLASH && Digit(s[1]) {
      var v := ThreeDigits(s[1..]);
      if v.Some? { ScanGrows(s[4..], labels, cur + [v.value]); }
    } else if s[0] == SLASH {
      ScanGrows(s[2..], labels, cur + [s[1]]);
    } else if s[0] == DOT {
      CloseLength(labels, cur);
      if |cur| <= MAXLABEL && |s| > 1 && cur != [] && s[1] != DOT {
        BodySnoc(labels, cur);
        ScanGrows(s[1..], labels + [cur], []);
      }
    } else {
      ScanGrows(s[1..], labels, cur + [s[0]]);
    }
  }

  lemma CloseLength(labels: Name, cur: Label)
    requires ValidLabels(labels)
    ensures |cur| <= MAXLABEL ==> ValidLabels(Close(labels, cur))
    ensures |cur| <= MAXLABEL ==> WireLen(Close(labels, cur)) == |Body(labels)| + 1 + if cur == [] then 0 else |cur| + 1
  {
    if 0 < |cur| <= MAXLABEL { BodySnoc(labels, cur); }
  }

  /** The buffer holds the labels read so far, room for a length octet, and the label begun. */
  predicate Writing(d: seq<Byte>, lab: nat, bp: nat, labels: Name, cur: Label) {
    && ValidLabels(labels) && lab == |Body(labels)| <= |d| && bp == lab + 1 + |cur| && bp <= |d| + 1
    && d[..lab] == Body(labels)
    && (cur != [] ==> bp <= |d| && d[lab + 1..bp] == cur)
  }

  lemma WritingMore(d: seq<Byte>, lab: nat, bp: nat, labels: Name, cur: Label, c: Byte)
    requires Writing(d, lab, bp, labels, cur) && bp < |d|
    ensures Writing(d[bp := c], lab, bp + 1, labels, cur + [c])
  {
    var e := d[bp := c];
    assert e[..lab] == d[..lab];
    assert e[lab + 1..bp + 1] == e[lab + 1..bp] + [c];
    assert e[lab + 1..bp] == d[lab + 1..bp];
  }

  /** The length octet of a label is filled in. */
  lemma WritingLabel(d: seq<Byte>, lab: nat, bp: nat, labels: Name, cur: Label, c: Byte)
    requires Writing(d, lab, bp, labels, cur) && lab < |d| && ValidLabel(cur) && bp <= |d| && c == |cur|
    ensures ValidLabels(labels + [cur]) && Writing(d[lab := c], bp, bp + 1, labels + [cur], [])
  {
    var e := d[lab := c];
    BodySnoc(labels, cur);
    assert e[..lab] == d[..lab] && e[lab + 1..bp] == d[lab + 1..bp];
    assert e[..bp] == e[..lab] + ([e[lab]] + e[lab + 1..bp]);
  }

  /** The root octet is written. */
  lemma WritingRoot(d: seq<Byte>, lab: nat, labels: Name)
    requires Writing(d, lab, lab + 1, labels, []) && lab < |d|
    ensures d[lab := 0][..lab + 1] == Encode(labels) && WireLen(labels) == lab + 1
  {
    BodyEncode(labels);
    assert d[lab := 0][..lab + 1] == d[..lab] + [0];
  }

  /** The bits that the label length check looks at. */
  predicate TooBig(c: nat) {
    (c / 64) % 4 != 0
  }

  /**
   What ns_name_pton does when a label ends the name.  A label of 256 octets or more can pass the
   check of its length octet, but the check of the whole length stops it.
  */
  method CloseName(dst: array<Byte>, lab: nat, bp: nat, ghost labels: Name, ghost cur: Label, ghost lost: bool)
    returns (ok: bool)
    requires lab < bp && (lost ==> bp > MAXCDNAME)
    requires !lost ==> Writing(dst[..], lab, bp, labels, cur)
    modifies dst
    ensures ok ==> !lost
    ensures ValidLabels(labels) && !lost ==>
              (ok <==> |cur| <= MAXLABEL && WireLen(Close(labels, cur)) <= MAXCDNAME
                       && WireLen(Close(labels, cur)) <= dst.Length)
    ensures ValidLabels(labels) && ok ==>
              && ValidLabels(Close(labels, cur)) && WireLen(Close(labels, cur)) <= dst.Length
              && dst[..WireLen(Close(labels, cur))] == Encode(Close(labels, cur))
  {
    if !lost { CloseLength(labels, cur); }
    var c := bp - lab - 1;
    if TooBig(c) {
      return false;
    }
    if lab >= dst.Length {
      return false;
    }
    ghost var d := dst[..];
    var octet: Byte := c % 256;
    dst[lab] := octet;
    assert dst[..] == d[lab := octet];
    var end := bp;
    if c != 0 {
      if bp >= dst.Length {
        return false;
      }
      dst[bp] := 0;
      end := bp + 1;
    }
    if end > MAXCDNAME {
      return false;
    }
    assert !lost && |cur| <= MAXLABEL;
    if c == 0 {
      WritingRoot(d, lab, labels);
    } else {
      WritingLabel(d, lab, bp, labels, cur, octet);
      WritingRoot(d[lab := octet], bp, labels + [cur]);
      assert dst[..] == d[lab := octet][bp := 0];
    }
    return true;
  }

  /** What the characters still to come are read as, where an escape may have been begun. */
  predicate Reads(src: seq<Byte>, i: nat, escaped: bool, labels: Name, cur: Label, r: Parsed) {
    && i <= |src| && (escaped ==> i > 0 && src[i - 1] == SLASH)
    && (var from := if escaped then i - 1 else i;
        Scan(src[from..], labels, cur) == r && Ordinary(src[from..]))
  }

  lemma ReadPlain(src: seq<Byte>, i: nat, labels: Name, cur: Label, r: Parsed)
    requires Reads(src, i, false, labels, cur, r) && i < |src| && src[i] != DOT
    ensures src[i] != SLASH ==> Reads(src, i + 1, false, labels, cur + [src[i]], r)
    ensures src[i] == SLASH ==> Reads(src, i + 1, true, labels, cur, r)
  {
    assert src[i..][1..] == src[i + 1..];
  }

  lemma ReadEscape(src: seq<Byte>, i: nat, labels: Name, cur: Label, r: Parsed)
    requires Reads(src, i, true, labels, cur, r) && i < |src|
    ensures src[i] != BRACKET
    ensures !Digit(src[i]) ==> Reads(src, i + 1, false, labels, cur + [src[i]], r)
    ensures Digit(src[i]) && ThreeDigits(src[i..]).None? ==> r == Rejected
    ensures var v := ThreeDigits(src[i..]);
            v.Some? ==> i + 3 <= |src| && Reads(src, i + 3, false, labels, cur + [v.value], r)
  {
    var s := src[i - 1..];
    assert s[1..] == src[i..] && s[1] == src[i];
    assert s[2..] == src[i + 1..];
    if i + 3 <= |src| { assert s[4..] == src[i + 3..]; }
  }

  lemma ReadDot(src: seq<Byte>, i: nat, labels: Name, cur: Label, r: Parsed)
    requires Reads(src, i, false, labels, cur, r) && i < |src| && src[i] == DOT
    ensures |cur| > MAXLABEL ==> r == Rejected
    ensures |cur| <= MAXLABEL && i + 1 == |src| ==> r == Accepted(Close(labels, cur), true)
    ensures i + 1 < |src| && (cur == [] || src[i + 1] == DOT) ==> r == Rejected
    ensures i + 1 < |src| && 0 < |cur| <= MAXLABEL && src[i + 1] != DOT ==>
              Reads(src, i + 1, false, labels + [cur], [], r)
    ensures Reads(src, i + 1, false, [], [], Scan(src[i + 1..], [], []))
  {
    assert src[i..][1..] == src[i + 1..];
  }

  lemma ReadEnd(src: seq<Byte>, escaped: bool, labels: Name, cur: Label, r: Parsed)
    requires Reads(src, |src|, escaped, labels, cur, r)
    ensures r == if |cur| > MAXLABEL then Rejected else Accepted(Close(labels, cur), false)
  {
    if escaped {
      assert src[|src| - 1..] == [SLASH];
    } else {
      assert src[|src|..] == [];
    }
  }

  /** The verdict of ns_name_pton on a text that reads as 'r', with this much room. */
  predicate Verdict(r: Parsed, room: nat, result: int, d: seq<Byte>) {
    if r.Accepted? && ValidLabels(r.name) && WireLen(r.name) <= MAXCDNAME && WireLen(r.name) <= room then
      && result == (if r.absolute then 1 else 0)
      && WireLen(r.name) <= |d| && d[..WireLen(r.name)] == Encode(r.name)
    else
      result == -1
  }

  /** The three digits of an escape. */
  method ReadDigits(src: seq<Byte>, i: nat) returns (ok: bool, v: Byte)
    requires i < |src| && Digit(src[i])
    ensures ok <==> ThreeDigits(src[i..]).Some?
    ensures ok ==> ThreeDigits(src[i..]) == Some(v)
  {
    v := 0;
    var n: int := src[i];
    n := (n - ZERO) * 100;
    if i + 1 >= |src| || !Digit(src[i + 1]) {
      return false, v;
    }
    var tens: int := src[i + 1];
    n := n + (tens - ZERO) * 10;
    if i + 2 >= |src| || !Digit(src[i + 2]) {
      return false, v;
    }
    var units: int := src[i + 2];
    n := n + (units - ZERO);
    if n > 255 {
      return false, v;
    }
    return true, n;
  }

  /** What ns_name_pton does at a separating dot. */
  method EndLabel(dst: array<Byte>, lab: nat, bp: nat, ghost labels: Name, ghost cur: Label, ghost lost: bool)
    returns (ok: bool)
    requires lab < bp && (!lost ==> Writing(dst[..], lab, bp, labels, cur))
    modifies dst
    ensures !lost && !ok ==> |cur| > MAXLABEL || |Body(labels)| >= dst.Length
    ensures !lost && ok ==> |cur| <= MAXLABEL || bp > MAXCDNAME
    ensures !lost && ok && 0 < |cur| <= MAXLABEL ==> Writing(dst[..], bp, bp + 1, labels + [cur], [])
  {
    var c := bp - lab - 1;
    if TooBig(c) {
      return false;
    }
    if lab >= dst.Length {
      return false;
    }
    ghost var d := dst[..];
    var octet: Byte := c % 256;
    dst[lab] := octet;
    assert dst[..] == d[lab := octet];
    if !lost && 0 < |cur| <= MAXLABEL {
      WritingLabel(d, lab, bp, labels, cur, octet);
    }
    return true;
  }

  /** An octet that does not fit, or a label, ends the reading: the name would be too long. */
  lemma NoRoom(s: seq<Byte>, labels: Name, cur: Label, r: Parsed, room: nat, d: seq<Byte>)
    requires ValidLabels(labels) && Scan(s, labels, cur) == r
    requires |Body(labels)| + (if cur == [] then 0 else 1 + |cur|) >= room
    ensures Verdict(r, room, -1, d)
  {
    ScanGrows(s, labels, cur);
  }

  /** What is known before a character is read, unless a label too long to be accepted has been passed. */
  predicate Inside(src: seq<Byte>, i: nat, escaped: bool, d: seq<Byte>, lab: nat, bp: nat, labels: Name, cur: Label,
                   r: Parsed, lost: bool) {
    && lab < bp
    && Reads(src, i, escaped, labels, cur, r)
    && if lost then bp > MAXCDNAME else Writing(d, lab, bp, labels, cur)
  }

  /**
   ns_name_pton.  It accepts a text exactly when it reads as a name that fits the buffer and the
   limit of 255 octets; the result tells whether the text ended in a dot.
  */
  method Pton(src: seq<Byte>, dst: array<Byte>) returns (r: int)
    requires Ordinary(src)
    modifies dst
    ensures Verdict(Scan(src, [], []), dst.Length, r, dst[..])
  {
    ghost var lost, labels: Name, cur: Label, rest := false, [], [], Scan(src, [], []);
    var i: nat, escaped, lab: nat, bp: nat := 0, false, 0, 1;
    assert src[0..] == src;
    assert Inside(src, i, escaped, dst[..], lab, bp, labels, cur, rest, lost);
    hide Scan, Ordinary, Reads, ThreeDigits, WireLen, Encode, Body;
    while i < |src|
      invariant Inside(src, i, escaped, dst[..], lab, bp, labels, cur, rest, lost)
      invariant Scan(src, [], []) == if lost then Rejected else rest
      decreases |src| - i
    {
      var c := src[i];
      if escaped {
        ReadEscape(src, i, labels, cur, rest);
        if c == BRACKET {
          assert false;
        } else if Digit(c) {
          var ok, v := ReadDigits(src, i);
          if !ok {
            return -1;
          }
          c, i := v, i + 3;
        } else {
          i := i + 1;
        }
        escaped := false;
      } else if c == DOT {
        ReadDot(src, i, labels, cur, rest);
        i := i + 1;
        if i == |src| {
          var ok := CloseName(dst, lab, bp, labels, cur, lost);
          return if ok then 1 else -1;
        }
        var ok := EndLabel(dst, lab, bp, labels, cur, lost);
        if !ok {
          if !lost && |cur| <= MAXLABEL { NoRoom(src[i - 1..], labels, cur, rest, dst.Length, dst[..]); }
          return -1;
        }
        if bp - lab - 1 == 0 || src[i] == DOT {
          return -1;
        }
        if !lost && |cur| <= MAXLABEL {
          labels, cur := labels + [cur], [];
        } else {
          lost, labels, cur, rest := true, [], [], Scan(src[i..], [], []);
        }
        lab, bp := bp, bp + 1;
        continue;
      } else {
        ReadPlain(src, i, labels, cur, rest);
        i := i + 1;
        if c == SLASH {
          escaped := true;
          continue;
        }
      }
      if bp >= dst.Length {
        if !lost { NoRoom(src[i..], labels, cur + [c], rest, dst.Length, dst[..]); }
        return -1;
      }
      ghost var d := dst[..];
      if !lost { WritingMore(d, lab, bp, labels, cur, c); }
      dst[bp] := c;
      assert dst[..] == d[bp := c];
      bp, cur := bp + 1, cur + [c];
    }
    ReadEnd(src, escaped, labels, cur, rest);
    var ok := CloseName(dst, lab, bp, labels, cur, lost);
    return if ok then 0 else -1;
  }

  /**
   ns_name_pton on what ns_name_ntop writes: any valid name comes back octet for octet into any
   buffer with room for it, and so into one of 255 octets.
  */
  lemma RoundTrip(n: Name, room: nat, result: int, d: seq<Byte>)
    requires ValidName(n) && WireLen(n) <= room && Verdict(Scan(NameText(n), [], []), room, result, d)
    ensures WireLen(n) <= |d| && d[..WireLen(n)] == Encode(n) && result == if n == [] then 1 else 0
  {
    TextReadsBack(n);
  }

  /** Whatever text is accepted, the octets written are a valid name. */
  lemma AcceptedIsValid(src: seq<Byte>, room: nat, result: int, d: seq<Byte>)
    requires Verdict(Scan(src, [], []), room, result, d) && result != -1
    ensures exists n: Name :: ValidName(n) && WireLen(n) <= |d| && d[..WireLen(n)] == Encode(n)
                              && IsNameAt(d, 0) && NameAt(d, 0) == n
  {
    var n := Scan(src, [], []).name;
    hide Scan;
    assert d[0..WireLen(n)] == d[..WireLen(n)];
    NameAtEncode(d, 0, n);
  }
}
