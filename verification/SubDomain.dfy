/**
 The subdomain test of libsres/ns_samedomain.c, which works on the text of two names from the
 right and must tell a separating dot from an escaped one by the backslashes before it.
*/
module SubDomain {
  import opened Names
  import opened Text

  // ----- escapes and separators -----

  /** How many backslashes the text ends in. */
  function Slashes(s: seq<Byte>): (k: nat)
    ensures k <= |s|
  {
    if s == [] || s[|s| - 1] != SLASH then 0 else 1 + Slashes(s[..|s| - 1])
  }

  /** The character at 'p' is escaped: an odd number of backslashes stands before it. */
  predicate Escaped(s: seq<Byte>, p: nat)
    requires p <= |s|
  {
    Slashes(s[..p]) % 2 == 1
  }

  /** The text without a trailing separator. */
  function Trim(s: seq<Byte>): seq<Byte> {
    if s != [] && s[|s| - 1] == DOT && !Escaped(s, |s| - 1) then s[..|s| - 1] else s
  }

  predicate SameText(a: seq<Byte>, b: seq<Byte>) {
    FoldLabel(a) == FoldLabel(b)
  }

  /** What ns_samedomain tests: the second text, after a separator of the first. */
  predicate SameDomain(x: seq<Byte>, y: seq<Byte>) {
    var a, b := Trim(x), Trim(y);
    || b == []
    || SameText(a, b)
    || (|a| >= |b| + 2 && a[|a| - |b| - 1] == DOT && !Escaped(a, |a| - |b| - 1) && SameText(a[|a| - |b|..], b))
  }

  lemma {:induction false} SlashesAppend(a: seq<Byte>, b: seq<Byte>)
    ensures Slashes(b) < |b| ==> Slashes(a + b) == Slashes(b)
    ensures Slashes(b) == |b| ==> Slashes(a + b) == Slashes(a) + |b|
    decreases |b|
  {
    if b == [] {
      assert a + b == a;
    } else {
      assert (a + b)[..|a + b| - 1] == a + b[..|b| - 1];
      SlashesAppend(a, b[..|b| - 1]);
    }
  }

  lemma SlashesOfEsc(c: Byte)
    ensures Slashes(Esc(c)) == if c == SLASH then 2 else 0
  {
    var e := Esc(c);
    if c == SLASH {
      assert e == [SLASH, SLASH] && e[..1] == [SLASH] && e[..1][..0] == [];
      assert Slashes(e[..1]) == 1;
    }
  }

  /** The text of a label ends in an even number of backslashes. */
  lemma {:induction false} LabelTextEven(l: Label)
    ensures Slashes(LabelText(l)) % 2 == 0
  {
    if l != [] {
      hide Esc, Slashes;
      LabelTextEven(l[..|l| - 1]);
      SlashesOfEsc(l[|l| - 1]);
      SlashesAppend(LabelText(l[..|l| - 1]), Esc(l[|l| - 1]));
    }
  }

  lemma EscDot(c: Byte, i: nat)
    requires i < |Esc(c)| && Esc(c)[i] == DOT
    ensures i == 1 && Esc(c)[..1] == [SLASH]
  {
  }

  lemma SlashSnoc(t: seq<Byte>)
    ensures Slashes(t + [SLASH]) == Slashes(t) + 1
  {
    assert (t + [SLASH])[..|t|] == t;
  }

  lemma EscapedPrefix(t: seq<Byte>, e: seq<Byte>, p: nat)
    requires p <= |t|
    ensures Escaped(t + e, p) <==> Escaped(t, p)
  {
    hide Slashes;
    assert (t + e)[..p] == t[..p];
  }

  lemma EscapedInEsc(t: seq<Byte>, c: Byte, p: nat)
    requires Slashes(t) % 2 == 0 && |t| <= p < |t + Esc(c)| && (t + Esc(c))[p] == DOT
    ensures Escaped(t + Esc(c), p)
  {
    hide Slashes, Esc;
    EscDot(c, p - |t|);
    SlashSnoc(t);
    assert (t + Esc(c))[..p] == t + Esc(c)[..1];
  }

  /** Within the text of a label every dot is escaped. */
  lemma {:induction false} LabelDotsEscaped(l: Label, p: nat)
    requires p < |LabelText(l)| && LabelText(l)[p] == DOT
    ensures Escaped(LabelText(l), p)
  {
    var k, c := l[..|l| - 1], l[|l| - 1];
    assert LabelText(l) == LabelText(k) + Esc(c);
    hide *;
    if p < |LabelText(k)| {
      LabelDotsEscaped(k, p);
      EscapedPrefix(LabelText(k), Esc(c), p);
    } else {
      LabelTextEven(k);
      EscapedInEsc(LabelText(k), c, p);
    }
  }

  lemma SlashesAfterDot(all: seq<Byte>, a: seq<Byte>, b: seq<Byte>)
    requires all == a + [DOT] + b
    ensures Slashes(all) == Slashes(b)
  {
    assert Slashes(a + [DOT]) == 0;
    SlashesAppend(a + [DOT], b);
  }

  lemma LabelEnd(l: Label)
    requires l != []
    ensures var t := LabelText(l);
            t != [] && Slashes(t) % 2 == 0 && (t[|t| - 1] == DOT ==> Escaped(t, |t| - 1))
  {
    LabelTextEven(l);
    var t := LabelText(l);
    if t[|t| - 1] == DOT { LabelDotsEscaped(l, |t| - 1); }
  }

  /** The text of a name ends in an even number of backslashes, and not in a separator. */
  lemma JoinedEnd(n: Name)
    requires n != [] && ValidLabels(n)
    ensures Joined(n) != [] && Slashes(Joined(n)) % 2 == 0 && Trim(Joined(n)) == Joined(n)
  {
    LabelEnd(n[|n| - 1]);
    if |n| > 1 {
      hide LabelText, Slashes, ValidLabels;
      AfterDotEnd(Joined(n), Joined(n[..|n| - 1]), LabelText(n[|n| - 1]));
    }
  }

  lemma AfterDotEnd(a: seq<Byte>, h: seq<Byte>, t: seq<Byte>)
    requires a == h + [DOT] + t
    requires t != [] && Slashes(t) % 2 == 0 && (t[|t| - 1] == DOT ==> Escaped(t, |t| - 1))
    ensures Slashes(a) % 2 == 0 && Trim(a) == a
  {
    DotThen(a, h, t);
    hide *;
    SlashesAfterDot(a, h, t);
    SlashesAfterDot(a[..|a| - 1], h, t[..|t| - 1]);
    NotTrimmed(a, t);
  }

  lemma NotTrimmed(a: seq<Byte>, t: seq<Byte>)
    requires t != [] && a != [] && a[|a| - 1] == t[|t| - 1] && (t[|t| - 1] == DOT ==> Escaped(t, |t| - 1))
    requires Slashes(a[..|a| - 1]) == Slashes(t[..|t| - 1])
    ensures Trim(a) == a
  {
    hide Slashes;
  }

  lemma DotThen(a: seq<Byte>, h: seq<Byte>, t: seq<Byte>)
    requires a == h + [DOT] + t && t != []
    ensures a[..|a| - 1] == h + [DOT] + t[..|t| - 1] && a[|a| - 1] == t[|t| - 1]
  {
  }

  /** What follows position 'p' of the text is the text of the labels from the 'k'th on. */
  predicate SplitsAt(n: Name, p: nat, k: nat)
    requires n != [] && p < |Joined(n)|
  {
    1 <= k < |n| && Joined(n)[p + 1..] == Joined(n[k..])
  }

  /** A dot in the text of a name is escaped, or stands between two labels. */
  lemma {:induction false} DotIsBoundary(n: Name, p: nat)
    requires n != [] && p < |Joined(n)| && Joined(n)[p] == DOT
    ensures Escaped(Joined(n), p) || exists k :: SplitsAt(n, p, k)
    decreases |n|
  {
    hide *;
    var m, l := n[..|n| - 1], n[|n| - 1];
    if |n| == 1 {
      OneLabelText(n);
      LabelDotsEscaped(l, p);
    } else {
      JoinedLast(n);
      DottedIndex(Joined(n), Joined(m), LabelText(l), p);
      if p < |Joined(m)| {
        DotIsBoundary(m, p);
        EscapedSame(Joined(n), Joined(m), p);
        if k :| SplitsAt(m, p, k) {
          SplitGrows(n, p, k);
        }
      } else if p == |Joined(m)| {
        SplitsBeforeLast(n);
      } else {
        LabelDotsEscaped(l, p - |Joined(m)| - 1);
        EscapedAfterDot(Joined(n), Joined(m), LabelText(l), p);
      }
    }
  }

  lemma OneLabelText(n: Name)
    requires |n| == 1
    ensures Joined(n) == LabelText(n[0])
  {
  }

  /** Where position 'p' of a dotted text falls. */
  lemma DottedIndex(all: seq<Byte>, a: seq<Byte>, t: seq<Byte>, p: nat)
    requires all == a + [DOT] + t && p < |all|
    ensures |all| == |a| + 1 + |t|
    ensures p < |a| ==> all[p] == a[p] && all[..p] == a[..p]
    ensures p > |a| ==> all[p] == t[p - |a| - 1]
  {
  }

  lemma EscapedSame(all: seq<Byte>, a: seq<Byte>, p: nat)
    requires p <= |a| && p <= |all| && all[..p] == a[..p]
    ensures Escaped(all, p) == Escaped(a, p)
  {
  }

  lemma EscapedAfterDot(all: seq<Byte>, a: seq<Byte>, t: seq<Byte>, p: nat)
    requires all == a + [DOT] + t && |a| < p <= |all|
    ensures Escaped(all, p) == Escaped(t, p - |a| - 1)
  {
    hide Slashes;
    assert all[..p] == a + [DOT] + t[..p - |a| - 1];
    SlashesAfterDot(all[..p], a, t[..p - |a| - 1]);
  }

  lemma SplitsBeforeLast(n: Name)
    requires |n| > 1
    ensures |Joined(n[..|n| - 1])| < |Joined(n)| && SplitsAt(n, |Joined(n[..|n| - 1])|, |n| - 1)
  {
    var m, l := n[..|n| - 1], n[|n| - 1];
    JoinedLast(n);
    assert n[|n| - 1..] == [l];
    hide Joined, LabelText;
    assert Joined(n)[|Joined(m)| + 1..] == LabelText(l);
  }

  lemma SplitGrows(n: Name, p: nat, k: nat)
    requires |n| > 1 && p < |Joined(n[..|n| - 1])| && SplitsAt(n[..|n| - 1], p, k)
    ensures p < |Joined(n)| && SplitsAt(n, p, k)
  {
    hide LabelText;
    var m, l := n[..|n| - 1], n[|n| - 1];
    JoinedSnoc(m[k..], l);
    assert m[k..] + [l] == n[k..];
    assert Joined(n) == Joined(m) + [DOT] + LabelText(l);
    hide Joined;
    assert Joined(n)[p + 1..] == Joined(m)[p + 1..] + [DOT] + LabelText(l);
  }

  // ----- case -----

  function FoldName(n: Name): (m: Name)
    ensures |m| == |n| && forall i :: 0 <= i < |n| ==> m[i] == FoldLabel(n[i])
  {
    seq(|n|, i requires 0 <= i < |n| => FoldLabel(n[i]))
  }

  lemma FoldOfEsc(c: Byte)
    ensures FoldLabel(Esc(c)) == Esc(Lower(c))
  {
  }

  lemma FoldAppend(a: seq<Byte>, b: seq<Byte>)
    ensures FoldLabel(a + b) == FoldLabel(a) + FoldLabel(b)
  {
  }

  lemma {:induction false} FoldOfLabelText(l: Label)
    ensures FoldLabel(LabelText(l)) == LabelText(FoldLabel(l))
  {
    if l != [] {
      var k, c := l[..|l| - 1], l[|l| - 1];
      FoldOfLabelText(k);
      FoldOfEsc(c);
      hide Esc;
      FoldAppend(LabelText(k), Esc(c));
      LabelTextSnoc(FoldLabel(k), Lower(c));
      assert FoldLabel(l) == FoldLabel(k) + [Lower(c)];
    }
  }

  lemma {:induction false} FoldOfJoined(n: Name)
    requires n != []
    ensures FoldLabel(Joined(n)) == Joined(FoldName(n))
    decreases |n|
  {
    var m, l := n[..|n| - 1], n[|n| - 1];
    FoldOfLabelText(l);
    if |n| == 1 {
      OneFolded(n);
    } else {
      JoinedLast(n);
      FoldNameSnoc(n);
      hide *;
      FoldOfJoined(m);
      FoldOfDotted(Joined(m), LabelText(l));
      JoinedSnoc(FoldName(m), FoldLabel(l));
    }
  }

  lemma OneFolded(n: Name)
    requires |n| == 1
    ensures Joined(FoldName(n)) == LabelText(FoldLabel(n[0])) && Joined(n) == LabelText(n[0])
  {
  }

  lemma FoldNameSnoc(n: Name)
    requires |n| > 1
    ensures FoldName(n) == FoldName(n[..|n| - 1]) + [FoldLabel(n[|n| - 1])] && FoldName(n[..|n| - 1]) != []
  {
  }

  lemma FoldOfDotted(a: seq<Byte>, b: seq<Byte>)
    ensures FoldLabel(a + [DOT] + b) == FoldLabel(a) + [DOT] + FoldLabel(b)
  {
    FoldAppend(a + [DOT], b);
    FoldAppend(a, [DOT]);
    assert FoldLabel([DOT]) == [DOT];
  }

  /** Texts are equal up to case exactly when the names are. */
  lemma SameTextIsSame(x: Name, y: Name)
    requires ValidLabels(x) && ValidLabels(y) && x != [] && y != []
    ensures SameText(Joined(x), Joined(y)) <==> Same(x, y)
  {
    FoldOfJoined(x);
    FoldOfJoined(y);
    var u, v := FoldName(x), FoldName(y);
    if SameText(Joined(x), Joined(y)) {
      TextInjective(u, v);
      assert forall i :: 0 <= i < |x| ==> u[i] == v[i];
    }
    if Same(x, y) {
      assert forall i :: 0 <= i < |x| ==> SameLabel(x[i], y[i]);
      assert u == v;
    }
  }

  lemma SubdomainIsSuffix(x: Name, y: Name)
    requires ValidLabels(x) && ValidLabels(y)
    ensures SameDomain(NameText(x), NameText(y)) <==> IsSuffix(y, x)
  {
    RootTrimmed();
    if y == [] {
    } else if x == [] {
      JoinedEnd(y);
    } else {
      hide SameDomain, IsSuffix;
      if SameDomain(Joined(x), Joined(y)) { TextOfSuffix(x, y); }
      if IsSuffix(y, x) { SuffixText(x, y); }
    }
  }

  lemma TextOfSuffix(x: Name, y: Name)
    requires ValidLabels(x) && ValidLabels(y) && x != [] && y != [] && SameDomain(Joined(x), Joined(y))
    ensures IsSuffix(y, x)
  {
    hide Joined, Escaped, SameText;
    JoinedEnd(x);
    JoinedEnd(y);
    var a, b := Joined(x), Joined(y);
    assert SameText(a, b) || (|a| >= |b| + 2 && a[|a| - |b| - 1] == DOT && !Escaped(a, |a| - |b| - 1)
                              && SameText(a[|a| - |b|..], b));
    hide *;
    if SameText(a, b) {
      SameTextIsSame(x, y);
      assert x[0..] == x;
      TailEncloses(y, x, 0);
    } else {
      DotIsBoundary(x, |a| - |b| - 1);
      var k: nat :| SplitsAt(x, |a| - |b| - 1, k);
      SplitGives(x, |a| - |b| - 1, k);
      ValidTail(x, k);
      SameTextIsSame(x[k..], y);
      TailEncloses(y, x, k);
    }
  }

  lemma SplitGives(n: Name, p: nat, k: nat)
    requires n != [] && p < |Joined(n)| && SplitsAt(n, p, k)
    ensures 1 <= k < |n| && Joined(n)[p + 1..] == Joined(n[k..])
  {
  }

  lemma SuffixText(x: Name, y: Name)
    requires ValidLabels(x) && ValidLabels(y) && x != [] && y != [] && IsSuffix(y, x)
    ensures SameDomain(Joined(x), Joined(y))
  {
    hide *;
    SuffixNoLonger(y, x);
    SuffixIsSame(y, x);
    JoinedEnd(x);
    JoinedEnd(y);
    var k := |x| - |y|;
    ValidTail(x, k);
    SameTextIsSame(x[k..], y);
    if k == 0 {
      assert x[0..] == x;
      hide *;
      SameTextSameDomain(Joined(x), Joined(y));
    } else {
      JoinedSplit(x, k);
      JoinedEnd(x[..k]);
      hide *;
      AfterSeparator(Joined(x), Joined(x[..k]), Joined(x[k..]), Joined(y));
    }
  }

  lemma SameTextSameDomain(a: seq<Byte>, b: seq<Byte>)
    requires SameText(a, b) && Trim(a) == a && Trim(b) == b
    ensures SameDomain(a, b)
  {
  }

  lemma AfterSeparator(a: seq<Byte>, h: seq<Byte>, t: seq<Byte>, b: seq<Byte>)
    requires a == h + [DOT] + t && h != [] && Slashes(h) % 2 == 0 && SameText(t, b) && Trim(a) == a && Trim(b) == b
    ensures SameDomain(a, b)
  {
    hide Trim, Slashes;
    SameTextLength(t, b);
    assert a[..|h|] == h && a[|h| + 1..] == t;
  }

  lemma SameTextLength(a: seq<Byte>, b: seq<Byte>)
    requires SameText(a, b)
    ensures |a| == |b|
  {
    assert |FoldLabel(a)| == |a| && |FoldLabel(b)| == |b|;
  }

  lemma RootTrimmed()
    ensures Trim([DOT]) == []
  {
    assert Slashes([DOT][..0]) == 0;
  }

  // ----- ns_samedomain -----

  /** The loop that tells whether the character at 'end' is escaped. */
  method IsEscaped(a: seq<Byte>, end: nat) returns (escaped: bool)
    requires end <= |a|
    ensures escaped == Escaped(a, end)
  {
    escaped := false;
    var i := end - 1;
    while i >= 0
      invariant -1 <= i < end
      invariant Escaped(a, end) == (escaped != Escaped(a, i + 1))
    {
      assert a[..i + 1][..i] == a[..i];
      if a[i] == SLASH {
        escaped := !escaped;
      } else {
        break;
      }
      i := i - 1;
    }
  }

  /** The text length without a trailing separator. */
  method TrimmedLength(a: seq<Byte>) returns (la: nat)
    ensures la <= |a| && a[..la] == Trim(a)
  {
    la := |a|;
    if la != 0 && a[la - 1] == DOT {
      var escaped := IsEscaped(a, la - 1);
      if !escaped {
        la := la - 1;
      }
    }
  }

  /** strncasecmp as an equality test. */
  method StrNCaseEqual(a: seq<Byte>, b: seq<Byte>) returns (same: bool)
    requires |a| == |b|
    ensures same == SameText(a, b)
  {
    for i := 0 to |a|
      invariant forall j :: 0 <= j < i ==> Lower(a[j]) == Lower(b[j])
    {
      if Lower(a[i]) != Lower(b[i]) {
        assert FoldLabel(a)[i] != FoldLabel(b)[i];
        return false;
      }
    }
    assert FoldLabel(a) == FoldLabel(b);
    return true;
  }

  /** ns_samedomain.  By SubdomainIsSuffix, on the texts of names it tells what the names do. */
  method NsSameDomain(a: seq<Byte>, b: seq<Byte>) returns (r: int)
    ensures r == if SameDomain(a, b) then 1 else 0
  {
    var la := TrimmedLength(a);
    var lb := TrimmedLength(b);
    hide Trim, Escaped, SameText;
    ghost var x, y := Trim(a), Trim(b);
    Lengths(x, y);
    if lb == 0 {
      return 1;
    }
    if lb > la {
      return 0;
    }
    if lb == la {
      var same := StrNCaseEqual(a[..la], b[..lb]);
      return if same then 1 else 0;
    }
    var diff := la - lb;
    if diff < 2 {
      return 0;
    }
    if a[diff - 1] != DOT {
      return 0;
    }
    var escaped := IsEscaped(a, diff - 1);
    assert a[..diff - 1] == x[..diff - 1];
    EscapedSame(a, x, diff - 1);
    if escaped {
      return 0;
    }
    assert a[diff..la] == x[diff..];
    var same := StrNCaseEqual(a[diff..la], b[..lb]);
    return if same then 1 else 0;
  }

  lemma Lengths(a: seq<Byte>, b: seq<Byte>)
    ensures |a| != |b| ==> !SameText(a, b)
  {
    if SameText(a, b) { SameTextLength(a, b); }
  }
}
