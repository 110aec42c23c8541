/**
 Domain names as sequences of labels, most specific label first; the root is the
 empty sequence.  Every other module states its specifications over this type.
 Also the uncompressed wire form of section 3.1 of RFC 1035, and the comparison of
 names that ignores ASCII case.
*/
module Names {

  type Byte = b: int | 0 <= b < 256

  type Label = seq<Byte>

  type Name = seq<Label>

  datatype Option<+T> = None | Some(value: T)

  lemma SliceOfSlice<T>(s: seq<T>, i: nat, j: nat, a: nat, b: nat)
    requires i + a <= i + b <= j <= |s|
    ensures s[i..j][a..b] == s[i + a..i + b]
  {
    var l, r := s[i..j][a..b], s[i + a..i + b];
    assert |l| == |r| && forall k :: 0 <= k < |l| ==> l[k] == r[k];
  }

  const MAXCDNAME := 255
  const MAXLABEL := 63

  predicate ValidLabel(l: Label) {
    1 <= |l| <= MAXLABEL
  }

  predicate ValidLabels(n: Name) {
    forall i :: 0 <= i < |n| ==> ValidLabel(n[i])
  }

  function WireLen(n: Name): (r: nat)
    ensures r > |n|
  {
    if n == [] then 1 else 1 + |n[0]| + WireLen(n[1..])
  }

  predicate ValidName(n: Name) {
    ValidLabels(n) && WireLen(n) <= MAXCDNAME
  }

  /** The uncompressed wire form: length-prefixed labels, then the root octet. */
  function Encode(n: Name): (w: seq<Byte>)
    requires ValidLabels(n)
    ensures |w| == WireLen(n)
  {
    if n == [] then [0] else [|n[0]|] + n[0] + Encode(n[1..])
  }

  /** An uncompressed name of ordinary labels starts at 'pos' and ends inside the buffer. */
  predicate IsNameAt(w: seq<Byte>, pos: nat)
    decreases |w| - pos
  {
    && pos < |w|
    && (w[pos] == 0 || (w[pos] <= MAXLABEL && IsNameAt(w, pos + 1 + w[pos])))
  }

  /** The labels of the uncompressed name at 'pos'. */
  function NameAt(w: seq<Byte>, pos: nat): (n: Name)
    requires IsNameAt(w, pos)
    ensures pos + WireLen(n) <= |w|
    decreases |w| - pos
  {
    if w[pos] == 0 then [] else
      assert IsNameAt(w, pos + 1 + w[pos]);
      var n := [w[pos + 1..pos + 1 + w[pos]]] + NameAt(w, pos + 1 + w[pos]);
      assert n[1..] == NameAt(w, pos + 1 + w[pos]);
      n
  }

  lemma {:induction false} NameAtValid(w: seq<Byte>, pos: nat)
    requires IsNameAt(w, pos)
    ensures ValidLabels(NameAt(w, pos))
    decreases |w| - pos
  {
    if w[pos] != 0 { NameAtValid(w, pos + 1 + w[pos]); }
  }

  lemma EncodeCons(n: Name)
    requires ValidLabels(n) && n != []
    ensures var w := Encode(n);
            && w[0] == |n[0]| && w[1..1 + |n[0]|] == n[0] && w[1 + |n[0]|..] == Encode(n[1..])
  {
  }

  lemma EncodeUncons(w: seq<Byte>, pos: nat, n: Name)
    requires ValidLabels(n) && n != [] && pos + WireLen(n) <= |w|
    requires w[pos] == |n[0]| && w[pos + 1..pos + 1 + |n[0]|] == n[0]
    requires w[pos + 1 + |n[0]|..pos + WireLen(n)] == Encode(n[1..])
    ensures w[pos..pos + WireLen(n)] == Encode(n)
  {
    var i, j, k := pos + 1, pos + 1 + |n[0]|, pos + WireLen(n);
    assert i <= j <= k && Encode(n) == [|n[0]|] + n[0] + Encode(n[1..]);
    hide WireLen, Encode;
    SliceJoin(w, pos, i, j);
    SliceJoin(w, pos, j, k);
    SliceOne(w, pos);
  }

  lemma SliceJoin(w: seq<Byte>, i: nat, j: nat, k: nat)
    requires i <= j <= k <= |w|
    ensures w[i..k] == w[i..j] + w[j..k]
  {
  }

  lemma SliceOne(w: seq<Byte>, i: nat)
    requires i < |w|
    ensures w[i..i + 1] == [w[i]]
  {
  }

  lemma NameAtStep(w: seq<Byte>, pos: nat, n: Name)
    requires n != [] && pos < |w| && w[pos] == |n[0]| && 1 <= |n[0]| <= MAXLABEL
    requires pos + 1 + |n[0]| <= |w| && w[pos + 1..pos + 1 + |n[0]|] == n[0]
    requires IsNameAt(w, pos + 1 + |n[0]|) && NameAt(w, pos + 1 + |n[0]|) == n[1..]
    ensures IsNameAt(w, pos) && NameAt(w, pos) == n
  {
    assert n == [n[0]] + n[1..];
  }

  lemma EncodeParts(w: seq<Byte>, pos: nat, n: Name)
    requires ValidLabels(n) && pos + WireLen(n) <= |w| && w[pos..pos + WireLen(n)] == Encode(n) && n != []
    ensures ValidLabel(n[0]) && ValidLabels(n[1..])
    ensures WireLen(n) == 1 + |n[0]| + WireLen(n[1..])
    ensures w[pos] == |n[0]| && w[pos + 1..pos + 1 + |n[0]|] == n[0]
    ensures w[pos + 1 + |n[0]|..pos + WireLen(n)] == Encode(n[1..])
  {
    EncodeCons(n);
    PartsAt(w, pos, WireLen(n), |n[0]|, Encode(n));
  }

  lemma PartsAt(w: seq<Byte>, pos: nat, k: nat, l: nat, e: seq<Byte>)
    requires 1 + l <= k && pos + k <= |w| && w[pos..pos + k] == e
    ensures w[pos] == e[0] && w[pos + 1..pos + 1 + l] == e[1..1 + l] && w[pos + 1 + l..pos + k] == e[1 + l..]
  {
    SliceOfSlice(w, pos, pos + k, 1, 1 + l);
    SliceOfSlice(w, pos, pos + k, 1 + l, k);
  }

  /** Reading a wire form gives the labels it was made from. */
  lemma {:induction false} NameAtEncode(w: seq<Byte>, pos: nat, n: Name)
    requires ValidLabels(n) && pos + WireLen(n) <= |w| && w[pos..pos + WireLen(n)] == Encode(n)
    ensures IsNameAt(w, pos) && NameAt(w, pos) == n
    decreases |n|
  {
    if n == [] {
      assert w[pos] == w[pos..pos + 1][0];
    } else {
      EncodeParts(w, pos, n);
      hide Encode, ValidLabels, WireLen, NameAt, IsNameAt;
      NameAtEncode(w, pos + 1 + |n[0]|, n[1..]);
      NameAtStep(w, pos, n);
    }
  }

  lemma NameAtCons(w: seq<Byte>, pos: nat)
    requires IsNameAt(w, pos) && w[pos] != 0
    ensures IsNameAt(w, pos + 1 + w[pos])
    ensures NameAt(w, pos)[0] == w[pos + 1..pos + 1 + w[pos]]
    ensures NameAt(w, pos)[1..] == NameAt(w, pos + 1 + w[pos])
    ensures WireLen(NameAt(w, pos)) == 1 + w[pos] + WireLen(NameAt(w, pos + 1 + w[pos]))
  {
  }

  /** The octets read for a name are its wire form. */
  lemma {:induction false} EncodeNameAt(w: seq<Byte>, pos: nat)
    requires IsNameAt(w, pos)
    ensures ValidLabels(NameAt(w, pos))
    ensures w[pos..pos + WireLen(NameAt(w, pos))] == Encode(NameAt(w, pos))
    decreases |w| - pos
  {
    var n := NameAt(w, pos);
    NameAtValid(w, pos);
    if w[pos] == 0 {
      assert w[pos..pos + 1] == [0];
    } else {
      var l := w[pos];
      NameAtCons(w, pos);
      hide NameAt, IsNameAt, Encode, WireLen;
      EncodeNameAt(w, pos + 1 + l);
      EncodeUncons(w, pos, n);
    }
  }

  /** A C pointer to a name: null, or a position in a buffer. */
  datatype Ptr = Null | At(buf: seq<Byte>, pos: nat)

  // ----- ASCII case -----

  function Lower(b: Byte): Byte {
    if 65 <= b <= 90 then b + 32 else b
  }

  function FoldLabel(l: Label): (r: Label)
    ensures |r| == |l|
  {
    seq(|l|, i requires 0 <= i < |l| => Lower(l[i]))
  }

  predicate SameLabel(x: Label, y: Label) {
    FoldLabel(x) == FoldLabel(y)
  }

  /** Equal, ignoring case. */
  predicate Same(a: Name, b: Name) {
    |a| == |b| && forall i :: 0 <= i < |a| ==> SameLabel(a[i], b[i])
  }

  /** 'n' is at or below 's'. */
  predicate IsSuffix(s: Name, n: Name) {
    |s| <= |n| && forall i :: 0 <= i < |s| ==> SameLabel(n[|n| - |s| + i], s[i])
  }

  lemma SameHeadTail(x: Name, y: Name)
    requires x != [] && y != []
    ensures Same(x, y) <==> FoldLabel(x[0]) == FoldLabel(y[0]) && Same(x[1..], y[1..])
    ensures FoldLabel(x[0]) == FoldLabel(y[0]) ==> |x[0]| == |y[0]|
  {
    assert |FoldLabel(x[0])| == |x[0]| && |FoldLabel(y[0])| == |y[0]|;
    if Same(x[1..], y[1..]) && SameLabel(x[0], y[0]) {
      forall i | 0 <= i < |x| ensures SameLabel(x[i], y[i]) {
        if i > 0 { assert SameLabel(x[1..][i - 1], y[1..][i - 1]); }
      }
    }
    if Same(x, y) { assert SameLabel(x[0], y[0]); }
  }

  lemma SuffixTransitive(a: Name, b: Name, c: Name)
    requires IsSuffix(a, b) && IsSuffix(b, c)
    ensures IsSuffix(a, c)
  {
    forall i | 0 <= i < |a| ensures SameLabel(c[|c| - |a| + i], a[i]) {
      var j := |b| - |a| + i;
      assert SameLabel(b[j], a[i]) && SameLabel(c[|c| - |b| + j], b[j]);
    }
  }

  /** Two ancestors of one name are nested by their number of labels. */
  lemma SuffixesNest(a: Name, b: Name, c: Name)
    requires IsSuffix(a, c) && IsSuffix(b, c) && |a| <= |b|
    ensures IsSuffix(a, b)
  {
    forall i | 0 <= i < |a| ensures SameLabel(b[|b| - |a| + i], a[i]) {
      var j := |b| - |a| + i;
      assert SameLabel(c[|c| - |b| + j], b[j]) && SameLabel(c[|c| - |a| + i], a[i]);
    }
  }

  lemma {:induction false} SameWireLen(a: Name, b: Name)
    requires Same(a, b)
    ensures WireLen(a) == WireLen(b)
  {
    if a != [] {
      assert SameLabel(a[0], b[0]);
      assert |FoldLabel(a[0])| == |FoldLabel(b[0])|;
      SameWireLen(a[1..], b[1..]);
    }
  }

  lemma {:induction false} WireLenOfTail(n: Name, k: nat)
    requires k <= |n|
    ensures WireLen(n[k..]) <= WireLen(n)
    ensures k > 0 ==> WireLen(n[k..]) < WireLen(n)
  {
    if k > 0 {
      WireLenOfTail(n[1..], k - 1);
      assert n[1..][k - 1..] == n[k..];
    } else {
      assert n[0..] == n;
    }
  }

  /** Among ancestors of one name, the longer on the wire is the one with more labels. */
  lemma WireLenOrdersSuffixes(a: Name, b: Name, c: Name)
    requires IsSuffix(a, c) && IsSuffix(b, c)
    ensures WireLen(a) > WireLen(b) <==> |a| > |b|
  {
    BothSuffixWireLens(a, b, c);
    TailLens(a, b, c);
  }

  lemma BothSuffixWireLens(a: Name, b: Name, c: Name)
    requires IsSuffix(a, c) && IsSuffix(b, c)
    ensures |a| <= |c| && |b| <= |c|
    ensures WireLen(a) == WireLen(c[|c| - |a|..]) && WireLen(b) == WireLen(c[|c| - |b|..])
  {
    SuffixWireLen(a, c);
    SuffixWireLen(b, c);
  }

  lemma TailLens(a: Name, b: Name, c: Name)
    requires |a| <= |c| && |b| <= |c|
    requires WireLen(a) == WireLen(c[|c| - |a|..]) && WireLen(b) == WireLen(c[|c| - |b|..])
    ensures WireLen(a) > WireLen(b) <==> |a| > |b|
  {
    TailsOrder(c, |c| - |a|, |c| - |b|, WireLen(a), WireLen(b));
  }

  lemma TailsOrder(c: Name, i: nat, j: nat, x: nat, y: nat)
    requires i <= |c| && j <= |c| && x == WireLen(c[i..]) && y == WireLen(c[j..])
    ensures x > y <==> i < j
  {
    if i < j { TailsNest(c, i, j); } else if j < i { TailsNest(c, j, i); }
  }

  lemma SuffixWireLen(a: Name, c: Name)
    requires IsSuffix(a, c)
    ensures WireLen(a) == WireLen(c[|c| - |a|..])
  {
    SameWireLen(c[|c| - |a|..], a);
  }

  lemma TailsNest(c: Name, i: nat, j: nat)
    requires i <= |c| && j <= |c|
    ensures i < j ==> WireLen(c[j..]) < WireLen(c[i..])
    ensures i == j ==> WireLen(c[j..]) == WireLen(c[i..])
  {
    if i < j {
      WireLenOfTail(c[i..], j - i);
      assert c[i..][j - i..] == c[j..];
    }
  }

  lemma FewLabels(n: Name)
    requires ValidName(n)
    ensures |n| < 256
  {
  }

  lemma TailEncloses(z: Name, n: Name, k: nat)
    requires k <= |n| && Same(n[k..], z)
    ensures IsSuffix(z, n)
  {
    forall i | 0 <= i < |z| ensures SameLabel(n[|n| - |z| + i], z[i]) {
      assert SameLabel(n[k..][i], z[i]);
    }
  }

  lemma SuffixNoLonger(z: Name, n: Name)
    requires IsSuffix(z, n)
    ensures |z| <= |n|
  {
  }

  lemma SuffixIsSame(z: Name, n: Name)
    requires IsSuffix(z, n)
    ensures Same(z, n[|n| - |z|..]) && Same(n[|n| - |z|..], z)
  {
    forall i | 0 <= i < |z| ensures SameLabel(z[i], n[|n| - |z|..][i]) {
      assert SameLabel(n[|n| - |z| + i], z[i]);
    }
  }

  lemma TailValid(n: Name, k: nat)
    requires ValidName(n) && k <= |n|
    ensures ValidName(n[k..])
  {
    WireLenOfTail(n, k);
  }

  lemma SuffixOfItself(a: Name)
    ensures IsSuffix(a, a)
  {
  }

  lemma TailIsSuffix(n: Name, k: nat)
    requires k <= |n|
    ensures IsSuffix(n[k..], n)
  {
  }
}
