/**
 The base64 codec of libsres/base64.c (section 4 of RFC 4648).  The shifts and masks of the
 source are written as the divisions and remainders they stand for.
*/
module Base64 {
  import opened Names

  type Sextet = v: int | 0 <= v < 64

  const PAD: Byte := 61

  /** The alphabet, value by value. */
  function Char(v: Sextet): (c: Byte)
    ensures c != PAD && !Space(c)
  {
    if v < 26 then 65 + v
    else if v < 52 then 71 + v
    else if v < 62 then v - 4
    else if v == 62 then 43
    else 47
  }

  /** The value of a character of the alphabet. */
  function Value(c: Byte): (v: Option<Sextet>)
    ensures v.Some? ==> Char(v.value) == c
  {
    if 65 <= c <= 90 then Some(c - 65)
    else if 97 <= c <= 122 then Some(c - 71)
    else if 48 <= c <= 57 then Some(c + 4)
    else if c == 43 then Some(62)
    else if c == 47 then Some(63)
    else None
  }

  /** isspace in the C locale. */
  predicate Space(c: Byte) {
    9 <= c <= 13 || c == 32
  }

  lemma ValueOfChar(v: Sextet)
    ensures Value(Char(v)) == Some(v)
  {
  }

  /** The four characters for the first three octets, or for as many as there are. */
  function Quad(x: seq<Byte>): (t: seq<Byte>)
    requires x != []
    ensures |t| == 4
  {
    if |x| == 1 then [Char(x[0] / 4), Char((x[0] % 4) * 16), PAD, PAD]
    else if |x| == 2 then [Char(x[0] / 4), Char((x[0] % 4) * 16 + x[1] / 16), Char((x[1] % 16) * 4), PAD]
    else [Char(x[0] / 4), Char((x[0] % 4) * 16 + x[1] / 16), Char((x[1] % 16) * 4 + x[2] / 64), Char(x[2] % 64)]
  }

  function Encode64(x: seq<Byte>): (t: seq<Byte>)
    ensures |t| == (|x| + 2) / 3 * 4
  {
    if x == [] then []
    else if |x| <= 3 then Quad(x)
    else Quad(x) + Encode64(x[3..])
  }

  /** The alphabet of Table 1 of RFC 4648: capital letters, small letters, digits, a plus sign and a slash. */
  lemma AlphabetIs(v: Sextet)
    ensures v < 26 ==> Char(v) as char == 'A' + v as char
    ensures 26 <= v < 52 ==> Char(v) as char == 'a' + (v - 26) as char
    ensures 52 <= v < 62 ==> Char(v) as char == '0' + (v - 52) as char
    ensures Char(62) as char == '+' && Char(63) as char == '/'
  {
  }

  /** The test vectors of section 10 of RFC 4648: the octets of f, fo, foo, foob, fooba and foobar. */
  lemma TestVectors()
    ensures Encode64([]) == []
    ensures Encode64([102]) == [90, 103, 61, 61]
    ensures Encode64([102, 111]) == [90, 109, 56, 61]
    ensures Encode64([102, 111, 111]) == [90, 109, 57, 118]
    ensures Encode64([102, 111, 111, 98]) == [90, 109, 57, 118, 89, 103, 61, 61]
    ensures Encode64([102, 111, 111, 98, 97]) == [90, 109, 57, 118, 89, 109, 69, 61]
    ensures Encode64([102, 111, 111, 98, 97, 114]) == [90, 109, 57, 118, 89, 109, 70, 121]
  {
    assert [102, 111, 111, 98][3..] == [98] && [102, 111, 111, 98, 97][3..] == [98, 97];
    assert [102, 111, 111, 98, 97, 114][3..] == [98, 97, 114];
  }

  /** The text without its white space. */
  function Strip(s: seq<Byte>): seq<Byte> {
    if s == [] then []
    else if Space(s[|s| - 1]) then Strip(s[..|s| - 1])
    else Strip(s[..|s| - 1]) + [s[|s| - 1]]
  }

  // ----- the shape of an encoding -----

  lemma EncodeMore(x: seq<Byte>)
    requires |x| > 3
    ensures Encode64(x) == Quad(x) + Encode64(x[3..])
    ensures Encode64(x)[..4] == Quad(x) && Encode64(x)[4..] == Encode64(x[3..])
  {
  }

  lemma EncodeTail(x: seq<Byte>)
    requires |x| > 3
    ensures |Encode64(x)| == 4 + |Encode64(x[3..])| && Encode64(x)[4..] == Encode64(x[3..])
  {
    EncodeMore(x);
  }

  lemma GroupsOfTail(x: seq<Byte>, q: nat)
    requires |x| > 3 && q > 0 && 4 * q + 4 <= |Encode64(x)|
    ensures 4 * q <= |Encode64(x[3..])|
    ensures Encode64(x)[4 * q..4 * q + 4] == Encode64(x[3..])[4 * (q - 1)..4 * q]
  {
    EncodeTail(x);
    ShiftSlice(Encode64(x), Encode64(x[3..]), 4 * q);
  }

  lemma ShiftSlice(e: seq<Byte>, r: seq<Byte>, i: nat)
    requires 4 <= i && i + 4 <= |e| && |e| == 4 + |r| && e[4..] == r
    ensures e[i..i + 4] == r[i - 4..i]
  {
    SliceOfSlice(e, 4, |e|, i - 4, i);
  }

  /** Each group of four characters encodes a group of three octets, or what is left of them. */
  lemma {:induction false} QuadAt(x: seq<Byte>, q: nat)
    requires 4 * q < |Encode64(x)|
    ensures 3 * q < |x| && Encode64(x)[4 * q..4 * q + 4] == Quad(x[3 * q..])
    decreases q
  {
    hide *;
    if q == 0 {
      assert x[0..] == x;
      FirstQuad(x);
    } else {
      GroupCount(|Encode64(x)|, |x|, q);
      GroupsOfTail(x, q);
      QuadAt(x[3..], q - 1);
      DropDrop(x, 3, 3 * (q - 1));
    }
  }

  lemma DropDrop(x: seq<Byte>, i: nat, j: nat)
    requires i + j <= |x|
    ensures x[i..][j..] == x[i + j..]
  {
  }

  lemma FirstQuad(x: seq<Byte>)
    requires x != []
    ensures |Encode64(x)| >= 4 && Encode64(x)[0..4] == Quad(x)
  {
    if |x| > 3 { EncodeMore(x); }
  }

  lemma SplitAtEnd(x: seq<Byte>, k: nat)
    requires k == 0 || k == |x|
    ensures Encode64(x) == Encode64(x[..k]) + Encode64(x[k..])
  {
    assert Encode64([]) == [];
    assert x[0..] == x && x[..|x|] == x && x[..0] == [] && x[|x|..] == [];
  }

  lemma {:induction false} EncodeSplit(x: seq<Byte>, k: nat)
    requires k % 3 == 0 && k <= |x|
    ensures Encode64(x) == Encode64(x[..k]) + Encode64(x[k..])
    decreases k
  {
    hide *;
    if k == 0 || k == |x| {
      SplitAtEnd(x, k);
    } else {
      EncodeMore(x);
      FirstGroup(x, x[..k]);
      EncodeSplit(x[3..], k - 3);
      DropDrop(x, 3, k - 3);
      TakeDrop(x, 3, k);
      Glue(Encode64(x), Quad(x), Encode64(x[3..]), Encode64(x[..k][3..]), Encode64(x[k..]), Encode64(x[..k]));
    }
  }

  lemma TakeDrop(x: seq<Byte>, i: nat, k: nat)
    requires i <= k <= |x|
    ensures x[i..][..k - i] == x[..k][i..]
  {
  }

  lemma Glue(e: seq<Byte>, q: seq<Byte>, r: seq<Byte>, a: seq<Byte>, b: seq<Byte>, y: seq<Byte>)
    requires e == q + r && r == a + b && y == q + a
    ensures e == y + b
  {
  }

  lemma QuadPrefix(x: seq<Byte>, y: seq<Byte>)
    requires 3 <= |y| <= |x| && y[0] == x[0] && y[1] == x[1] && y[2] == x[2]
    ensures Quad(y) == Quad(x)
  {
  }

  lemma ThreeOctets(y: seq<Byte>)
    requires |y| == 3
    ensures y[3..] == [] && Encode64(y) == Quad(y) + Encode64([])
  {
  }

  lemma FirstGroup(x: seq<Byte>, y: seq<Byte>)
    requires 3 <= |y| <= |x| && y == x[..|y|] && |x| > 3
    ensures Encode64(y) == Quad(x) + Encode64(y[3..])
  {
    hide *;
    QuadPrefix(x, y);
    if |y| == 3 { ThreeOctets(y); } else { EncodeMore(y); }
  }

  /** Appending a last group to whole groups. */
  lemma EncodeSnoc(x: seq<Byte>, g: seq<Byte>)
    requires |x| % 3 == 0 && 1 <= |g| <= 3
    ensures Encode64(x + g) == Encode64(x) + Quad(g)
  {
    EncodeSplit(x + g, |x|);
    assert (x + g)[..|x|] == x && (x + g)[|x|..] == g;
  }

  /** How many octets of the target b64_pton needs to decode to this many. */
  function Need(n: nat): nat {
    if n % 3 == 0 then n else n + 1
  }

  /** The text is an encoding that can be decoded in this much room. */
  ghost predicate Fits(t: seq<Byte>, room: nat) {
    exists x :: Decodes(t, x) && Need(|x|) <= room
  }

  predicate Decodes(t: seq<Byte>, x: seq<Byte>) {
    Encode64(x) == t
  }

  lemma GroupShape(t: seq<Byte>, x: seq<Byte>, q: nat)
    requires Decodes(t, x) && 4 * q < |t|
    ensures 4 * q + 4 <= |t| && |t| % 4 == 0 && 3 * q + 1 <= |x|
    ensures QuadOk(t[4 * q], t[4 * q + 1], t[4 * q + 2], t[4 * q + 3], |x| - 3 * q)
    ensures |x| <= 3 * q + 2 ==> |t| == 4 * q + 4
  {
    hide *;
    DecodesEncoding(t, x);
    QuadAt(x, q);
    GroupCount(|t|, |x|, q);
    QuadShape(x[3 * q..]);
    SliceIndex(t, 4 * q, Quad(x[3 * q..]));
  }

  lemma DecodesEncoding(t: seq<Byte>, x: seq<Byte>)
    requires Decodes(t, x)
    ensures t == Encode64(x)
  {
  }

  lemma GroupCount(t: nat, x: nat, q: nat)
    requires t == (x + 2) / 3 * 4 && 4 * q < t
    ensures 4 * q + 4 <= t && t % 4 == 0 && 3 * q + 1 <= x && (x <= 3 * q + 2 ==> t == 4 * q + 4)
  {
  }

  lemma SliceIndex(t: seq<Byte>, i: nat, g: seq<Byte>)
    requires i + 4 <= |t| && |g| == 4 && t[i..i + 4] == g
    ensures t[i] == g[0] && t[i + 1] == g[1] && t[i + 2] == g[2] && t[i + 3] == g[3]
  {
    assert t[i..i + 4][0] == t[i] && t[i..i + 4][1] == t[i + 1] &&
           t[i..i + 4][2] == t[i + 2] && t[i..i + 4][3] == t[i + 3];
  }

  /** What a group of four characters must look like where 'left' octets are left. */
  predicate QuadOk(a: Byte, b: Byte, c: Byte, d: Byte, left: nat) {
    && Value(a).Some? && Value(b).Some?
    && (c == PAD <==> left == 1) && (d == PAD <==> left <= 2)
    && (c != PAD ==> Value(c).Some?) && (d != PAD ==> Value(d).Some?)
    && (left == 1 ==> Value(b).value % 16 == 0) && (left == 2 ==> Value(c).value % 4 == 0)
  }

  lemma QuadShape(y: seq<Byte>)
    requires y != []
    ensures var g := Quad(y); QuadOk(g[0], g[1], g[2], g[3], |y|)
    ensures var g := Quad(y);
            && y[0] == Value(g[0]).value * 4 + Value(g[1]).value / 16
            && (|y| >= 2 ==> y[1] == (Value(g[1]).value % 16) * 16 + Value(g[2]).value / 4)
            && (|y| >= 3 ==> y[2] == (Value(g[2]).value % 4) * 64 + Value(g[3]).value)
  {
    ValueOfChar(y[0] / 4);
    if |y| == 1 {
      ValueOfChar((y[0] % 4) * 16);
    } else {
      ValueOfChar((y[0] % 4) * 16 + y[1] / 16);
      if |y| == 2 {
        ValueOfChar((y[1] % 16) * 4);
      } else {
        ValueOfChar((y[1] % 16) * 4 + y[2] / 64);
        ValueOfChar(y[2] % 64);
      }
    }
    hide Char, Value;
  }

  /** Two octet strings with the same encoding are the same. */
  lemma {:induction false} EncodeInjective(x: seq<Byte>, y: seq<Byte>)
    requires Encode64(x) == Encode64(y)
    ensures x == y
    decreases |x|
  {
    if x == [] || y == [] {
    } else {
      FirstQuad(x);
      FirstQuad(y);
      QuadInjective(x, y);
      if |x| > 3 && |y| > 3 {
        EncodeMore(x);
        EncodeMore(y);
        EncodeInjective(x[3..], y[3..]);
        assert x == x[..3] + x[3..] && y == y[..3] + y[3..];
        assert x[..3] == y[..3];
      }
    }
  }

  lemma QuadInjective(x: seq<Byte>, y: seq<Byte>)
    requires x != [] && y != [] && Quad(x) == Quad(y)
    ensures |x| >= 3 <==> |y| >= 3
    ensures |x| < 3 ==> x == y
    ensures |x| >= 3 ==> x[0] == y[0] && x[1] == y[1] && x[2] == y[2]
  {
    QuadShape(x);
    QuadShape(y);
    hide Quad, Value;
  }

  // ----- b64_ntop -----

  /** One group, with the padding of a short one. */
  method PutGroup(x: seq<Byte>, target: array<Byte>, dl: nat) returns (ok: bool)
    requires 1 <= |x| <= 3 && dl <= target.Length
    modifies target
    ensures ok == (dl + 4 <= target.Length)
    ensures ok ==> target[..dl + 4] == old(target[..dl]) + Quad(x)
  {
    ghost var before := target[..dl];
    var first: int := x[0];
    var second: int := if |x| >= 2 then x[1] else 0;
    var third: int := if |x| == 3 then x[2] else 0;
    if dl + 4 > target.Length {
      return false;
    }
    target[dl] := Char(first / 4);
    target[dl + 1] := Char((first % 4) * 16 + second / 16);
    target[dl + 2] := if |x| == 1 then PAD else Char((second % 16) * 4 + third / 64);
    target[dl + 3] := if |x| <= 2 then PAD else Char(third % 64);
    hide Char;
    assert target[..dl + 4] == before + Quad(x);
    return true;
  }

  lemma EncodePrefix(x: seq<Byte>, k: nat, n: nat)
    requires k % 3 == 0 && k < n <= |x| && n <= k + 3 && (n < k + 3 ==> n == |x|)
    ensures Encode64(x[..n]) == Encode64(x[..k]) + Quad(x[k..n])
    ensures |Encode64(x[..k])| + 4 <= |Encode64(x)|
  {
    hide *;
    EncodeSnoc(x[..k], x[k..n]);
    Adjacent(x, k, n);
  }

  lemma Adjacent(x: seq<Byte>, k: nat, n: nat)
    requires k <= n <= |x|
    ensures x[..k] + x[k..n] == x[..n]
  {
  }

  /** The group from 'k' to 'n', after the encoding of what comes before it. */
  method PutNext(src: seq<Byte>, k: nat, n: nat, target: array<Byte>, dl: nat) returns (ok: bool)
    requires k % 3 == 0 && k < n <= |src| && n <= k + 3 && (n < k + 3 ==> n == |src|)
    requires dl <= target.Length && target[..dl] == Encode64(src[..k])
    modifies target
    ensures ok ==> dl + 4 <= target.Length && target[..dl + 4] == Encode64(src[..n])
    ensures !ok ==> |Encode64(src)| > target.Length
  {
    EncodePrefix(src, k, n);
    hide *;
    assert dl == |target[..dl]|;
    ok := PutGroup(src[k..n], target, dl);
  }

  /** b64_ntop: the encoding and its NUL, if they fit. */
  method B64Ntop(src: seq<Byte>, target: array<Byte>) returns (r: int)
    modifies target
    ensures var t := Encode64(src);
            if |t| + 1 <= target.Length then r == |t| && target[..|t| + 1] == t + [0] else r == -1
  {
    hide Encode64, Quad;
    var dl: nat, k: nat := 0, 0;
    NothingYet(src);
    while 2 < |src| - k
      invariant k <= |src| && k % 3 == 0 && dl <= target.Length && target[..dl] == Encode64(src[..k])
    {
      var ok := PutNext(src, k, k + 3, target, dl);
      if !ok {
        return -1;
      }
      dl, k := dl + 4, k + 3;
    }
    if k != |src| {
      var ok := PutNext(src, k, |src|, target, dl);
      if !ok {
        return -1;
      }
      dl, k := dl + 4, |src|;
    }
    assert src[..k] == src;
    ghost var t := target[..dl];
    if dl >= target.Length {
      return -1;
    }
    target[dl] := 0;
    assert target[..dl + 1] == t + [0];
    return dl;
  }

  lemma NothingYet(src: seq<Byte>)
    ensures Encode64(src[..0]) == []
  {
  }

  // ----- b64_pton -----

  lemma {:induction false} StripAppend(a: seq<Byte>, b: seq<Byte>)
    ensures Strip(a + b) == Strip(a) + Strip(b)
    decreases |b|
  {
    if b == [] {
      assert a + b == a;
    } else {
      assert (a + b)[..|a + b| - 1] == a + b[..|b| - 1];
      StripAppend(a, b[..|b| - 1]);
    }
  }

  lemma StripOne(c: Byte)
    ensures Strip([c]) == if Space(c) then [] else [c]
  {
    assert [c][..0] == [];
  }

  lemma StripStep(s: seq<Byte>, i: nat)
    requires i < |s|
    ensures Strip(s[i..]) == (if Space(s[i]) then [] else [s[i]]) + Strip(s[i + 1..])
    ensures Strip(s[..i + 1]) == Strip(s[..i]) + if Space(s[i]) then [] else [s[i]]
  {
    hide Strip, Space;
    StripOne(s[i]);
    assert s[i..] == [s[i]] + s[i + 1..];
    StripAppend([s[i]], s[i + 1..]);
    assert s[..i + 1] == s[..i] + [s[i]];
    StripAppend(s[..i], [s[i]]);
  }

  lemma StripParts(s: seq<Byte>, i: nat)
    requires i <= |s|
    ensures Strip(s) == Strip(s[..i]) + Strip(s[i..])
  {
    hide Strip;
    assert s == s[..i] + s[i..];
    StripAppend(s[..i], s[i..]);
  }

  /** The values of the characters of a group that has been begun. */
  datatype Part = Part(a: Sextet, b: Sextet, c: Sextet)

  /** The target starts with the octets that the first 'q' groups of 'p' encode. */
  predicate Whole(t: seq<Byte>, q: nat, p: seq<Byte>) {
    4 * q <= |p| && 3 * q <= |t| && p[..4 * q] == Encode64(t[..3 * q])
  }

  /** The characters after the 'q'th group of 'p' have the values 'v'. */
  predicate Begun(p: seq<Byte>, q: nat, state: nat, v: Part) {
    && |p| == 4 * q + state && state < 4
    && (state >= 1 ==> p[4 * q] == Char(v.a))
    && (state >= 2 ==> p[4 * q + 1] == Char(v.b))
    && (state >= 3 ==> p[4 * q + 2] == Char(v.c))
  }

  /** The octets for a group that has been begun: what its characters give so far. */
  predicate PartDone(t: seq<Byte>, i: nat, state: nat, v: Part) {
    && (state == 1 ==> i < |t| && t[i] == v.a * 4)
    && (state >= 2 ==> i + 1 < |t| && t[i] == v.a * 4 + v.b / 16)
    && (state == 2 ==> t[i + 1] == (v.b % 16) * 16)
    && (state == 3 ==> i + 2 < |t| && t[i + 1] == (v.b % 16) * 16 + v.c / 4 && t[i + 2] == (v.c % 4) * 64)
  }

  /** What the target holds after the characters 'p' of the alphabet. */
  predicate Decoding(t: seq<Byte>, tarindex: nat, state: nat, p: seq<Byte>, q: nat, v: Part) {
    && Begun(p, q, state, v) && tarindex == 3 * q + (if state == 0 then 0 else state - 1)
    && Whole(t, q, p) && PartDone(t, 3 * q, state, v)
  }

  lemma DecodingStart(t: seq<Byte>)
    ensures Decoding(t, 0, 0, [], 0, Part(0, 0, 0))
  {
    assert t[..0] == [];
  }

  lemma WholeStays(t: seq<Byte>, t': seq<Byte>, q: nat, p: seq<Byte>, c: Byte)
    requires Whole(t, q, p) && |t'| == |t| && forall i :: 0 <= i < 3 * q ==> t'[i] == t[i]
    ensures Whole(t', q, p) && Whole(t', q, p + [c])
  {
    hide Encode64;
    assert t'[..3 * q] == t[..3 * q];
    assert (p + [c])[..4 * q] == p[..4 * q];
  }

  lemma BegunSize(p: seq<Byte>, q: nat, state: nat, v: Part)
    requires Begun(p, q, state, v)
    ensures |p| == 4 * q + state && state < 4
  {
  }

  function With(v: Part, state: nat, c: Sextet): Part {
    if state == 0 then v.(a := c) else if state == 1 then v.(b := c) else if state == 2 then v.(c := c) else v
  }

  lemma BegunMore(p: seq<Byte>, q: nat, state: nat, v: Part, c: Byte)
    requires Begun(p, q, state, v) && state < 3 && Value(c).Some?
    ensures Begun(p + [c], q, state + 1, With(v, state, Value(c).value))
  {
    hide Char;
  }

  /** The fourth character completes a group. */
  lemma GroupDone(t: seq<Byte>, q: nat, p: seq<Byte>, v: Part, c: Byte)
    requires Begun(p, q, 3, v) && Whole(t, q, p) && Value(c).Some? && 3 * q + 2 < |t|
    requires t[3 * q] == v.a * 4 + v.b / 16 && t[3 * q + 1] == (v.b % 16) * 16 + v.c / 4
    requires t[3 * q + 2] == (v.c % 4) * 64 + Value(c).value
    ensures Begun(p + [c], q + 1, 0, v) && Whole(t, q + 1, p + [c])
  {
    hide *;
    GroupQuad(t, 3 * q, v, c);
    EncodePrefix(t, 3 * q, 3 * q + 3);
    LastGroup(t, q, p, v, c);
  }

  lemma GroupQuad(t: seq<Byte>, i: nat, v: Part, c: Byte)
    requires i + 2 < |t| && Value(c).Some?
    requires t[i] == v.a * 4 + v.b / 16 && t[i + 1] == (v.b % 16) * 16 + v.c / 4 &&
             t[i + 2] == (v.c % 4) * 64 + Value(c).value
    ensures Quad(t[i..i + 3]) == [Char(v.a), Char(v.b), Char(v.c), c]
  {
    QuadBack(t[i..i + 3], v, c);
  }

  lemma LastGroup(t: seq<Byte>, q: nat, p: seq<Byte>, v: Part, c: Byte)
    requires Begun(p, q, 3, v) && Whole(t, q, p) && 3 * q + 3 <= |t|
    requires Encode64(t[..3 * q + 3]) == Encode64(t[..3 * q]) + [Char(v.a), Char(v.b), Char(v.c), c]
    ensures Begun(p + [c], q + 1, 0, v) && Whole(t, q + 1, p + [c])
  {
    hide Encode64, Char;
    var all := p + [c];
    assert all == p[..4 * q] + [p[4 * q], p[4 * q + 1], p[4 * q + 2], c];
    assert all[..4 * (q + 1)] == all;
  }

  lemma QuadBack(g: seq<Byte>, v: Part, c: Byte)
    requires |g| == 3 && Value(c).Some?
    requires g[0] == v.a * 4 + v.b / 16 && g[1] == (v.b % 16) * 16 + v.c / 4 && g[2] == (v.c % 4) * 64 + Value(c).value
    ensures Quad(g) == [Char(v.a), Char(v.b), Char(v.c), c]
  {
    hide Value, Char;
    var d := Value(c).value;
    assert g[0] / 4 == v.a && (g[0] % 4) * 16 + g[1] / 16 == v.b;
    assert (g[1] % 16) * 4 + g[2] / 64 == v.c && g[2] % 64 == d;
  }

  /** The least room in which an encoding with a character of the alphabet at 'k' can be decoded. */
  function NeedAt(k: nat): nat {
    k / 4 * 3 + if k % 4 == 0 then 1 else if k % 4 == 1 then 2 else 3
  }

  /** The last of the four states of b64_pton, in which there is always room. */
  method PutLast(c: Byte, target: array<Byte>, tarindex: nat, ghost p: seq<Byte>, ghost q: nat, ghost v: Part)
    requires Value(c).Some? && Decoding(target[..], tarindex, 3, p, q, v)
    modifies target
    ensures Decoding(target[..], tarindex + 1, 0, p + [c], q + 1, v)
  {
    var x: int := Value(c).value;
    ghost var t := target[..];
    hide Value, Char, Whole, Begun;
    BegunSize(p, q, 3, v);
    if tarindex >= target.Length {
      assert false;
    }
    target[tarindex] := target[tarindex] + x;
    WholeStays(t, target[..], q, p, c);
    GroupDone(target[..], q, p, v, c);
  }

  /** The first of the four states of b64_pton. */
  method PutFirst(c: Byte, target: array<Byte>, tarindex: nat, ghost p: seq<Byte>, ghost q: nat, ghost v: Part)
    returns (ok: bool, ghost v': Part)
    requires Value(c).Some? && Decoding(target[..], tarindex, 0, p, q, v)
    modifies target
    ensures ok ==> Decoding(target[..], tarindex, 1, p + [c], q, v')
    ensures !ok ==> target.Length < NeedAt(|p|)
  {
    var x: int := Value(c).value;
    ghost var t := target[..];
    v' := With(v, 0, Value(c).value);
    BegunMore(p, q, 0, v, c);
    BegunSize(p, q, 0, v);
    hide Value, Char, Whole, Begun;
    if tarindex >= target.Length {
      return false, v';
    }
    target[tarindex] := x * 4;
    WholeStays(t, target[..], q, p, c);
    return true, v';
  }

  /** The second state. */
  method PutSecond(c: Byte, target: array<Byte>, tarindex: nat, ghost p: seq<Byte>, ghost q: nat, ghost v: Part)
    returns (ok: bool, ghost v': Part)
    requires Value(c).Some? && Decoding(target[..], tarindex, 1, p, q, v)
    modifies target
    ensures ok ==> Decoding(target[..], tarindex + 1, 2, p + [c], q, v')
    ensures !ok ==> target.Length < NeedAt(|p|)
  {
    var x: int := Value(c).value;
    ghost var t := target[..];
    v' := With(v, 1, Value(c).value);
    BegunMore(p, q, 1, v, c);
    BegunSize(p, q, 1, v);
    hide Value, Char, Whole, Begun;
    if tarindex + 1 >= target.Length {
      return false, v';
    }
    target[tarindex] := target[tarindex] + x / 16;
    target[tarindex + 1] := (x % 16) * 16;
    WholeStays(t, target[..], q, p, c);
    return true, v';
  }

  /** The third state. */
  method PutThird(c: Byte, target: array<Byte>, tarindex: nat, ghost p: seq<Byte>, ghost q: nat, ghost v: Part)
    returns (ok: bool, ghost v': Part)
    requires Value(c).Some? && Decoding(target[..], tarindex, 2, p, q, v)
    modifies target
    ensures ok ==> Decoding(target[..], tarindex + 1, 3, p + [c], q, v')
    ensures !ok ==> target.Length < NeedAt(|p|)
  {
    var x: int := Value(c).value;
    ghost var t := target[..];
    v' := With(v, 2, Value(c).value);
    BegunMore(p, q, 2, v, c);
    BegunSize(p, q, 2, v);
    hide Value, Char, Whole, Begun;
    if tarindex + 1 >= target.Length {
      return false, v';
    }
    target[tarindex] := target[tarindex] + x / 4;
    target[tarindex + 1] := (x % 4) * 64;
    WholeStays(t, target[..], q, p, c);
    return true, v';
  }

  /** One character of the alphabet. */
  method PutSextet(c: Byte, target: array<Byte>, tarindex: nat, state: nat,
                   ghost p: seq<Byte>, ghost q: nat, ghost v: Part)
    returns (ok: bool, tarindex': nat, state': nat, ghost q': nat, ghost v': Part)
    requires Value(c).Some? && Decoding(target[..], tarindex, state, p, q, v)
    modifies target
    ensures ok ==> Decoding(target[..], tarindex', state', p + [c], q', v')
    ensures !ok ==> target.Length < NeedAt(|p|)
  {
    DecodingState(target[..], tarindex, state, p, q, v);
    hide *;
    q', state', tarindex' := q, state + 1, tarindex + 1;
    if state == 0 {
      ok, v' := PutFirst(c, target, tarindex, p, q, v);
      tarindex' := tarindex;
    } else if state == 1 {
      ok, v' := PutSecond(c, target, tarindex, p, q, v);
    } else if state == 2 {
      ok, v' := PutThird(c, target, tarindex, p, q, v);
    } else {
      PutLast(c, target, tarindex, p, q, v);
      ok, state', q', v' := true, 0, q + 1, v;
    }
  }

  lemma DecodingState(t: seq<Byte>, tarindex: nat, state: nat, p: seq<Byte>, q: nat, v: Part)
    requires Decoding(t, tarindex, state, p, q, v)
    ensures state < 4
  {
  }

  /** Where a text goes wrong for b64_pton, at its 'k'th character. */
  predicate Wrong(t: seq<Byte>, k: nat, room: nat) {
    && k < |t|
    && if Value(t[k]).Some? then room < NeedAt(k)
       else if t[k] != PAD || k % 4 < 2 then true
       else if k % 4 == 2 then
         !(|t| == k + 2 && t[k + 1] == PAD) || (Value(t[k - 1]).Some? && Value(t[k - 1]).value % 16 != 0)
       else
         |t| != k + 1 || (Value(t[k - 1]).Some? && Value(t[k - 1]).value % 4 != 0)
  }

  lemma Refused(t: seq<Byte>, k: nat, room: nat)
    requires Wrong(t, k, room)
    ensures !Fits(t, room)
  {
    if Fits(t, room) {
      var x :| Decodes(t, x) && Need(|x|) <= room;
      var q := k / 4;
      GroupShape(t, x, q);
      assert k == 4 * q + k % 4;
      NeverWrong(t, k, q, x, room);
    }
  }

  lemma NeverWrong(t: seq<Byte>, k: nat, q: nat, x: seq<Byte>, room: nat)
    requires Decodes(t, x) && Need(|x|) <= room && k < |t| && 4 * q <= k < 4 * q + 4 <= |t|
    requires 3 * q + 1 <= |x| && (|x| <= 3 * q + 2 ==> |t| == 4 * q + 4)
    requires QuadOk(t[4 * q], t[4 * q + 1], t[4 * q + 2], t[4 * q + 3], |x| - 3 * q)
    ensures !Wrong(t, k, room)
  {
    hide Encode64, Value, Wrong, NeedAt;
    if k < 4 * q + 2 {
      NotWrongEarly(t, k, q, |x|, room);
    } else {
      NotWrongLate(t, k, q, |x|, room);
    }
  }

  lemma NotWrongEarly(t: seq<Byte>, k: nat, q: nat, n: nat, room: nat)
    requires Need(n) <= room && 4 * q <= k < 4 * q + 2 && 4 * q + 4 <= |t| && 3 * q + 1 <= n
    requires QuadOk(t[4 * q], t[4 * q + 1], t[4 * q + 2], t[4 * q + 3], n - 3 * q)
    ensures !Wrong(t, k, room)
  {
    hide Value;
  }

  lemma NotWrongLate(t: seq<Byte>, k: nat, q: nat, n: nat, room: nat)
    requires Need(n) <= room && 4 * q + 2 <= k < 4 * q + 4 <= |t| && 3 * q + 1 <= n
    requires n <= 3 * q + 2 ==> |t| == 4 * q + 4
    requires QuadOk(t[4 * q], t[4 * q + 1], t[4 * q + 2], t[4 * q + 3], n - 3 * q)
    ensures !Wrong(t, k, room)
  {
    PadHasNoValue();
    hide Value;
    if k == 4 * q + 2 {
    } else {
    }
  }

  lemma PadHasNoValue()
    ensures Value(PAD).None?
  {
  }

  lemma NotWhole(t: seq<Byte>, room: nat)
    requires |t| % 4 != 0
    ensures !Fits(t, room)
  {
    if Fits(t, room) {
      var x :| Decodes(t, x) && Need(|x|) <= room;
      WholeGroups(t, x);
    }
  }

  lemma WholeGroups(t: seq<Byte>, x: seq<Byte>)
    requires Decodes(t, x)
    ensures |t| % 4 == 0
  {
  }

  /** The end of the text after whole groups. */
  lemma EndsWhole(t: seq<Byte>, tarindex: nat, p: seq<Byte>, q: nat, v: Part)
    requires Decoding(t, tarindex, 0, p, q, v)
    ensures tarindex <= |t| && Decodes(p, t[..tarindex]) && Need(tarindex) <= |t|
  {
    hide Encode64, Value, Char, PartDone;
    assert p[..4 * q] == p;
  }

  /** The end of the text after one octet or two more, with the bits that belong to no octet zero. */
  lemma EndsPadded(t: seq<Byte>, tarindex: nat, state: nat, p: seq<Byte>, q: nat, v: Part)
    requires Decoding(t, tarindex, state, p, q, v) && state >= 2 && t[tarindex] == 0
    ensures Decodes(p + Pads(state), t[..tarindex]) && Need(tarindex) <= |t|
  {
    var g, pads := t[3 * q..tarindex], Pads(state);
    PaddedQuad(g, t, q, state, v);
    LastCharacters(p, q, state, v, pads);
    hide *;
    EncodeSnoc(t[..3 * q], g);
    Adjacent(t, 3 * q, tarindex);
    DecodesIs(p + pads, t[..tarindex]);
  }

  lemma DecodesIs(t: seq<Byte>, x: seq<Byte>)
    ensures Decodes(t, x) <==> Encode64(x) == t
  {
  }

  lemma LastCharacters(p: seq<Byte>, q: nat, state: nat, v: Part, pads: seq<Byte>)
    requires Begun(p, q, state, v) && state >= 2 && pads == Pads(state)
    ensures p + pads == p[..4 * q] + (if state == 2 then [Char(v.a), Char(v.b), PAD, PAD]
                                      else [Char(v.a), Char(v.b), Char(v.c), PAD])
  {
    hide Char;
  }

  lemma PaddedQuad(g: seq<Byte>, t: seq<Byte>, q: nat, state: nat, v: Part)
    requires 2 <= state <= 3 && PartDone(t, 3 * q, state, v) && t[3 * q + state - 1] == 0
    requires g == t[3 * q..3 * q + state - 1]
    ensures Quad(g) == if state == 2 then [Char(v.a), Char(v.b), PAD, PAD] else [Char(v.a), Char(v.b), Char(v.c), PAD]
  {
    hide Char;
    assert g[0] == t[3 * q] && g[0] / 4 == v.a;
    if state == 2 {
      assert (g[0] % 4) * 16 == v.b;
    } else {
      assert g[1] == t[3 * q + 1] && (g[0] % 4) * 16 + g[1] / 16 == v.b && (g[1] % 16) * 4 == v.c;
    }
  }

  /** The slop is not zero exactly when the bits of the last character that belong to no octet are not. */
  lemma SlopIs(t: seq<Byte>, tarindex: nat, state: nat, p: seq<Byte>, q: nat, v: Part)
    requires Decoding(t, tarindex, state, p, q, v) && state >= 2 && t[tarindex] != 0
    ensures Value(p[|p| - 1]).Some? && Value(p[|p| - 1]).value % (if state == 2 then 16 else 4) != 0
  {
    ValueOfChar(v.b);
    ValueOfChar(v.c);
  }

  /** Skips white space. */
  method SkipSpace(src: seq<Byte>, i: nat) returns (j: nat)
    requires i <= |src|
    ensures i <= j <= |src| && Strip(src[i..]) == Strip(src[j..]) && (j < |src| ==> !Space(src[j]))
  {
    hide Strip, Space;
    j := i;
    while j < |src| && Space(src[j])
      invariant i <= j <= |src| && Strip(src[i..]) == Strip(src[j..])
    {
      StripStep(src, j);
      j := j + 1;
    }
  }

  lemma StripHead(src: seq<Byte>, j: nat)
    requires j <= |src| && (j < |src| ==> !Space(src[j]))
    ensures if j == |src| then Strip(src[j..]) == [] else Strip(src[j..]) == [src[j]] + Strip(src[j + 1..])
  {
    if j < |src| { StripStep(src, j); }
  }

  datatype Stop = AtEnd | AtPad | AtFault

  /** The text so far is 'p', the character 'c' comes next, and then the rest. */
  lemma NextCharacter(src: seq<Byte>, i: nat, p: seq<Byte>)
    requires i < |src| && p == Strip(src[..i]) && !Space(src[i])
    ensures Strip(src[..i + 1]) == p + [src[i]]
    ensures Strip(src) == p + [src[i]] + Strip(src[i + 1..])
    ensures |p| < |Strip(src)| && Strip(src)[|p|] == src[i]
  {
    hide Strip, Space;
    StripStep(src, i);
    StripParts(src, i + 1);
  }

  /** The loop of b64_pton: the characters of the alphabet up to a pad or the end. */
  method DecodeChars(src: seq<Byte>, target: array<Byte>)
    returns (stop: Stop, i: nat, tarindex: nat, state: nat, ghost p: seq<Byte>, ghost q: nat, ghost v: Part)
    modifies target
    ensures stop.AtFault? ==> !Fits(Strip(src), target.Length)
    ensures !stop.AtFault? ==> i <= |src| && p == Strip(src[..i]) && Decoding(target[..], tarindex, state, p, q, v)
    ensures stop.AtPad? ==> i < |src| && src[i] == PAD
    ensures stop.AtEnd? ==> i == |src|
  {
    i, tarindex, state, p, q, v := 0, 0, 0, [], 0, Part(0, 0, 0);
    DecodingStart(target[..]);
    assert src[..0] == [];
    hide Decoding, Value, Fits, NeedAt;
    while i < |src|
      invariant i <= |src| && p == Strip(src[..i]) && Decoding(target[..], tarindex, state, p, q, v)
    {
      hide Strip;
      var c := src[i];
      if Space(c) {
        StripStep(src, i);
        i := i + 1;
        continue;
      }
      if c == PAD {
        stop := AtPad;
        return;
      }
      NextCharacter(src, i, p);
      if Value(c).None? {
        Refused(Strip(src), |p|, target.Length);
        stop := AtFault;
        return;
      }
      var ok;
      ghost var before := p;
      ok, tarindex, state, q, v := PutSextet(c, target, tarindex, state, p, q, v);
      if !ok {
        Refused(Strip(src), |p|, target.Length);
        stop := AtFault;
        return;
      }
      p, i := p + [c], i + 1;
    }
    stop := AtEnd;
  }

  /** The pads that end an encoding in this state. */
  function Pads(state: nat): seq<Byte> {
    if state == 2 then [PAD, PAD] else [PAD]
  }

  /** What b64_pton reads after the first pad, which is at 'i': another pad if need be, and white space. */
  method PadsOnly(src: seq<Byte>, i: nat, state: nat, ghost p: seq<Byte>, ghost room: nat) returns (ok: bool)
    requires i < |src| && src[i] == PAD && p == Strip(src[..i]) && |p| % 4 == state && state < 4
    ensures !ok ==> !Fits(Strip(src), room)
    ensures ok ==> state >= 2 && Strip(src) == p + Pads(state)
  {
    ghost var s := Strip(src);
    PadIsNoSpace();
    NextCharacter(src, i, p);
    PadHasNoValue();
    hide Value, Fits, Strip, Space;
    var j := i + 1;
    ghost var read := p + [PAD];
    if state < 2 {
      Refused(s, |p|, room);
      return false;
    }
    if state == 2 {
      j := SkipSpace(src, j);
      StripHead(src, j);
      if j == |src| || src[j] != PAD {
        Refused(s, |p|, room);
        return false;
      }
      j := j + 1;
      read := read + [PAD];
    }
    assert s == read + Strip(src[j..]);
    j := SkipSpace(src, j);
    StripHead(src, j);
    if j < |src| {
      Refused(s, |p|, room);
      return false;
    }
    assert s == read && read == p + Pads(state);
    return true;
  }

  /** Bits that belong to no octet and are not zero. */
  lemma SlopRefused(t: seq<Byte>, tarindex: nat, state: nat, p: seq<Byte>, q: nat, v: Part, s: seq<Byte>)
    requires Decoding(t, tarindex, state, p, q, v) && state >= 2 && t[tarindex] != 0 && s == p + Pads(state)
    ensures !Fits(s, |t|)
  {
    SlopIs(t, tarindex, state, p, q, v);
    Position(t, tarindex, state, p, q, v);
    PadHasNoValue();
    hide Decoding, Value, Fits;
    assert s[|p|] == PAD && s[|p| - 1] == p[|p| - 1];
    Refused(s, |p|, |t|);
  }

  /** What b64_pton does after the first pad. */
  method AfterPad(src: seq<Byte>, i: nat, target: array<Byte>, tarindex: nat, state: nat,
                  ghost p: seq<Byte>, ghost q: nat, ghost v: Part)
    returns (ok: bool)
    requires i < |src| && src[i] == PAD && p == Strip(src[..i]) && Decoding(target[..], tarindex, state, p, q, v)
    ensures !ok ==> !Fits(Strip(src), target.Length)
    ensures ok ==> tarindex < target.Length && Decodes(Strip(src), target[..][..tarindex])
                   && Need(tarindex) <= target.Length
  {
    Position(target[..], tarindex, state, p, q, v);
    hide *;
    ok := PadsOnly(src, i, state, p, target.Length);
    if !ok {
      return false;
    }
    if target[tarindex] != 0 {
      SlopRefused(target[..], tarindex, state, p, q, v, Strip(src));
      return false;
    }
    EndsPadded(target[..], tarindex, state, p, q, v);
    return true;
  }

  lemma PadIsNoSpace()
    ensures !Space(PAD)
  {
  }

  lemma Position(t: seq<Byte>, tarindex: nat, state: nat, p: seq<Byte>, q: nat, v: Part)
    requires Decoding(t, tarindex, state, p, q, v)
    ensures |p| % 4 == state && state < 4 && (state > 0 ==> tarindex < |t| && p != [])
  {
  }

  /**
   b64_pton, with a target.  It accepts a text exactly when the text without its white space is
   what b64_ntop makes of some octets that can be decoded in the room there is, and then the
   target starts with those octets.
  */
  method B64Pton(src: seq<Byte>, target: array<Byte>) returns (r: int)
    modifies target
    ensures Decoded(src, target.Length, r, target[..])
  {
    ghost var p, q, v;
    var stop, i, tarindex, state;
    stop, i, tarindex, state, p, q, v := DecodeChars(src, target);
    hide *;
    match stop
    case AtFault =>
      Refusal(src, target.Length, target[..]);
      return -1;
    case AtPad =>
      var ok := AfterPad(src, i, target, tarindex, state, p, q, v);
      if !ok {
        Refusal(src, target.Length, target[..]);
        return -1;
      }
      Acceptance(src, tarindex, target[..]);
      return tarindex;
    case AtEnd =>
      assert src[..i] == src;
      Position(target[..], tarindex, state, p, q, v);
      if state != 0 {
        NotWhole(Strip(src), target.Length);
        Refusal(src, target.Length, target[..]);
        return -1;
      }
      EndsWhole(target[..], tarindex, p, q, v);
      Acceptance(src, tarindex, target[..]);
      return tarindex;
  }

  /** The result of b64_pton on a text with this much room. */
  ghost predicate Decoded(src: seq<Byte>, room: nat, r: int, d: seq<Byte>) {
    && (r == -1 <==> !Fits(Strip(src), room))
    && (r != -1 ==> 0 <= r <= |d| && Decodes(Strip(src), d[..r]))
  }

  lemma Refusal(src: seq<Byte>, room: nat, d: seq<Byte>)
    requires !Fits(Strip(src), room)
    ensures Decoded(src, room, -1, d)
  {
  }

  lemma Acceptance(src: seq<Byte>, r: nat, d: seq<Byte>)
    requires r <= |d| && Decodes(Strip(src), d[..r]) && Need(r) <= |d|
    ensures Decoded(src, |d|, r, d)
  {
    hide Decodes, Strip;
    assert |d[..r]| == r;
  }

  lemma {:induction false} CodeHasNoSpace(x: seq<Byte>)
    ensures forall i :: 0 <= i < |Encode64(x)| ==> !Space(Encode64(x)[i])
    decreases |x|
  {
    PadIsNoSpace();
    hide Space;
    if |x| > 3 {
      EncodeMore(x);
      CodeHasNoSpace(x[3..]);
    }
  }

  lemma {:induction false} NothingToStrip(s: seq<Byte>)
    requires forall i :: 0 <= i < |s| ==> !Space(s[i])
    ensures Strip(s) == s
  {
    if s != [] { NothingToStrip(s[..|s| - 1]); }
  }

  /**
   What b64_pton makes of what b64_ntop writes: with one octet to spare the octets come back, for
   every octet string.
  */
  lemma RoundTrip(x: seq<Byte>, room: nat, r: int, d: seq<Byte>)
    requires room > |x| && Decoded(Encode64(x), room, r, d)
    ensures r == |x| && r <= |d| && d[..r] == x
  {
    NeedAtMostOneMore(|x|);
    CodeHasNoSpace(x);
    hide *;
    NothingToStrip(Encode64(x));
    FitsBy(Encode64(x), x, room);
    AcceptedText(Encode64(x), room, r, d);
    EncodeInjective(x, d[..r]);
  }

  lemma NeedAtMostOneMore(n: nat)
    ensures Need(n) <= n + 1
  {
  }

  lemma FitsBy(t: seq<Byte>, x: seq<Byte>, room: nat)
    requires t == Encode64(x) && Need(|x|) <= room
    ensures Fits(t, room)
  {
    hide Encode64;
    assert Decodes(t, x);
  }

  lemma AcceptedText(src: seq<Byte>, room: nat, r: int, d: seq<Byte>)
    requires Decoded(src, room, r, d) && Fits(Strip(src), room)
    ensures 0 <= r <= |d| && Encode64(d[..r]) == Strip(src)
  {
    hide Encode64, Strip, Fits;
  }
}
