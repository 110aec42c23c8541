/**
 The type bitmaps of NSEC and NSEC3 records (section 4.1.2 of RFC 4034) and is_type_set of
 libval/val_assertion.c, which reads them.
*/
module TypeBitmap {
  import opened Names

  /** A block of 256 types with at least one of them; its octets, the first bit of each first. */
  datatype Window = Window(block: Byte, bits: seq<Byte>)

  predicate WellFormed(ws: seq<Window>) {
    && (forall i :: 0 <= i < |ws| ==> 1 <= |ws[i].bits| <= 32)
    && (forall i, j :: 0 <= i < j < |ws| ==> ws[i].block < ws[j].block)
  }

  /** The bitmap on the wire. */
  function Octets(ws: seq<Window>): (f: seq<Byte>)
    requires WellFormed(ws)
  {
    if ws == [] then [] else [ws[0].block, |ws[0].bits|] + ws[0].bits + Octets(ws[1..])
  }

  predicate Bit(b: Byte, k: nat)
    requires k < 8
  {
    b / [128, 64, 32, 16, 8, 4, 2, 1][k] % 2 == 1
  }

  /** The bitmap lists the type. */
  predicate Lists(ws: seq<Window>, t: nat) {
    exists i :: 0 <= i < |ws| && ws[i].block == t / 256 &&
                t % 256 / 8 < |ws[i].bits| && Bit(ws[i].bits[t % 256 / 8], t % 8)
  }

  /** What is_type_set finds from 'cnt' on, after a window for 'block'. */
  function Scan(f: seq<Byte>, t: nat, cnt: nat, block: nat): bool
    decreases |f| - cnt
  {
    if |f| <= cnt + 2 || block > t / 256 then false
    else if f[cnt] == t / 256 then
      f[cnt + 1] > t / 8 && |f| > cnt + 2 + t / 8 && Bit(f[cnt + 2 + t / 8], t % 8)
    else Scan(f, t, cnt + 2 + f[cnt + 1], f[cnt])
  }

  /** is_type_set. */
  method IsTypeSet(field: seq<Byte>, t: nat) returns (set': bool)
    requires t < 0x10000
    ensures set' == (t >= 1 && Scan(field, t, 0, 0))
  {
    hide Bit;
    var tBlock, tByteOffset, tBmOffset := t / 256, t / 8, t % 8;
    if t < 1 {
      return false;
    }
    var cnt, block := 0, 0;
    while |field| > cnt + 2 && block <= tBlock
      invariant 0 <= cnt && 0 <= block && Scan(field, t, 0, 0) == Scan(field, t, cnt, block)
      decreases |field| - cnt
    {
      block := field[cnt];
      var blen: int := field[cnt + 1];
      cnt := cnt + 2;
      if block == tBlock {
        if blen > tByteOffset && |field| > cnt + tByteOffset {
          if Bit(field[cnt + tByteOffset], tBmOffset) {
            return true;
          }
        }
        return false;
      }
      cnt := cnt + blen;
    }
    return false;
  }

  /** A window between other octets. */
  lemma Inside(pre: seq<Byte>, b: Byte, l: Byte, bits: seq<Byte>, rest: seq<Byte>)
    requires l == |bits|
    ensures var f := pre + ([b, l] + bits + rest);
            && |f| == |pre| + 2 + |bits| + |rest| && f[|pre|] == b && f[|pre| + 1] == l
            && (forall i :: 0 <= i < |bits| ==> f[|pre| + 2 + i] == bits[i])
            && f == (pre + ([b, l] + bits)) + rest
  {
  }

  lemma WindowAt(pre: seq<Byte>, ws: seq<Window>)
    requires WellFormed(ws) && ws != []
    ensures WellFormed(ws[1..])
    ensures var f, w := pre + Octets(ws), ws[0];
            && |f| > |pre| + 2 && f[|pre|] == w.block && f[|pre| + 1] == |w.bits|
            && |f| >= |pre| + 2 + |w.bits| && (forall i :: 0 <= i < |w.bits| ==> f[|pre| + 2 + i] == w.bits[i])
            && f == (pre + ([w.block, |w.bits|] + w.bits)) + Octets(ws[1..])
  {
    var w := ws[0];
    assert WellFormed(ws[1..]) by {
      assert forall i :: 0 <= i < |ws[1..]| ==> ws[1..][i] == ws[i + 1];
    }
    assert Octets(ws) == [w.block, |w.bits|] + w.bits + Octets(ws[1..]);
    assert |w.bits| >= 1;
    hide *;
    Inside(pre, w.block, |w.bits|, w.bits, Octets(ws[1..]));
  }

  lemma ListsFirst(ws: seq<Window>, t: nat)
    requires WellFormed(ws) && ws != []
    ensures ws[0].block != t / 256 ==> (Lists(ws, t) <==> Lists(ws[1..], t))
    ensures ws[0].block == t / 256 ==>
              (Lists(ws, t) <==> t % 256 / 8 < |ws[0].bits| && Bit(ws[0].bits[t % 256 / 8], t % 8))
  {
    hide Bit;
    assert forall i :: 0 <= i < |ws[1..]| ==> ws[1..][i] == ws[i + 1];
  }

  lemma LaterBlocks(ws: seq<Window>, t: nat, block: nat)
    requires block > t / 256 && forall i :: 0 <= i < |ws| ==> ws[i].block > block
    ensures !Lists(ws, t) && forall f: seq<Byte>, cnt: nat :: !Scan(f, t, cnt, block)
  {
  }

  /** One step of the scan, at a window that is at or below the one of interest. */
  lemma ScanStep(f: seq<Byte>, t: nat, cnt: nat, block: nat, w: Window)
    requires block <= t / 256 && |f| > cnt + 2 && f[cnt] == w.block && f[cnt + 1] == |w.bits| && |w.bits| <= 32
    requires |f| >= cnt + 2 + |w.bits| && forall i :: 0 <= i < |w.bits| ==> f[cnt + 2 + i] == w.bits[i]
    ensures Scan(f, t, cnt, block) <==>
              if w.block != t / 256 then Scan(f, t, cnt + 2 + |w.bits|, w.block)
              else t < 256 && t % 256 / 8 < |w.bits| && Bit(w.bits[t % 256 / 8], t % 8)
  {
    hide Bit;
  }

  lemma NoWindows(pre: seq<Byte>, t: nat, block: nat)
    ensures !Scan(pre + Octets([]), t, |pre|, block) && !Lists([], t)
  {
    assert pre + Octets([]) == pre;
  }

  /** The scan of a window that is at or below the one of interest, and of the octets after it. */
  lemma ScanFirst(pre: seq<Byte>, ws: seq<Window>, t: nat, block: nat) returns (rest: seq<Byte>)
    requires WellFormed(ws) && ws != [] && block <= t / 256
    ensures WellFormed(ws[1..]) && forall i :: 0 <= i < |ws[1..]| ==> ws[1..][i].block > ws[0].block
    ensures ws[0].block != t / 256 ==>
              && (Scan(pre + Octets(ws), t, |pre|, block)
                  <==> Scan(rest + Octets(ws[1..]), t, |rest|, ws[0].block))
              && (Lists(ws, t) <==> Lists(ws[1..], t))
    ensures ws[0].block == t / 256 ==> (Scan(pre + Octets(ws), t, |pre|, block) <==> t < 256 && Lists(ws, t))
  {
    hide Bit, Octets, Lists, Scan;
    rest := pre + ([ws[0].block, |ws[0].bits|] + ws[0].bits);
    WindowAt(pre, ws);
    ListsFirst(ws, t);
    ScanStep(pre + Octets(ws), t, |pre|, block, ws[0]);
    assert |rest| == |pre| + 2 + |ws[0].bits|;
  }

  /** The scan of a well-formed bitmap, when only windows past 'block' or windows of interest are left. */
  lemma {:induction false} ScanWindows(pre: seq<Byte>, ws: seq<Window>, t: nat, block: nat)
    requires WellFormed(ws) && (block <= t / 256 || forall i :: 0 <= i < |ws| ==> ws[i].block > block)
    ensures Scan(pre + Octets(ws), t, |pre|, block) <==> t < 256 && Lists(ws, t)
    decreases |ws|
  {
    hide *;
    if ws == [] {
      NoWindows(pre, t, block);
    } else if block > t / 256 {
      LaterBlocks(ws, t, block);
    } else {
      var rest := ScanFirst(pre, ws, t, block);
      if ws[0].block != t / 256 {
        ScanWindows(rest, ws[1..], t, ws[0].block);
      }
    }
  }

  /**
   is_type_set on a well-formed bitmap: it finds the listed types below 256 and no others.  For
   higher ones it takes the octet of the window by the number of the type and not by its place in
   the window.
  */
  lemma TypesReported(ws: seq<Window>, t: nat)
    requires WellFormed(ws)
    ensures (t >= 1 && Scan(Octets(ws), t, 0, 0)) <==> 1 <= t < 256 && Lists(ws, t)
  {
    ScanWindows([], ws, t, 0);
    assert [] + Octets(ws) == Octets(ws);
  }

  /** A bitmap that lists type 257, which is_type_set does not find. */
  lemma HighTypeMissed() returns (ws: seq<Window>)
    ensures WellFormed(ws) && Octets(ws) == [1, 1, 64] && Lists(ws, 257) && !Scan(Octets(ws), 257, 0, 0)
  {
    ws := [Window(1, [64])];
    assert ws[0].block == 257 / 256 && Bit(ws[0].bits[257 % 256 / 8], 257 % 8);
    assert ws[1..] == [];
    TypesReported(ws, 257);
  }
}
