/**
 wire_name_length of libsres/res_query.c: the length of a wire-form name, or zero where there
 is no valid name.
*/
module NameLength {
  import opened Names

  method WireNameLength(field: seq<Byte>, pos: nat) returns (r: nat)
    requires IsNameAt(field, pos) || pos + MAXCDNAME <= |field|
    ensures r > 0 <==> IsNameAt(field, pos) && WireLen(NameAt(field, pos)) <= MAXCDNAME
    ensures r > 0 ==> r == WireLen(NameAt(field, pos))
  {
    var j := 0;
    ghost var whole := IsNameAt(field, pos);
    while j < MAXCDNAME && field[pos + j] != 0 && field[pos + j] < 64
      invariant whole || pos + MAXCDNAME <= |field|
      invariant whole || j < MAXCDNAME ==> pos + j < |field|
      invariant j < MAXCDNAME || whole ==> (whole <==> IsNameAt(field, pos + j))
      invariant whole && IsNameAt(field, pos + j) ==>
                  WireLen(NameAt(field, pos)) == j + WireLen(NameAt(field, pos + j))
      invariant !whole ==> !IsNameAt(field, pos)
      decreases MAXCDNAME - j
    {
      if IsNameAt(field, pos + j) { NameAtCons(field, pos + j); }
      j := j + 1 + field[pos + j];
    }
    if j >= MAXCDNAME || field[pos + j] != 0 {
      return 0;
    }
    return j + 1;
  }

  /** On a name that fits, the length is the number of octets of its wire form. */
  lemma LengthOfEncoding(n: Name)
    requires ValidName(n)
    ensures IsNameAt(Encode(n), 0) && NameAt(Encode(n), 0) == n && |Encode(n)| == WireLen(n)
  {
    assert Encode(n)[0..WireLen(n)] == Encode(n);
    NameAtEncode(Encode(n), 0, n);
  }
}
