/**
 The message parser of libsres/ns_parse.c (section 4.1 of RFC 1035): a handle whose cursor
 caches the position of the record last read.
*/
module MsgParser {
  import opened Names
  import opened WireName

  const S_QD := 0
  const S_MAX := 4
  const HEADER := 12
  const NOWHERE := -1

  /** ns_name_ntop on a buffer of NS_MAXDNAME octets; any function will do here. */
  type TextFn = seq<Byte> -> Option<seq<Byte>>

  ghost predicate IsExpansion(w: seq<Byte>) {
    exists m: seq<Byte>, p: nat, hops: nat :: Expand(m, p, hops).Some? && Expand(m, p, hops).value.wire == w
  }

  /** ns_name_ntop reads a name and nothing after it. */
  ghost predicate StopsAtRoot(ntop: TextFn) {
    forall w: seq<Byte>, rest: seq<Byte> {:trigger ntop(w + rest)} :: IsExpansion(w) ==> ntop(w + rest) == ntop(w)
  }

  /** One parsed record; rdata is the offset of its data, absent for questions. */
  datatype Rr = Rr(name: seq<Byte>, rtype: nat, rclass: nat, ttl: nat, rdlength: nat, rdata: Option<nat>)

  function Get16(m: seq<Byte>, p: nat): (v: nat)
    requires p + 2 <= |m|
    ensures v < 0x10000
  {
    m[p] as int * 256 + m[p + 1] as int
  }

  function Get32(m: seq<Byte>, p: nat): (v: nat)
    requires p + 4 <= |m|
  {
    Get16(m, p) * 0x10000 + Get16(m, p + 2)
  }

  // ----- skipping records -----

  /** The octets after the name of one record, given where its name ends. */
  function AfterName(m: seq<Byte>, q: nat, section: nat): (r: Option<nat>)
    ensures r.Some? ==> r.value >= q + 4
  {
    if section == S_QD then Some(q + 4)
    else if q + 10 > |m| then None
    else Some(q + 10 + Get16(m, q + 8))
  }

  /** The position 'count' records on, when they lie inside the message. */
  function SkipRecords(m: seq<Byte>, p: nat, section: nat, count: nat): (q: Option<nat>)
    ensures q.Some? ==> p <= q.value <= |m|
    decreases count
  {
    if count == 0 then if p <= |m| then Some(p) else None
    else
      var q := SkipTo(m, p);
      if q.None? then None else
        var r := AfterName(m, q.value, section);
        if r.None? then None else SkipRecords(m, r.value, section, count - 1)
  }

  /** Skipping a + b records is skipping a and then b. */
  lemma {:induction false} SkipAdditive(m: seq<Byte>, p: nat, section: nat, a: nat, b: nat)
    ensures SkipRecords(m, p, section, a + b) ==
              var q := SkipRecords(m, p, section, a);
              if q.None? then None else SkipRecords(m, q.value, section, b)
    decreases a
  {
    if a == 0 {
      if p > |m| { PastEnd(m, p, section, b); }
    } else if SkipTo(m, p).Some? && AfterName(m, SkipTo(m, p).value, section).Some? {
      SkipAdditive(m, AfterName(m, SkipTo(m, p).value, section).value, section, a - 1, b);
    }
  }

  lemma PastEnd(m: seq<Byte>, p: nat, section: nat, count: nat)
    requires p > |m|
    ensures SkipRecords(m, p, section, count).None?
  {
  }

  /** ns_skiprr: the octets skipped, or -1. */
  method SkipRr(m: seq<Byte>, start: nat, section: nat, count: int) returns (r: int)
    ensures var q := SkipRecords(m, start, section, if count > 0 then count else 0);
            r == if q.Some? then q.value - start else -1
  {
    hide SkipTo;
    var ptr := start;
    var left := count;
    while left > 0
      invariant ptr >= start
      invariant SkipRecords(m, start, section, if count > 0 then count else 0)
                == SkipRecords(m, ptr, section, if left > 0 then left else 0)
    {
      var e := Skip(m, ptr);
      if e < 0 {
        return -1;
      }
      ptr := e + 4;
      if section != S_QD {
        if ptr + 6 > |m| {
          return -1;
        }
        ptr := ptr + 6 + Get16(m, ptr + 4);
      }
      left := left - 1;
    }
    if ptr > |m| {
      return -1;
    }
    return ptr - start;
  }

  // ----- the layout found by ns_initparse -----

  function Count(m: seq<Byte>, section: nat): nat
    requires |m| >= HEADER && section < S_MAX
  {
    Get16(m, 4 + 2 * section)
  }

  /** Where sections i.. start when the octets from 'p' hold exactly them; NOWHERE for an empty section. */
  function Layout(m: seq<Byte>, p: nat, i: nat): (s: Option<seq<int>>)
    requires |m| >= HEADER && i <= S_MAX
    ensures s.Some? ==> |s.value| == S_MAX - i
    decreases S_MAX - i
  {
    if i == S_MAX then (if p == |m| then Some([]) else None)
    else if Count(m, i) == 0 then
      var rest := Layout(m, p, i + 1);
      if rest.None? then None else Some([NOWHERE] + rest.value)
    else
      var q := SkipRecords(m, p, i, Count(m, i));
      if q.None? then None else
        var rest := Layout(m, q.value, i + 1);
        if rest.None? then None else Some([p as int] + rest.value)
  }

  predicate Parses(m: seq<Byte>) {
    |m| >= HEADER && Layout(m, HEADER, 0).Some?
  }

  lemma LayoutStep(m: seq<Byte>, p: nat, i: nat)
    requires |m| >= HEADER && i < S_MAX
    ensures Layout(m, p, i) ==
              if Count(m, i) == 0 then
                (if Layout(m, p, i + 1).None? then None else Some([NOWHERE] + Layout(m, p, i + 1).value))
              else
                var q := SkipRecords(m, p, i, Count(m, i));
                if q.None? || Layout(m, q.value, i + 1).None? then None
                else Some([p as int] + Layout(m, q.value, i + 1).value)
  {
    hide SkipRecords;
  }

  /** 's' is NOWHERE for an empty section, and otherwise the start of all its records. */
  predicate SectionAt(m: seq<Byte>, k: nat, s: int)
    requires |m| >= HEADER && k < S_MAX
  {
    if Count(m, k) == 0 then s == NOWHERE else s >= 0 && SkipRecords(m, s, k, Count(m, k)).Some?
  }

  /** The layout after an empty section. */
  lemma LayoutEmpty(m: seq<Byte>, p: nat, i: nat)
    requires |m| >= HEADER && i < S_MAX && Layout(m, p, i).Some? && Count(m, i) == 0
    ensures Layout(m, p, i + 1).Some? && Layout(m, p, i).value == [NOWHERE] + Layout(m, p, i + 1).value
    ensures SectionAt(m, i, Layout(m, p, i).value[0])
  {
    LayoutStep(m, p, i);
    hide Layout, SkipRecords;
  }

  /** The layout after a section that is not empty. */
  lemma LayoutFull(m: seq<Byte>, p: nat, i: nat)
    requires |m| >= HEADER && i < S_MAX && Layout(m, p, i).Some? && Count(m, i) != 0
    ensures var q := SkipRecords(m, p, i, Count(m, i));
            && q.Some? && Layout(m, q.value, i + 1).Some?
            && Layout(m, p, i).value == [p as int] + Layout(m, q.value, i + 1).value
    ensures SectionAt(m, i, Layout(m, p, i).value[0])
  {
    LayoutStep(m, p, i);
    hide Layout, SkipRecords;
  }

  /** All of a non-empty section lies inside the message. */
  lemma {:induction false} LayoutSection(m: seq<Byte>, p: nat, i: nat, k: nat)
    requires |m| >= HEADER && i <= k < S_MAX && Layout(m, p, i).Some?
    ensures SectionAt(m, k, Layout(m, p, i).value[k - i])
    decreases S_MAX - i
  {
    hide Layout, SkipRecords, SectionAt, Get16;
    if Count(m, i) == 0 {
      LayoutEmpty(m, p, i);
      if k > i { LayoutSection(m, p, i + 1, k); }
    } else {
      LayoutFull(m, p, i);
      if k > i { LayoutSection(m, SkipRecords(m, p, i, Count(m, i)).value, i + 1, k); }
    }
  }

  /** Where record k of a section starts. */
  function Start(m: seq<Byte>, section: nat, k: nat): (p: Option<nat>)
    requires Parses(m) && section < S_MAX
  {
    var s := Layout(m, HEADER, 0).value[section];
    if s < 0 then None else SkipRecords(m, s, section, k)
  }

  // ----- reading one record -----

  /** dn_expand: the text of the name at 'p', the root as the empty string. */
  function NameText(ntop: TextFn, m: seq<Byte>, p: nat): (t: Option<seq<Byte>>)
    ensures t.Some? ==> Accepts(m, p, MAXCDNAME)
  {
    if !Accepts(m, p, MAXCDNAME) then None else
      var t := ntop(Expand(m, p, |m|).value.wire);
      if t.None? then None else Some(if t.value != [] && t.value[0] == 0x2e then [] else t.value)
  }

  /** The record at 'p', whose name ends at 'q'. */
  function RecordAt(m: seq<Byte>, name: seq<Byte>, q: nat, section: nat): Rr
    requires q + 4 <= |m|
    requires section != S_QD ==> q + 10 <= |m|
  {
    if section == S_QD then Rr(name, Get16(m, q), Get16(m, q + 2), 0, 0, None)
    else Rr(name, Get16(m, q), Get16(m, q + 2), Get32(m, q + 4), Get16(m, q + 8), Some(q + 10))
  }

  /** The fields after a name that ends at 'q' lie inside the message. */
  predicate FieldsInside(m: seq<Byte>, q: nat, section: nat) {
    && q + 4 <= |m|
    && (section != S_QD ==> q + 10 <= |m| && q + 10 + Get16(m, q + 8) <= |m|)
  }

  function RecordEnd(m: seq<Byte>, q: nat, section: nat): nat
    requires FieldsInside(m, q, section)
  {
    if section == S_QD then q + 4 else q + 10 + Get16(m, q + 8)
  }

  /** A record inside a section has all its fields inside the message. */
  lemma RecordFits(m: seq<Byte>, p: nat, section: nat, k: nat, count: nat)
    requires k < count && SkipRecords(m, p, section, count).Some?
    ensures SkipRecords(m, p, section, k).Some?
    ensures SkipTo(m, SkipRecords(m, p, section, k).value).Some?
    ensures var q := SkipTo(m, SkipRecords(m, p, section, k).value).value;
            FieldsInside(m, q, section) && SkipRecords(m, p, section, k + 1) == Some(RecordEnd(m, q, section))
  {
    SkipAdditive(m, p, section, k + 1, count - k - 1);
    SkipAdditive(m, p, section, k, 1);
    hide *;
    OneRecord(m, SkipRecords(m, p, section, k).value, section);
  }

  lemma OneRecord(m: seq<Byte>, s: nat, section: nat)
    requires SkipRecords(m, s, section, 1).Some?
    ensures SkipTo(m, s).Some?
    ensures var q := SkipTo(m, s).value;
            FieldsInside(m, q, section) && SkipRecords(m, s, section, 1) == Some(RecordEnd(m, q, section))
  {
    hide SkipTo;
    var r := AfterName(m, SkipTo(m, s).value, section);
    assert SkipRecords(m, r.value, section, 0).Some?;
  }

  /** Record k of a section of a message that parses; none when its name cannot be expanded. */
  function Fetch(ntop: TextFn, m: seq<Byte>, section: nat, k: nat): (rr: Option<Rr>)
    requires Parses(m) && section < S_MAX && k < Count(m, section)
  {
    LayoutSection(m, HEADER, 0, section);
    var s := Layout(m, HEADER, 0).value[section];
    RecordFits(m, s, section, k, Count(m, section));
    var p := SkipRecords(m, s, section, k).value;
    var name := NameText(ntop, m, p);
    if name.None? then None else Some(RecordAt(m, name.value, SkipTo(m, p).value, section))
  }

  /** The octets behind the fields of a record that is fetched, the highest octet of each first. */
  lemma FetchedFields(ntop: TextFn, m: seq<Byte>, section: nat, k: nat) returns (p: nat, q: nat)
    requires Parses(m) && section < S_MAX && k < Count(m, section) && Fetch(ntop, m, section, k).Some?
    ensures Start(m, section, k) == Some(p) && SkipTo(m, p) == Some(q) && q + 4 <= |m|
    ensures var rr := Fetch(ntop, m, section, k).value;
            && NameText(ntop, m, p) == Some(rr.name)
            && rr.rtype == m[q] as int * 256 + m[q + 1] as int && rr.rclass == m[q + 2] as int * 256 + m[q + 3] as int
            && (section == 0 ==> rr.ttl == 0 && rr.rdlength == 0 && rr.rdata == None)
    ensures section > 0 ==>
              var rr := Fetch(ntop, m, section, k).value;
              q + 10 + rr.rdlength <= |m| && rr.rdata == Some(q + 10)
              && rr.ttl == ((m[q + 4] as int * 256 + m[q + 5] as int) * 256 + m[q + 6] as int) * 256 + m[q + 7] as int
              && rr.rdlength == m[q + 8] as int * 256 + m[q + 9] as int
  {
    hide Layout, SkipRecords, SkipTo, NameText;
    LayoutSection(m, HEADER, 0, section);
    var s := Layout(m, HEADER, 0).value[section];
    RecordFits(m, s, section, k, Count(m, section));
    p := SkipRecords(m, s, section, k).value;
    q := SkipTo(m, p).value;
  }

  // ----- the handle -----

  class Handle {
    const ntop: TextFn
    var msg: seq<Byte>
    var id: nat
    var flags: nat
    var counts: seq<nat>
    var sections: seq<int>
    var sect: nat
    var rrnum: int
    var ptr: int

    constructor (ntop: TextFn)
      requires StopsAtRoot(ntop)
      ensures this.ntop == ntop
    {
      this.ntop := ntop;
      msg, counts, sections, id, flags, sect, rrnum, ptr := [], [], [], 0, 0, 0, 0, 0;
    }

    /** The header and the section starts are those of the message. */
    ghost predicate Initialised()
      reads this
    {
      && StopsAtRoot(ntop) && Parses(msg)
      && |counts| == S_MAX && (forall i :: 0 <= i < S_MAX ==> counts[i] == Count(msg, i))
      && sections == Layout(msg, HEADER, 0).value
    }

    /** The cursor is a faithful cache: it stands at record 'rrnum' of its section. */
    ghost predicate Valid()
      reads this
    {
      && Initialised()
      && sect <= S_MAX
      && (sect == S_MAX ==> rrnum == -1 && ptr == NOWHERE)
      && (sect < S_MAX ==>
            && 0 <= rrnum <= counts[sect]
            && if counts[sect] == 0 then ptr == NOWHERE
               else ptr >= 0 && Start(msg, sect, rrnum) == Some(ptr))
    }

    method SetSection(s: nat)
      requires Initialised() && s <= S_MAX
      modifies this`sect, this`rrnum, this`ptr
      ensures Valid() && sect == s && rrnum == if s == S_MAX then -1 else 0
    {
      hide SkipTo;
      sect := s;
      if s == S_MAX {
        rrnum, ptr := -1, NOWHERE;
      } else {
        LayoutSection(msg, HEADER, 0, s);
        rrnum, ptr := 0, sections[s];
        if counts[s] != 0 {
          SkipAdditive(msg, sections[s], s, 0, counts[s]);
        }
      }
    }

    /** ns_initparse: 0, or -1 when the octets are not exactly one message. */
    method InitParse(m: seq<Byte>) returns (rc: int)
      requires StopsAtRoot(ntop)
      modifies this
      ensures rc == if Parses(m) then 0 else -1
      ensures rc == 0 ==> msg == m && Valid() && sect == S_MAX && id == Get16(m, 0) && flags == Get16(m, 2)
    {
      hide SkipRecords, Layout;
      if |m| == 0 {
        return -1;
      }
      msg := m;
      if |m| < 2 { return -1; }
      id := Get16(m, 0);
      if |m| < 4 { return -1; }
      flags := Get16(m, 2);
      counts := [];
      var i := 0;
      while i < S_MAX
        invariant 0 <= i <= S_MAX && |counts| == i && msg == m && |m| >= 4 + 2 * i
        invariant id == Get16(m, 0) && flags == Get16(m, 2)
        invariant forall k :: 0 <= k < i ==> counts[k] == Get16(m, 4 + 2 * k)
      {
        if 4 + 2 * i + 2 > |m| { return -1; }
        counts := counts + [Get16(m, 4 + 2 * i)];
        i := i + 1;
      }
      sections := [];
      var p := HEADER;
      i := 0;
      while i < S_MAX
        invariant 0 <= i <= S_MAX && |sections| == i && msg == m && |m| >= HEADER && p >= HEADER
        invariant id == Get16(m, 0) && flags == Get16(m, 2)
        invariant |counts| == S_MAX && forall k :: 0 <= k < S_MAX ==> counts[k] == Count(m, k)
        invariant Layout(m, HEADER, 0).Some? <==> Layout(m, p, i).Some?
        invariant Layout(m, HEADER, 0).Some? ==> Layout(m, HEADER, 0).value == sections + Layout(m, p, i).value
      {
        LayoutStep(m, p, i);
        if counts[i] == 0 {
          sections := sections + [NOWHERE];
        } else {
          var b := SkipRr(m, p, i, counts[i]);
          if b < 0 {
            return -1;
          }
          sections := sections + [p];
          p := p + b;
        }
        i := i + 1;
      }
      LayoutEnd(m, p);
      if p != |m| {
        return -1;
      }
      SetSection(S_MAX);
      return 0;
    }

    /** ns_parserr: 0 with the record, or -1; rrnum -1 means the record at the cursor. */
    method ParseRr(section: int, which: int) returns (rc: int, rr: Option<Rr>)
      requires Valid()
      modifies this`sect, this`rrnum, this`ptr
      ensures Valid() && (rc == 0 <==> rr.Some?) && (rr.None? ==> rc == -1)
      ensures !(0 <= section < S_MAX) ==> rr == None && sect == old(sect) && rrnum == old(rrnum)
      ensures 0 <= section < S_MAX ==>
                var at := if section == old(sect) then old(rrnum) else 0;
                var k := if which == -1 then at else which;
                && sect == section
                && if !(0 <= k < counts[section]) then rr == None && rrnum == at
                   else rr == Fetch(ntop, msg, section, k) && rrnum == if rr.None? then k else k + 1
    {
      hide Layout, SkipRecords, SkipTo, Expand, Accepts, SegmentLen;
      rr := None;
      if section < 0 || section >= S_MAX {
        return -1, None;
      }
      if section != sect {
        SetSection(section);
      }
      var num := which;
      if num == -1 {
        num := rrnum;
      }
      if num < 0 || num >= counts[section] {
        return -1, None;
      }
      if num < rrnum {
        SetSection(section);
      }
      MoveTo(num);
      rc, rr := ReadHere();
    }

    /** Moves the cursor forward to record 'num'. */
    method MoveTo(num: nat)
      requires Valid() && sect < S_MAX && rrnum <= num < counts[sect]
      modifies this`rrnum, this`ptr
      ensures Valid() && rrnum == num
    {
      hide Layout, SkipRecords, SkipTo;
      if num > rrnum {
        LayoutSection(msg, HEADER, 0, sect);
        SkipAdditive(msg, sections[sect], sect, rrnum, num - rrnum);
        RecordFits(msg, sections[sect], sect, num, counts[sect]);
        var b := SkipRr(msg, ptr, sect, num - rrnum);
        ptr := ptr + b;
        rrnum := num;
      }
    }

    /** Parses the record at the cursor and steps past it. */
    method ReadHere() returns (rc: int, rr: Option<Rr>)
      requires Valid() && sect < S_MAX && rrnum < counts[sect]
      modifies this`sect, this`rrnum, this`ptr
      ensures Valid() && sect == old(sect) && (rc == 0 <==> rr.Some?) && (rr.None? ==> rc == -1)
      ensures rr == Fetch(ntop, msg, sect, old(rrnum))
      ensures rrnum == if rr.None? then old(rrnum) else old(rrnum) + 1
    {
      hide Layout, SkipRecords, SkipTo, Expand, Accepts, SegmentLen;
      LayoutSection(msg, HEADER, 0, sect);
      RecordFits(msg, sections[sect], sect, rrnum, counts[sect]);
      var b, name := DnExpand(ntop, msg, ptr);
      if b < 0 {
        return -1, None;
      }
      ptr := ptr + b;
      if ptr + 4 > |msg| {
        // the whole section was skipped over when the message was first parsed
        assert false;
      }
      var rtype, rclass := Get16(msg, ptr), Get16(msg, ptr + 2);
      ptr := ptr + 4;
      if sect == S_QD {
        rr := Some(Rr(name, rtype, rclass, 0, 0, None));
      } else {
        if ptr + 6 > |msg| {
          assert false;
        }
        var ttl, rdlength := Get32(msg, ptr), Get16(msg, ptr + 4);
        ptr := ptr + 6;
        if ptr + rdlength > |msg| {
          assert false;
        }
        rr := Some(Rr(name, rtype, rclass, ttl, rdlength, Some(ptr)));
        ptr := ptr + rdlength;
      }
      rrnum := rrnum + 1;
      if rrnum > counts[sect] {
        assert false;
      }
      rc := 0;
    }
  }

  /** ns_name_uncompress and dn_expand: the octets consumed, or -1, and the text. */
  method DnExpand(ntop: TextFn, m: seq<Byte>, p: nat) returns (n: int, text: seq<Byte>)
    requires StopsAtRoot(ntop)
    ensures n >= 0 <==> NameText(ntop, m, p).Some?
    ensures n >= 0 ==> text == NameText(ntop, m, p).value && SkipTo(m, p) == Some(p + n)
    ensures n >= -1
  {
    hide SkipTo, Expand, SegmentLen;
    text := [];
    var tmp := new Byte[MAXCDNAME](k => 0);
    n := Unpack(m, p, tmp);
    if n < 0 {
      return -1, [];
    }
    UnpackAgreesWithSkip(m, p, |m|);
    ghost var e := Expand(m, p, |m|).value;
    assert tmp[..] == e.wire + tmp[|e.wire|..];
    assert IsExpansion(e.wire);
    var t := ntop(tmp[..]);
    if t.None? {
      return -1, [];
    }
    text := t.value;
    if n > 0 && text != [] && text[0] == 0x2e {
      text := [];
    }
  }

  lemma LayoutEnd(m: seq<Byte>, p: nat)
    requires |m| >= HEADER
    ensures Layout(m, p, S_MAX) == if p == |m| then Some([]) else None
  {
  }
}
