/**
 Whole messages, octet by octet as section 4.1 of RFC 1035 lays them out, put to the parser of
 libsres/ns_parse.c; and the queries of libsres/res_mkquery.c and res_tsig.c as such messages.
*/
module Message {
  import opened Names
  import opened WireName
  import opened MsgParser
  import Builder
  import Text

  /** A resource record; of a question, which is in the first section, only name, type and class count. */
  datatype Fields = Fields(name: Name, rtype: nat, rclass: nat, ttl: nat, data: seq<Byte>)

  predicate ValidFields(r: Fields) {
    ValidName(r.name) && r.rtype < 0x10000 && r.rclass < 0x10000 && r.ttl < 0x100000000 && |r.data| < 0x10000
  }

  type Record = r: Fields | ValidFields(r) witness Fields([], 0, 0, 0, [])

  /** Type, class, time to live and data length, the highest octet first. */
  function Fixed(r: Record): (o: seq<Byte>)
    ensures |o| == 10
  {
    [r.rtype / 256, r.rtype % 256, r.rclass / 256, r.rclass % 256,
     r.ttl / 0x1000000, r.ttl / 0x10000 % 256, r.ttl / 256 % 256, r.ttl % 256, |r.data| / 256, |r.data| % 256]
  }

  function RecordOctets(r: Record, section: nat): seq<Byte>
  {
    if section == 0 then Encode(r.name) + Fixed(r)[..4] else Encode(r.name) + Fixed(r) + r.data
  }

  function SectionOctets(rs: seq<Record>, section: nat): seq<Byte>
  {
    if rs == [] then [] else RecordOctets(rs[0], section) + SectionOctets(rs[1..], section)
  }

  /** A message: identifier, flags, and the records of its four sections. */
  datatype Content = Content(id: nat, flags: nat, sections: seq<seq<Record>>)

  predicate ValidContent(c: Content) {
    && c.id < 0x10000 && c.flags < 0x10000 && |c.sections| == 4
    && forall i :: 0 <= i < 4 ==> |c.sections[i]| < 0x10000
  }

  function HeaderOctets(c: Content): (o: seq<Byte>)
    requires ValidContent(c)
    ensures |o| == 12
  {
    [c.id / 256, c.id % 256, c.flags / 256, c.flags % 256,
     |c.sections[0]| / 256, |c.sections[0]| % 256, |c.sections[1]| / 256, |c.sections[1]| % 256,
     |c.sections[2]| / 256, |c.sections[2]| % 256, |c.sections[3]| / 256, |c.sections[3]| % 256]
  }

  /** The octets of sections 'i' and later. */
  function Body(c: Content, i: nat): seq<Byte>
    requires ValidContent(c) && i <= 4
    decreases 4 - i
  {
    if i == 4 then [] else SectionOctets(c.sections[i], i) + Body(c, i + 1)
  }

  function Octets(c: Content): seq<Byte>
    requires ValidContent(c)
  {
    HeaderOctets(c) + Body(c, 0)
  }

  // ----- reading it back -----

  /** The octets of 'part' lie in the message from 'p' on. */
  predicate LiesAt(m: seq<Byte>, p: nat, part: seq<Byte>) {
    p + |part| <= |m| && m[p..p + |part|] == part
  }

  lemma {:induction false} LiesParts(m: seq<Byte>, p: nat, a: seq<Byte>, b: seq<Byte>)
    ensures LiesAt(m, p, a + b) <==> LiesAt(m, p, a) && LiesAt(m, p + |a|, b)
  {
    var i, j := p + |a|, p + |a| + |b|;
    if j <= |m| {
      assert m[p..j] == m[p..i] + m[i..j];
      assert m[p..j][..|a|] == m[p..i] && m[p..j][|a|..] == m[i..j];
      assert (a + b)[..|a|] == a && (a + b)[|a|..] == b;
    }
  }

  lemma {:induction false} OctetAt(m: seq<Byte>, p: nat, part: seq<Byte>, i: nat)
    requires LiesAt(m, p, part) && i < |part|
    ensures p + i < |m| && m[p + i] == part[i]
  {
    assert m[p..p + |part|][i] == m[p + i];
  }

  /** The fields after the name of a record. */
  lemma {:induction false} FieldsRead(m: seq<Byte>, q: nat, r: Record)
    ensures LiesAt(m, q, Fixed(r)[..4]) ==> q + 4 <= |m| && Get16(m, q) == r.rtype && Get16(m, q + 2) == r.rclass
    ensures LiesAt(m, q, Fixed(r)) ==>
              q + 10 <= |m| && Get16(m, q) == r.rtype && Get16(m, q + 2) == r.rclass
              && Get32(m, q + 4) == r.ttl && Get16(m, q + 8) == |r.data|
  {
    var f := Fixed(r);
    if LiesAt(m, q, f[..4]) {
      forall i | 0 <= i < 4 ensures m[q + i] == f[i] { OctetAt(m, q, f[..4], i); }
      assert m[q] == f[0] && m[q + 1] == f[1] && m[q + 2] == f[2] && m[q + 3] == f[3];
    }
    if LiesAt(m, q, f) {
      forall i | 0 <= i < 10 ensures m[q + i] == f[i] { OctetAt(m, q, f, i); }
      FourOctets(r.ttl);
    }
  }

  lemma {:induction false} FourOctets(v: nat)
    requires v < 0x100000000
    ensures ((v / 0x1000000) * 256 + v / 0x10000 % 256) * 0x10000 + (v / 256 % 256) * 256 + v % 256 == v
  {
  }

  /** What the parser gives for a record whose name has this text and whose data start at 'at'. */
  function Parsed(r: Record, section: nat, text: seq<Byte>, at: nat): Rr {
    if section == 0 then Rr(text, r.rtype, r.rclass, 0, 0, None)
    else Rr(text, r.rtype, r.rclass, r.ttl, |r.data|, Some(at))
  }

  /** The parts of a record that lies in the message. */
  lemma {:induction false} RecordParts(m: seq<Byte>, p: nat, r: Record, section: nat)
    requires LiesAt(m, p, RecordOctets(r, section))
    ensures ValidName(r.name) && LiesAt(m, p, Encode(r.name)) && |Encode(r.name)| == WireLen(r.name)
    ensures var q := p + WireLen(r.name);
            if section == 0 then LiesAt(m, q, Fixed(r)[..4]) && |RecordOctets(r, section)| == WireLen(r.name) + 4
            else LiesAt(m, q, Fixed(r)) && LiesAt(m, q + 10, r.data)
                 && |RecordOctets(r, section)| == WireLen(r.name) + 10 + |r.data|
  {
    var e, f, d := Encode(r.name), Fixed(r), r.data;
    if section == 0 {
      assert RecordOctets(r, section) == e + f[..4];
      hide *;
      LiesParts(m, p, e, f[..4]);
    } else {
      assert RecordOctets(r, section) == e + f + d;
      hide *;
      LiesParts(m, p, e + f, d);
      LiesParts(m, p, e, f);
    }
  }

  /** What the fields are read as, and where they end. */
  lemma {:induction false} RecordFields(m: seq<Byte>, q: nat, r: Record, section: nat, text: seq<Byte>)
    requires if section == 0 then LiesAt(m, q, Fixed(r)[..4]) else LiesAt(m, q, Fixed(r)) && LiesAt(m, q + 10, r.data)
    ensures FieldsInside(m, q, section) && RecordAt(m, text, q, section) == Parsed(r, section, text, q + 10)
    ensures RecordEnd(m, q, section) == if section == 0 then q + 4 else q + 10 + |r.data|
  {
    FieldsRead(m, q, r);
    hide Fixed, Get16, Get32;
  }

  /** A record is skipped over. */
  lemma {:induction false} RecordSkipped(m: seq<Byte>, p: nat, r: Record, section: nat)
    requires LiesAt(m, p, RecordOctets(r, section))
    ensures SkipRecords(m, p, section, 1) == Some(p + |RecordOctets(r, section)|)
  {
    hide *;
    RecordParts(m, p, r, section);
    var q := p + WireLen(r.name);
    NameReads(m, p, r.name);
    RecordFields(m, q, r, section, []);
    SkipsOne(m, p, q, section);
  }

  lemma {:induction false} NameReads(m: seq<Byte>, p: nat, n: Name)
    requires ValidName(n) && LiesAt(m, p, Encode(n))
    ensures SkipTo(m, p) == Some(p + WireLen(n)) && Expand(m, p, |m|) == Some(Expansion(Encode(n), 0))
    ensures Accepts(m, p, 255)
  {
    hide Encode, Expand, SkipTo;
    Builder.NameReadsAt(m, p, n);
  }

  lemma {:induction false} SkipsOne(m: seq<Byte>, p: nat, q: nat, section: nat)
    requires SkipTo(m, p) == Some(q) && FieldsInside(m, q, section)
    ensures SkipRecords(m, p, section, 1) == Some(RecordEnd(m, q, section))
  {
    hide SkipTo;
    assert AfterName(m, q, section) == Some(RecordEnd(m, q, section));
    Builder.SkipUnfold(m, p, q, section, RecordEnd(m, q, section));
  }

  lemma {:induction false} SkipsMore(m: seq<Byte>, p: nat, q: nat, section: nat, n: nat)
    requires SkipRecords(m, p, section, 1) == Some(q)
    ensures SkipRecords(m, p, section, n + 1) == SkipRecords(m, q, section, n)
  {
    SkipAdditive(m, p, section, 1, n);
    hide SkipRecords;
  }

  /** A section that lies in the message starts with its first record. */
  lemma {:induction false} SectionFirst(m: seq<Byte>, p: nat, rs: seq<Record>, section: nat)
    requires rs != [] && LiesAt(m, p, SectionOctets(rs, section))
    ensures |SectionOctets(rs, section)| == |RecordOctets(rs[0], section)| + |SectionOctets(rs[1..], section)|
    ensures LiesAt(m, p, RecordOctets(rs[0], section))
    ensures LiesAt(m, p + |RecordOctets(rs[0], section)|, SectionOctets(rs[1..], section))
  {
    var one, rest := RecordOctets(rs[0], section), SectionOctets(rs[1..], section);
    assert SectionOctets(rs, section) == one + rest;
    hide *;
    LiesParts(m, p, one, rest);
  }

  lemma {:induction false} LiesInside(m: seq<Byte>, p: nat, part: seq<Byte>)
    requires LiesAt(m, p, part)
    ensures p + |part| <= |m|
  {
  }

  /** All records of a section are skipped over. */
  lemma {:induction false} SectionSkipped(m: seq<Byte>, p: nat, rs: seq<Record>, section: nat)
    requires LiesAt(m, p, SectionOctets(rs, section))
    ensures SkipRecords(m, p, section, |rs|) == Some(p + |SectionOctets(rs, section)|)
    decreases |rs|
  {
    hide *;
    LiesInside(m, p, SectionOctets(rs, section));
    if rs == [] {
      NoneLeft(m, p, section);
    } else {
      SectionFirst(m, p, rs, section);
      var q := p + |RecordOctets(rs[0], section)|;
      RecordSkipped(m, p, rs[0], section);
      SectionSkipped(m, q, rs[1..], section);
      SkipsMore(m, p, q, section, |rs[1..]|);
    }
  }

  lemma {:induction false} NoneLeft(m: seq<Byte>, p: nat, section: nat)
    requires p <= |m|
    ensures SkipRecords(m, p, section, 0) == Some(p) && SectionOctets([], section) == []
  {
  }

  lemma {:induction false} SectionSplit(rs: seq<Record>, section: nat, k: nat)
    requires k <= |rs|
    ensures SectionOctets(rs, section) == SectionOctets(rs[..k], section) + SectionOctets(rs[k..], section)
  {
    hide RecordOctets;
    if k == 0 {
      assert rs[..0] == [] && rs[0..] == rs;
    } else {
      SectionSplit(rs[1..], section, k - 1);
      assert rs[..k][0] == rs[0] && rs[..k][1..] == rs[1..][..k - 1] && rs[k..] == rs[1..][k - 1..];
      var b, c := SectionOctets(rs[..k][1..], section), SectionOctets(rs[k..], section);
      assert RecordOctets(rs[0], section) + (b + c) == RecordOctets(rs[0], section) + b + c;
    }
  }

  /** Record 'k' of a section lies where the records before it end. */
  lemma {:induction false} RecordLies(m: seq<Byte>, p: nat, rs: seq<Record>, section: nat, k: nat)
    requires k < |rs| && LiesAt(m, p, SectionOctets(rs, section))
    ensures SkipRecords(m, p, section, k) == Some(p + |SectionOctets(rs[..k], section)|)
    ensures LiesAt(m, p + |SectionOctets(rs[..k], section)|, RecordOctets(rs[k], section))
  {
    hide *;
    SectionSplit(rs, section, k);
    LiesParts(m, p, SectionOctets(rs[..k], section), SectionOctets(rs[k..], section));
    SectionFirst(m, p + |SectionOctets(rs[..k], section)|, rs[k..], section);
    SectionSkipped(m, p, rs[..k], section);
  }

  /** Where section 'i' starts. */
  function SectionStart(c: Content, i: nat): nat
    requires ValidContent(c) && i <= 4
  {
    if i == 0 then 12 else SectionStart(c, i - 1) + |SectionOctets(c.sections[i - 1], i - 1)|
  }

  lemma {:induction false} CountsRead(c: Content)
    requires ValidContent(c)
    ensures var m := Octets(c);
            |m| >= 12 && Get16(m, 0) == c.id && Get16(m, 2) == c.flags
            && forall i :: 0 <= i < 4 ==> Count(m, i) == |c.sections[i]|
  {
    hide Body;
    var m, h := Octets(c), HeaderOctets(c);
    assert forall i :: 0 <= i < 12 ==> m[i] == h[i];
    forall i | 0 <= i < 4 ensures Count(m, i) == |c.sections[i]| {
      assert i == 0 || i == 1 || i == 2 || i == 3;
    }
  }

  /** The sections from 'i' on are the end of the message. */
  predicate BodyAt(c: Content, i: nat)
    requires ValidContent(c) && i <= 4
  {
    LiesAt(Octets(c), SectionStart(c, i), Body(c, i)) && SectionStart(c, i) + |Body(c, i)| == |Octets(c)|
  }

  lemma {:induction false} BodyStart(c: Content)
    requires ValidContent(c)
    ensures BodyAt(c, 0)
  {
    hide Body;
    assert Octets(c)[12..12 + |Body(c, 0)|] == Body(c, 0);
  }

  lemma {:induction false} BodyNext(c: Content, i: nat)
    requires ValidContent(c) && i < 4 && BodyAt(c, i)
    ensures BodyAt(c, i + 1) && LiesAt(Octets(c), SectionStart(c, i), SectionOctets(c.sections[i], i))
  {
    hide Octets, SectionOctets, Body, SectionStart, LiesAt, ValidContent;
    BodyFirst(c, i);
    LiesParts(Octets(c), SectionStart(c, i), SectionOctets(c.sections[i], i), Body(c, i + 1));
  }

  lemma {:induction false} BodyLies(c: Content, i: nat, s: nat)
    requires ValidContent(c) && i <= s <= 4 && BodyAt(c, i)
    ensures BodyAt(c, s)
    decreases s - i
  {
    hide *;
    if i < s {
      BodyNext(c, i);
      BodyLies(c, i + 1, s);
    }
  }

  lemma {:induction false} BodyFirst(c: Content, i: nat)
    requires ValidContent(c) && i < 4
    ensures |c.sections| == 4
    ensures Body(c, i) == SectionOctets(c.sections[i], i) + Body(c, i + 1)
    ensures SectionStart(c, i + 1) == SectionStart(c, i) + |SectionOctets(c.sections[i], i)|
  {
    hide SectionOctets;
  }

  lemma {:induction false} ContentShape(c: Content)
    requires ValidContent(c)
    ensures |c.sections| == 4 && forall i :: 0 <= i < 4 ==> |c.sections[i]| < 0x10000
    ensures SectionStart(c, 0) == 12
  {
  }

  lemma {:induction false} SectionLies(c: Content, i: nat)
    requires ValidContent(c) && i < 4
    ensures LiesAt(Octets(c), SectionStart(c, i), SectionOctets(c.sections[i], i))
    ensures SkipRecords(Octets(c), SectionStart(c, i), i, |c.sections[i]|) == Some(SectionStart(c, i + 1))
  {
    hide *;
    ContentShape(c);
    BodyStart(c);
    BodyLies(c, 0, i);
    BodyNext(c, i);
    BodyFirst(c, i);
    SectionSkipped(Octets(c), SectionStart(c, i), c.sections[i], i);
  }

  lemma {:induction false} EmptySection(c: Content, i: nat)
    requires ValidContent(c) && i < 4 && |c.sections[i]| == 0
    ensures SectionStart(c, i + 1) == SectionStart(c, i)
  {
    assert c.sections[i] == [];
  }

  /** The start of a section as the parser keeps it. */
  function Kept(c: Content, k: nat): int
    requires ValidContent(c) && k < 4
  {
    if |c.sections[k]| == 0 then -1 else SectionStart(c, k)
  }

  lemma {:induction false} LayoutReads(c: Content, i: nat)
    requires ValidContent(c) && i <= 4 && |Octets(c)| >= 12
    ensures var l := Layout(Octets(c), SectionStart(c, i), i);
            l.Some? && forall k :: i <= k < 4 ==> l.value[k - i] == Kept(c, k)
    decreases 4 - i
  {
    hide *;
    if i == 4 {
      LayoutAtEnd(c);
    } else {
      LayoutReads(c, i + 1);
      LayoutMore(c, i);
    }
  }

  lemma {:induction false} LayoutAtEnd(c: Content)
    requires ValidContent(c) && |Octets(c)| >= 12
    ensures Layout(Octets(c), SectionStart(c, 4), 4) == Some([])
  {
    hide Octets, SectionStart, LiesAt, ValidContent, Layout;
    BodyStart(c);
    BodyLies(c, 0, 4);
    assert Body(c, 4) == [];
    LayoutEnd(Octets(c), SectionStart(c, 4));
  }

  lemma {:induction false} LayoutMore(c: Content, i: nat)
    requires ValidContent(c) && i < 4 && |Octets(c)| >= 12 && Layout(Octets(c), SectionStart(c, i + 1), i + 1).Some?
    ensures Layout(Octets(c), SectionStart(c, i), i) ==
              Some([Kept(c, i)] + Layout(Octets(c), SectionStart(c, i + 1), i + 1).value)
  {
    hide Layout, SkipRecords, Octets, SectionStart, Get16, ValidContent, LiesAt;
    ContentShape(c);
    CountsRead(c);
    LayoutStep(Octets(c), SectionStart(c, i), i);
    SectionLies(c, i);
    if |c.sections[i]| == 0 { EmptySection(c, i); }
  }

  /**
   Write and read: the octets of any message are accepted by the parser, with its identifier, flags
   and counts, and each record of each section is given back with its name, type, class, time to
   live and data.
  */
  lemma {:induction false} WriteRead(ntop: TextFn, c: Content, s: nat, k: nat)
    requires ValidContent(c) && s < 4 && k < |c.sections[s]| && ntop(Encode(c.sections[s][k].name)).Some?
    ensures var m := Octets(c);
            && Parses(m) && Get16(m, 0) == c.id && Get16(m, 2) == c.flags
            && (forall i :: 0 <= i < 4 ==> Count(m, i) == |c.sections[i]|)
            && var r := c.sections[s][k];
               var text := TextOf(ntop(Encode(r.name)).value);
               if s == 0 then Fetch(ntop, m, s, k) == Some(Rr(text, r.rtype, r.rclass, 0, 0, None))
               else exists at :: Fetch(ntop, m, s, k) == Some(Rr(text, r.rtype, r.rclass, r.ttl, |r.data|, Some(at)))
                                 && LiesAt(m, at, r.data)
  {
    hide Octets, SectionOctets, RecordOctets, SkipRecords, Layout, Get16, Encode, Expand, Accepts, SkipTo, ValidContent,
         LiesAt, Fetch, SectionStart, ValidName, Count;
    ContentShape(c);
    CountsRead(c);
    LayoutReads(c, 0);
    assert Kept(c, s) == SectionStart(c, s);
    SectionLies(c, s);
    RecordLies(Octets(c), SectionStart(c, s), c.sections[s], s, k);
    var r, at := c.sections[s][k], SectionStart(c, s) + |SectionOctets(c.sections[s][..k], s)|;
    RecordParts(Octets(c), at, r, s);
    LabelsOfName(r.name);
    NameTextReads(ntop, Octets(c), at, r.name);
    FetchReads(ntop, Octets(c), s, k, SectionStart(c, s), at, r, TextOf(ntop(Encode(r.name)).value));
  }

  lemma {:induction false} LabelsOfName(n: Name)
    requires ValidName(n)
    ensures ValidLabels(n)
  {
  }

  /** The text of an uncompressed name. */
  lemma {:induction false} NameTextReads(ntop: TextFn, m: seq<Byte>, p: nat, n: Name)
    requires ValidName(n) && ValidLabels(n) && LiesAt(m, p, Encode(n)) && ntop(Encode(n)).Some?
    ensures NameText(ntop, m, p) == Some(TextOf(ntop(Encode(n)).value))
  {
    hide Encode, Expand, Accepts, WireLen, LiesAt, ValidName, ValidLabels, SkipTo;
    NameReads(m, p, n);
  }

  /** What the parser fetches, given where the record lies. */
  lemma {:induction false} FetchReads(ntop: TextFn, m: seq<Byte>, s: nat, k: nat, start: nat, at: nat, r: Record,
                                      text: seq<Byte>)
    requires s < 4 && Parses(m) && k < Count(m, s) && Layout(m, 12, 0).value[s] == start
    requires SkipRecords(m, start, s, k) == Some(at) && LiesAt(m, at, RecordOctets(r, s))
    requires NameText(ntop, m, at) == Some(text)
    ensures Fetch(ntop, m, s, k) == Some(Parsed(r, s, text, at + WireLen(r.name) + 10))
    ensures s > 0 ==> LiesAt(m, at + WireLen(r.name) + 10, r.data)
  {
    hide RecordOctets, SkipRecords, Layout, Get16, Encode, Expand, SkipTo, LiesAt, RecordAt, WireLen, Fixed, ValidName,
         NameText, FieldsInside, RecordEnd;
    RecordParts(m, at, r, s);
    NameReads(m, at, r.name);
    RecordFields(m, at + WireLen(r.name), r, s, text);
  }

  /** The text of a name as the parser gives it: the root has none. */
  function TextOf(t: seq<Byte>): seq<Byte> {
    if t != [] && t[0] == 0x2e then [] else t
  }

  // ----- the queries -----

  /** An unsigned query: the question, and the OPT record of RFC 6891 with the DO flag of RFC 3225 if that is set. */
  function QueryContent(n: Name, qtype: nat, qclass: nat, id: int, o: Builder.Options): (c: Content)
    requires ValidName(n) && qtype < 0x10000 && qclass < 0x10000
    ensures ValidContent(c)
  {
    Content(id % 0x10000, (if o.recurse then 0x100 else 0) + (if o.setCd then 0x10 else 0),
            [[Fields(n, qtype, qclass, 0, [])], [], [], OptPart(o)])
  }

  function OptPart(o: Builder.Options): (rs: seq<Record>)
    ensures |rs| <= 1
  {
    if o.setDo then [Fields([], 41, o.edns % 0x10000, 0x8000, [])] else []
  }

  /** The same with a TSIG record at the end. */
  function SignedContent(n: Name, qtype: nat, qclass: nat, id: int, o: Builder.Options, key: Name, data: seq<Byte>)
    : (c: Content)
    requires ValidName(n) && qtype < 0x10000 && qclass < 0x10000 && ValidName(key) && |data| < 0x10000
    ensures ValidContent(c)
  {
    QueryContent(n, qtype, qclass, id, o).(sections := [[Fields(n, qtype, qclass, 0, [])], [], [],
                                                        OptPart(o) + [Fields(key, 250, 255, 0, data)]])
  }

  lemma {:induction false} HeaderIs(id: int, rd: bool, cd: bool, c: Content)
    requires ValidContent(c) && c.id == id % 0x10000
    requires c.flags == (if rd then 0x100 else 0) + (if cd then 0x10 else 0)
    requires |c.sections[0]| == 1 && |c.sections[1]| == 0 && |c.sections[2]| == 0 && |c.sections[3]| < 256
    ensures HeaderOctets(c) == Builder.Header(id, rd, cd, |c.sections[3]|)
  {
    assert id / 256 % 256 == c.id / 256 && id % 256 == c.id % 256;
  }

  lemma {:induction false} QuestionIs(n: Name, qtype: nat, qclass: nat)
    requires ValidName(n) && qtype < 0x10000 && qclass < 0x10000
    ensures RecordOctets(Fields(n, qtype, qclass, 0, []), 0) == Builder.Question(n, qtype, qclass)
  {
    hide Encode, WireLen;
    var f := Fixed(Fields(n, qtype, qclass, 0, []));
    assert f[..4] == Builder.P16(qtype) + Builder.P16(qclass);
    var t, c := Builder.P16(qtype), Builder.P16(qclass);
    assert Encode(n) + (t + c) == Encode(n) + t + c;
  }

  lemma {:induction false} OptIs(edns: nat)
    ensures RecordOctets(Fields([], 41, edns % 0x10000, 0x8000, []), 3) == Builder.OptRecord(edns)
  {
    assert Encode([]) == [0];
    var v := edns % 0x10000;
    assert (v / 256) % 256 == v / 256;
  }

  lemma {:induction false} TsigIs(t: Builder.Tsig, now: int, mac: seq<Byte>, id: int)
    requires Builder.ValidTsig(t) && |mac| == t.macSize
    ensures |Builder.TsigData(t, now, mac, id)| < 0x10000
    ensures RecordOctets(Fields(t.name, 250, 255, 0, Builder.TsigData(t, now, mac, id)), 3) ==
              Builder.TsigRecord(t, now, mac, id)
  {
    Builder.TsigDataSize(t, now, mac, id);
    hide Encode, WireLen, Builder.TsigData;
    var d := Builder.TsigData(t, now, mac, id);
    FixedOfTsig(t.name, d);
    assert Encode(t.name) + (Builder.TsigFixed() + Builder.P16(|d|)) + d
        == Encode(t.name) + Builder.TsigFixed() + Builder.P16(|d|) + d;
  }

  lemma {:induction false} FixedOfTsig(key: Name, d: seq<Byte>)
    requires |d| < 0x10000 && ValidName(key)
    ensures Fixed(Fields(key, 250, 255, 0, d)) == Builder.TsigFixed() + Builder.P16(|d|)
  {
  }

  /** A message with one question and additional records. */
  lemma {:induction false} QueryOctets(c: Content)
    requires ValidContent(c) && |c.sections[0]| == 1 && c.sections[1] == [] && c.sections[2] == []
    ensures Octets(c) == HeaderOctets(c) + RecordOctets(c.sections[0][0], 0) + SectionOctets(c.sections[3], 3)
  {
    hide HeaderOctets, RecordOctets;
    assert c.sections[0][1..] == [];
    var q := RecordOctets(c.sections[0][0], 0);
    assert SectionOctets(c.sections[0], 0) == q + [] == q;
    assert Body(c, 3) == SectionOctets(c.sections[3], 3) + [] == SectionOctets(c.sections[3], 3);
    assert Body(c, 2) == [] + Body(c, 3) == Body(c, 3);
    assert Body(c, 1) == [] + Body(c, 2) == Body(c, 2);
  }

  lemma {:induction false} OneOrTwo(rs: seq<Record>)
    ensures |rs| == 1 ==> SectionOctets(rs, 3) == RecordOctets(rs[0], 3)
    ensures |rs| == 2 ==> SectionOctets(rs, 3) == RecordOctets(rs[0], 3) + RecordOctets(rs[1], 3)
  {
    hide RecordOctets;
    if |rs| == 1 {
      assert rs[1..] == [];
    }
    if |rs| == 2 {
      var a, b := RecordOctets(rs[0], 3), RecordOctets(rs[1], 3);
      assert rs[1..] == [rs[1]];
      assert SectionOctets([rs[1]], 3) == b + [] == b by { assert [rs[1]][1..] == []; }
      assert SectionOctets(rs, 3) == a + SectionOctets(rs[1..], 3);
    }
  }

  /** An unsigned query is the message of that content. */
  lemma {:induction false} UnsignedIsMessage(n: Name, qtype: nat, qclass: nat, id: int, o: Builder.Options)
    requires ValidName(n) && qtype < 0x10000 && qclass < 0x10000
    ensures Builder.Unsigned(n, qtype, qclass, id, o) == Octets(QueryContent(n, qtype, qclass, id, o))
  {
    hide Octets, HeaderOctets, RecordOctets, SectionOctets, Encode, WireLen, Builder.Header, Builder.Question,
         Builder.OptRecord;
    var c := QueryContent(n, qtype, qclass, id, o);
    QueryOctets(c);
    HeaderIs(id, o.recurse, o.setCd, c);
    QuestionIs(n, qtype, qclass);
    if o.setDo {
      OptIs(o.edns);
      OneOrTwo(c.sections[3]);
    } else {
      assert SectionOctets([], 3) == [] by { NoneLeft([], 0, 3); }
    }
  }

  /** And a signed one, for a MAC of the announced size. */
  lemma {:induction false} SignedIsMessage(n: Name, qtype: nat, qclass: nat, id: int, o: Builder.Options,
                                           t: Builder.Tsig, now: int, hmac: Builder.Hmac)
    requires ValidName(n) && Builder.ValidTsig(t) && qtype < 0x10000 && qclass < 0x10000
    requires |Builder.Mac(n, qtype, qclass, id, o, t, now, hmac)| == t.macSize
    ensures var data := Builder.TsigData(t, now, Builder.Mac(n, qtype, qclass, id, o, t, now, hmac), id);
            |data| < 0x10000 && Builder.Signed(n, qtype, qclass, id, o, t, now, hmac) ==
                                  Octets(SignedContent(n, qtype, qclass, id, o, t.name, data))
  {
    hide Octets, HeaderOctets, RecordOctets, SectionOctets, Encode, WireLen, Builder.Header, Builder.Question,
         Builder.OptRecord, Builder.TsigRecord, Builder.TsigData, Builder.Mac, Builder.Signed;
    var mac := Builder.Mac(n, qtype, qclass, id, o, t, now, hmac);
    TsigIs(t, now, mac, id);
    var c := SignedContent(n, qtype, qclass, id, o, t.name, Builder.TsigData(t, now, mac, id));
    QueryOctets(c);
    HeaderIs(id, o.recurse, o.setCd, c);
    QuestionIs(n, qtype, qclass);
    OneOrTwo(c.sections[3]);
    Builder.SignedIs(n, qtype, qclass, id, o, t, now, hmac);
    if o.setDo { OptIs(o.edns); }
  }

  /** A number in so many octets, the highest first. */
  function Big(v: int, k: nat): (o: seq<Byte>)
    ensures |o| == k
    decreases k
  {
    if k == 0 then [] else Big(v / 256, k - 1) + [v % 256]
  }

  lemma {:induction false} BigTwo(v: int)
    ensures Big(v, 2) == [v / 256 % 256, v % 256]
  {
    assert Big(v / 256 / 256, 0) == [] && Big(v / 256, 1) == [] + [v / 256 % 256] == [v / 256 % 256];
  }

  lemma {:induction false} BigSplit(v: int, k: nat)
    ensures Big(v, k + 2) == Big(v / 0x10000, k) + Big(v, 2)
  {
    BigTwo(v);
    assert v / 256 / 256 == v / 0x10000;
    assert Big(v, k + 2) == Big(v / 256, k + 1) + [v % 256];
    assert Big(v / 256, k + 1) == Big(v / 256 / 256, k) + [v / 256 % 256];
    hide Big;
    assert Big(v / 0x10000, k) + [v / 256 % 256] + [v % 256] == Big(v / 0x10000, k) + [v / 256 % 256, v % 256];
  }

  lemma {:induction false} BigIs(v: int)
    ensures Builder.P16(v) == Big(v, 2) && Builder.P32(v) == Big(v, 4) && Builder.P48(v) == Big(v, 6)
  {
    hide Big;
    var w := v / 0x10000;
    BigTwo(v);
    BigTwo(w);
    BigTwo(w / 0x10000);
    BigSplit(v, 2);
    BigSplit(v, 4);
    BigSplit(w, 2);
    assert w / 0x10000 == v / 0x100000000;
    assert Big(w / 0x10000, 2) + Big(w, 2) + Big(v, 2) == Big(w / 0x10000, 2) + (Big(w, 2) + Big(v, 2));
  }

  /**
   The data of a TSIG record (section 2.3 of RFC 2845): algorithm, time in 48 bits, fudge, MAC with
   its size, original identifier, no error and no other data; and what the MAC covers (section 3.4):
   the message before the record, then name, class ANY, time to live 0, algorithm, time, fudge, no
   error and no other data.
  */
  lemma {:induction false} TsigLayout(t: Builder.Tsig, now: int, mac: seq<Byte>, id: int, query: seq<Byte>)
    requires Builder.ValidTsig(t)
    ensures Builder.TsigData(t, now, mac, id) ==
              Encode(t.alg) + Big(now, 6) + Big(t.fudge, 2) + Big(t.macSize, 2) + mac + Big(id, 2) + [0, 0] + [0, 0]
    ensures Builder.Digested(query, t, now) ==
              query + Encode(t.name) + [0, 255] + [0, 0, 0, 0] + Encode(t.alg) + Big(now, 6) + Big(t.fudge, 2)
              + [0, 0] + [0, 0]
  {
    hide Encode, WireLen, Big, Builder.P16, Builder.P32, Builder.P48;
    BigIs(now);
    BigIs(t.fudge);
    BigIs(t.macSize);
    BigIs(id);
    Constants();
    DataParts(Encode(t.alg), Big(now, 6), Big(t.fudge, 2), Big(t.macSize, 2), mac, Big(id, 2), [0, 0]);
    DigestParts(query, Encode(t.name), [0, 255], [0, 0, 0, 0], Encode(t.alg), Big(now, 6), Big(t.fudge, 2), [0, 0]);
  }

  lemma {:induction false} Constants()
    ensures Builder.P16(0) == [0, 0] && Builder.P16(255) == [0, 255] && Builder.P32(0) == [0, 0, 0, 0]
  {
  }

  lemma {:induction false} DataParts(a: seq<Byte>, t: seq<Byte>, f: seq<Byte>, l: seq<Byte>, m: seq<Byte>,
                                     i: seq<Byte>, z: seq<Byte>)
    ensures (a + (t + f) + l) + m + (i + (z + z)) == a + t + f + l + m + i + z + z
  {
  }

  lemma {:induction false} DigestParts(q: seq<Byte>, n: seq<Byte>, c: seq<Byte>, l: seq<Byte>, a: seq<Byte>,
                                       t: seq<Byte>, f: seq<Byte>, z: seq<Byte>)
    ensures q + n + (c + l) + a + (t + f) + (z + z) == q + n + c + l + a + t + f + z + z
  {
  }
}
