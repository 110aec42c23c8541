/**
 The query builder: res_val_nmkquery (query opcode), res_val_nopt and res_create_query_payload of
 libsres/res_mkquery.c, and the TSIG record that libsres/res_tsig.c adds (section 4.1 of RFC 1035,
 section 6.1 of RFC 6891, sections 2.3 and 3.4 of RFC 2845).  What it builds is put to the
 message parser.
*/
module Builder {
  import opened Names
  import opened WireName
  import opened MsgParser
  import opened NameLength
  import Compress
  import Text

  const T_OPT := 41
  const T_TSIG := 250
  const C_ANY := 255
  const DNSSEC_OK := 0x8000
  const QFIXED := 4
  const RRFIXED := 10
  const QUERY_LIMIT := 1041

  // ----- the octets -----

  function P16(v: int): (o: seq<Byte>)
    ensures |o| == 2
  {
    [(v / 256) % 256, v % 256]
  }

  function P32(v: int): (o: seq<Byte>)
    ensures |o| == 4
  {
    P16(v / 0x10000) + P16(v)
  }

  function P48(v: int): (o: seq<Byte>)
    ensures |o| == 6
  {
    P16(v / 0x100000000) + P32(v)
  }

  function Bit(b: bool, v: Byte): Byte {
    if b then v else 0
  }

  /** The header of a query with one question and 'ar' additional records. */
  function Header(id: int, rd: bool, cd: bool, ar: nat): (h: seq<Byte>)
    ensures |h| == HEADER
  {
    P16(id) + [Bit(rd, 1), Bit(cd, 16)] + P16(1) + P16(0) + P16(0) + P16(ar)
  }

  function Question(n: Name, qtype: int, qclass: int): seq<Byte>
    requires ValidLabels(n)
  {
    Encode(n) + P16(qtype) + P16(qclass)
  }

  /** The OPT pseudo-record with the DO flag. */
  function OptRecord(edns: nat): (o: seq<Byte>)
    ensures |o| == 1 + RRFIXED
  {
    [0] + P16(T_OPT) + P16(edns % 0x10000) + [0, 0] + P16(DNSSEC_OK) + P16(0)
  }

  datatype Algorithm = Md5 | Sha1 | Sha256 | Unknown

  /** struct ns_tsig, with the names as the wire forms that ns_name_pton made. */
  datatype Tsig = Tsig(name: Name, alg: Name, algorithm: Algorithm, fudge: int, macSize: nat, key: seq<Byte>)

  predicate ValidTsig(t: Tsig) {
    ValidName(t.name) && ValidName(t.alg) && t.macSize <= 64
  }

  function TsigData(t: Tsig, now: int, mac: seq<Byte>, id: int): seq<Byte>
    requires ValidTsig(t)
  {
    BeforeMac(t, now) + mac + AfterMac(id)
  }

  function BeforeMac(t: Tsig, now: int): (o: seq<Byte>)
    requires ValidTsig(t)
    ensures |o| == WireLen(t.alg) + 10
  {
    Encode(t.alg) + (P48(now) + P16(t.fudge)) + P16(t.macSize)
  }

  /** The original identifier, no error, no other data. */
  function AfterMac(id: int): (o: seq<Byte>)
    ensures |o| == 6
  {
    P16(id) + (P16(0) + P16(0))
  }

  function TsigRecord(t: Tsig, now: int, mac: seq<Byte>, id: int): seq<Byte>
    requires ValidTsig(t)
  {
    Encode(t.name) + TsigFixed() + P16(|TsigData(t, now, mac, id)|) + TsigData(t, now, mac, id)
  }

  /** Type, class and time to live of the TSIG record. */
  function TsigFixed(): (o: seq<Byte>)
    ensures |o| == 8
  {
    P16(T_TSIG) + (P16(C_ANY) + P32(0))
  }

  /** What is digested: the message as it was before the record, and the fields of the record that are covered. */
  function Digested(query: seq<Byte>, t: Tsig, now: int): seq<Byte>
    requires ValidTsig(t)
  {
    query + Encode(t.name) + (P16(C_ANY) + P32(0)) + Encode(t.alg) + (P48(now) + P16(t.fudge)) + (P16(0) + P16(0))
  }

  /** The HMAC, for an algorithm, a key and octets; any function will do here. */
  type Hmac = (Algorithm, seq<Byte>, seq<Byte>) -> seq<Byte>

  datatype Options = Options(recurse: bool, setDo: bool, setCd: bool, edns: nat)

  /** The query before it is signed. */
  function Unsigned(n: Name, qtype: int, qclass: int, id: int, o: Options): seq<Byte>
    requires ValidLabels(n)
  {
    Header(id, o.recurse, o.setCd, if o.setDo then 1 else 0) + Question(n, qtype, qclass)
    + if o.setDo then OptRecord(o.edns) else []
  }

  /** The query with its TSIG record, which makes one more additional record. */
  function Signed(n: Name, qtype: int, qclass: int, id: int, o: Options, t: Tsig, now: int, hmac: Hmac): seq<Byte>
    requires ValidLabels(n) && ValidTsig(t)
  {
    var mac := hmac(t.algorithm, t.key, Digested(Unsigned(n, qtype, qclass, id, o), t, now));
    Header(id, o.recurse, o.setCd, if o.setDo then 2 else 1) + Question(n, qtype, qclass)
    + (if o.setDo then OptRecord(o.edns) else []) + TsigRecord(t, now, mac, id)
  }

  // ----- reading it back -----

  lemma Get16OfP16(m: seq<Byte>, p: nat, v: nat)
    requires p + 2 <= |m| && m[p..p + 2] == P16(v) && v < 0x10000
    ensures Get16(m, p) == v
  {
    assert m[p] == m[p..p + 2][0] && m[p + 1] == m[p..p + 2][1];
  }

  /** An uncompressed name is skipped over, and expands to itself with no pointer followed. */
  lemma {:induction false} PlainName(m: seq<Byte>, p: nat, h: nat)
    requires IsNameAt(m, p)
    ensures var n := NameAt(m, p);
            && ValidLabels(n) && SkipTo(m, p) == Some(p + WireLen(n))
            && Expand(m, p, h) == Some(Expansion(Encode(n), 0))
    decreases |m| - p
  {
    NameAtValid(m, p);
    if m[p] != 0 {
      NameAtCons(m, p);
      var q := p + 1 + m[p];
      NameInside(m, q);
      PlainName(m, q, h);
      assert LabelLen(m, p) == m[p] && InLine(m, p);
      hide IsNameAt, NameAt, LabelLen, InLine, WireLen, ValidLabels;
      assert m[p..q] == [m[p]] + m[p + 1..q];
    }
  }

  lemma NameInside(m: seq<Byte>, p: nat)
    requires IsNameAt(m, p)
    ensures p < |m|
  {
  }

  lemma SkipUnfold(m: seq<Byte>, p: nat, q: nat, section: nat, r: nat)
    requires SkipTo(m, p) == Some(q) && AfterName(m, q, section) == Some(r) && r <= |m|
    ensures SkipRecords(m, p, section, 1) == Some(r)
  {
    hide SkipTo, AfterName;
    assert SkipRecords(m, r, section, 0) == Some(r);
  }

  /** A record with this name and this data length is skipped over. */
  lemma SkipOneRecord(m: seq<Byte>, p: nat, n: Name, section: nat, rdlen: nat)
    requires ValidLabels(n) && section != S_QD && rdlen < 0x10000
    requires p + WireLen(n) + RRFIXED + rdlen <= |m| && m[p..p + WireLen(n)] == Encode(n)
    requires m[p + WireLen(n) + 8..p + WireLen(n) + 10] == P16(rdlen)
    ensures SkipRecords(m, p, section, 1) == Some(p + WireLen(n) + RRFIXED + rdlen)
  {
    NameAtEncode(m, p, n);
    PlainName(m, p, 0);
    Get16OfP16(m, p + WireLen(n) + 8, rdlen);
    hide *;
    var q := p + WireLen(n);
    FixedPart(m, q, section, rdlen);
    SkipUnfold(m, p, q, section, q + RRFIXED + rdlen);
  }

  lemma FixedPart(m: seq<Byte>, q: nat, section: nat, rdlen: nat)
    requires section != S_QD && q + RRFIXED + rdlen <= |m| && Get16(m, q + 8) == rdlen
    ensures AfterName(m, q, section) == Some(q + RRFIXED + rdlen)
  {
  }

  lemma HeaderReads(w: seq<Byte>, id: int, rd: bool, cd: bool, ar: nat, body: seq<Byte>)
    requires w == Header(id, rd, cd, ar) + body && ar < 0x10000
    ensures |w| >= HEADER && Get16(w, 0) == id % 0x10000
    ensures Count(w, 0) == 1 && Count(w, 1) == 0 && Count(w, 2) == 0 && Count(w, 3) == ar
  {
    HeaderFields(id, rd, cd, ar);
    hide Header, Get16;
    PrefixReads(w, Header(id, rd, cd, ar), body, 0);
    PrefixReads(w, Header(id, rd, cd, ar), body, 4);
    PrefixReads(w, Header(id, rd, cd, ar), body, 6);
    PrefixReads(w, Header(id, rd, cd, ar), body, 8);
    PrefixReads(w, Header(id, rd, cd, ar), body, 10);
  }

  lemma HeaderFields(id: int, rd: bool, cd: bool, ar: nat)
    requires ar < 0x10000
    ensures var h := Header(id, rd, cd, ar);
            && Get16(h, 0) == id % 0x10000 && Get16(h, 4) == 1
            && Get16(h, 6) == 0 && Get16(h, 8) == 0 && Get16(h, 10) == ar
  {
  }

  lemma PrefixReads(w: seq<Byte>, h: seq<Byte>, body: seq<Byte>, p: nat)
    requires w == h + body && p + 2 <= |h|
    ensures p + 2 <= |w| && Get16(w, p) == Get16(h, p)
  {
    assert w[p] == h[p] && w[p + 1] == h[p + 1];
  }

  /** Where the parts of the question lie. */
  lemma QuestionReads(w: seq<Byte>, h: seq<Byte>, n: Name, qtype: nat, qclass: nat, rest: seq<Byte>)
    requires |h| == HEADER && ValidLabels(n) && w == h + Question(n, qtype, qclass) + rest
    requires qtype < 0x10000 && qclass < 0x10000
    ensures HEADER + WireLen(n) <= HEADER + WireLen(n) + QFIXED <= |w| && w[HEADER..HEADER + WireLen(n)] == Encode(n)
    ensures Get16(w, HEADER + WireLen(n)) == qtype && Get16(w, HEADER + WireLen(n) + 2) == qclass
  {
    hide Encode, P16, WireLen, ValidLabels, Get16;
    var q, e := HEADER + WireLen(n), Encode(n);
    FourParts(w, h, e, P16(qtype), P16(qclass), rest);
    Get16OfP16(w, q, qtype);
    Get16OfP16(w, q + 2, qclass);
  }

  lemma FourParts(w: seq<Byte>, h: seq<Byte>, e: seq<Byte>, a: seq<Byte>, b: seq<Byte>, rest: seq<Byte>)
    requires w == h + (e + a + b) + rest
    ensures var i := |h| + |e|;
            && |w| == i + |a| + |b| + |rest|
            && w[|h|..i] == e && w[i..i + |a|] == a && w[i + |a|..i + |a| + |b|] == b
  {
  }

  lemma QuestionSkipped(w: seq<Byte>, q: nat)
    requires SkipTo(w, HEADER) == Some(q) && q + QFIXED <= |w|
    ensures SkipRecords(w, HEADER, S_QD, 1) == Some(q + QFIXED)
  {
    hide SkipTo;
    SkipUnfold(w, HEADER, q, S_QD, q + QFIXED);
  }

  lemma LayoutOfQuery(w: seq<Byte>, q: nat, ar: nat)
    requires |w| >= HEADER && Count(w, 0) == 1 && Count(w, 1) == 0 && Count(w, 2) == 0 && Count(w, 3) == ar
    requires SkipRecords(w, HEADER, S_QD, 1) == Some(q) && SkipRecords(w, q, 3, ar) == Some(|w|)
    ensures Parses(w) && Start(w, 0, 0) == Some(HEADER)
  {
    LayoutStep(w, HEADER, 0);
    LayoutStep(w, q, 1);
    LayoutStep(w, q, 2);
    LayoutStep(w, q, 3);
    LayoutEnd(w, |w|);
    if ar == 0 { NoneSkipped(w, q, 3); }
    NoneSkipped(w, HEADER, 0);
    hide Layout, SkipRecords;
  }

  lemma NoneSkipped(w: seq<Byte>, q: nat, section: nat)
    ensures SkipRecords(w, q, section, 0) == if q <= |w| then Some(q) else None
  {
  }

  lemma PlainAccepted(w: seq<Byte>, n: Name)
    requires ValidName(n) && |w| > HEADER && Expand(w, HEADER, |w|) == Some(Expansion(Encode(n), 0))
    ensures Accepts(w, HEADER, MAXCDNAME)
  {
    hide Expand;
  }

  /** What the parser makes of a message with one question, when the additional records fill the rest of it. */
  lemma QuestionParses(w: seq<Byte>, id: int, rd: bool, cd: bool, ar: nat,
                       n: Name, qtype: nat, qclass: nat, rest: seq<Byte>)
    requires ValidName(n) && qtype < 0x10000 && qclass < 0x10000 && ar < 0x10000
    requires w == Header(id, rd, cd, ar) + Question(n, qtype, qclass) + rest
    requires SkipRecords(w, HEADER + WireLen(n) + QFIXED, 3, ar) == Some(|w|)
    ensures Parses(w) && Count(w, 0) == 1 && Count(w, 1) == 0 && Count(w, 2) == 0 && Count(w, 3) == ar
    ensures Get16(w, 0) == id % 0x10000
    ensures Start(w, 0, 0) == Some(HEADER) && SkipTo(w, HEADER) == Some(HEADER + WireLen(n))
    ensures Accepts(w, HEADER, MAXCDNAME) && Expand(w, HEADER, |w|) == Some(Expansion(Encode(n), 0))
    ensures HEADER + WireLen(n) + QFIXED <= |w|
    ensures Get16(w, HEADER + WireLen(n)) == qtype && Get16(w, HEADER + WireLen(n) + 2) == qclass
  {
    hide *;
    LabelsOf(n);
    Associate(Header(id, rd, cd, ar), Question(n, qtype, qclass), rest);
    HeaderReads(w, id, rd, cd, ar, Question(n, qtype, qclass) + rest);
    QuestionReads(w, Header(id, rd, cd, ar), n, qtype, qclass, rest);
    NameReads(w, n);
    QuestionSkipped(w, HEADER + WireLen(n));
    LayoutOfQuery(w, HEADER + WireLen(n) + QFIXED, ar);
  }

  lemma LabelsOf(n: Name)
    requires ValidName(n)
    ensures ValidLabels(n)
  {
  }

  lemma Associate(a: seq<Byte>, b: seq<Byte>, c: seq<Byte>)
    ensures a + b + c == a + (b + c)
  {
  }

  lemma NameReads(w: seq<Byte>, n: Name)
    requires ValidName(n) && HEADER + WireLen(n) <= |w| && w[HEADER..HEADER + WireLen(n)] == Encode(n)
    ensures SkipTo(w, HEADER) == Some(HEADER + WireLen(n))
    ensures Accepts(w, HEADER, MAXCDNAME) && Expand(w, HEADER, |w|) == Some(Expansion(Encode(n), 0))
  {
    assert HEADER == 12;
    hide *;
    NameReadsAt(w, HEADER, n);
    NotEmptyAfterHeader(w, n);
    PlainAccepted(w, n);
  }

  lemma NameReadsAt(w: seq<Byte>, p: nat, n: Name)
    requires ValidName(n) && p + WireLen(n) <= |w| && w[p..p + WireLen(n)] == Encode(n)
    ensures SkipTo(w, p) == Some(p + WireLen(n)) && Expand(w, p, |w|) == Some(Expansion(Encode(n), 0))
  {
    LabelsOf(n);
    NameAtEncode(w, p, n);
    hide *;
    PlainName(w, p, |w|);
  }

  lemma NotEmptyAfterHeader(w: seq<Byte>, n: Name)
    requires HEADER + WireLen(n) <= |w|
    ensures |w| > HEADER
  {
  }

  // ----- the whole query -----

  /** A record that ends the message is skipped over. */
  lemma LastRecord(w: seq<Byte>, front: seq<Byte>, n: Name, fixed: seq<Byte>, data: seq<Byte>, section: nat)
    requires ValidLabels(n) && section != S_QD && |fixed| == 8 && |data| < 0x10000
    requires w == front + (Encode(n) + fixed + P16(|data|) + data)
    ensures SkipRecords(w, |front|, section, 1) == Some(|w|)
  {
    RecordParts(w, front, Encode(n), fixed, P16(|data|), data);
    hide *;
    SkipOneRecord(w, |front|, n, section, |data|);
  }

  lemma RecordParts(w: seq<Byte>, front: seq<Byte>, e: seq<Byte>, fixed: seq<Byte>, len: seq<Byte>, data: seq<Byte>)
    requires w == front + (e + fixed + len + data) && |fixed| == 8 && |len| == 2
    ensures var p := |front|;
            && |w| == p + |e| + RRFIXED + |data| && w[p..p + |e|] == e && w[p + |e| + 8..p + |e| + 10] == len
  {
  }

  /** The OPT record is skipped over, whatever follows. */
  lemma OptSkipped(w: seq<Byte>, front: seq<Byte>, edns: nat, rest: seq<Byte>)
    requires w == front + OptRecord(edns) + rest
    ensures SkipRecords(w, |front|, 3, 1) == Some(|front| + |OptRecord(edns)|)
  {
    var p, o := |front|, OptRecord(edns);
    assert w[p] == o[0] && w[p + 9] == o[9] && w[p + 10] == o[10];
    assert o[0] == 0 && o[9] == 0 && o[10] == 0;
    assert SkipTo(w, p) == Some(p + 1);
    FixedPart(w, p + 1, 3, 0);
    SkipUnfold(w, p, p + 1, 3, p + 11);
  }

  /**
   An unsigned query is one message for the parser, with counts 1, 0, 0 and 1 or 0, and its
   question gives back the name, the type and the class.
  */
  lemma UnsignedParses(n: Name, qtype: nat, qclass: nat, id: int, o: Options)
    requires ValidName(n) && qtype < 0x10000 && qclass < 0x10000
    ensures IsQuery(Unsigned(n, qtype, qclass, id, o), n, qtype, qclass, id, if o.setDo then 1 else 0)
  {
    var ar := if o.setDo then 1 else 0;
    var front := Front(n, qtype, qclass, id, o, ar);
    assert |front| == HEADER + WireLen(n) + QFIXED;
    hide Header, Question, OptRecord, SkipRecords, Encode, WireLen, IsQuery;
    var w := front + OptPart(o);
    assert w == Unsigned(n, qtype, qclass, id, o);
    if o.setDo {
      assert w == front + OptRecord(o.edns) + [];
      OptSkipped(w, front, o.edns, []);
    } else {
      NoneSkipped(w, |front|, 3);
    }
    QuestionParses(w, id, o.recurse, o.setCd, ar, n, qtype, qclass, OptPart(o));
    QueryIs(w, n, qtype, qclass, id, ar);
  }

  /** What the parser is to make of a query for this question with 'ar' additional records. */
  predicate IsQuery(w: seq<Byte>, n: Name, qtype: nat, qclass: nat, id: int, ar: nat)
    requires ValidLabels(n)
  {
    && Parses(w) && Count(w, 0) == 1 && Count(w, 1) == 0 && Count(w, 2) == 0 && Count(w, 3) == ar
    && Get16(w, 0) == id % 0x10000
    && Start(w, 0, 0) == Some(HEADER) && Accepts(w, HEADER, MAXCDNAME)
    && Expand(w, HEADER, |w|) == Some(Expansion(Encode(n), 0))
    && SkipTo(w, HEADER) == Some(HEADER + WireLen(n))
    && HEADER + WireLen(n) + QFIXED <= |w|
    && Get16(w, HEADER + WireLen(n)) == qtype && Get16(w, HEADER + WireLen(n) + 2) == qclass
  }

  lemma TsigDataSize(t: Tsig, now: int, mac: seq<Byte>, id: int)
    requires ValidTsig(t) && |mac| == t.macSize
    ensures |TsigData(t, now, mac, id)| == WireLen(t.alg) + 16 + t.macSize < 0x10000
  {
  }

  function Mac(n: Name, qtype: int, qclass: int, id: int, o: Options, t: Tsig, now: int, hmac: Hmac): seq<Byte>
    requires ValidLabels(n) && ValidTsig(t)
  {
    hmac(t.algorithm, t.key, Digested(Unsigned(n, qtype, qclass, id, o), t, now))
  }

  /** The same of a signed query, which has one more additional record. */
  lemma SignedParses(n: Name, qtype: nat, qclass: nat, id: int, o: Options, t: Tsig, now: int, hmac: Hmac)
    requires ValidName(n) && ValidTsig(t) && qtype < 0x10000 && qclass < 0x10000
    requires |Mac(n, qtype, qclass, id, o, t, now, hmac)| == t.macSize
    ensures IsQuery(Signed(n, qtype, qclass, id, o, t, now, hmac), n, qtype, qclass, id, if o.setDo then 2 else 1)
  {
    var mac := Mac(n, qtype, qclass, id, o, t, now, hmac);
    var front := Front(n, qtype, qclass, id, o, if o.setDo then 2 else 1);
    var tsig := TsigRecord(t, now, mac, id);
    TsigDataSize(t, now, mac, id);
    SignedIs(n, qtype, qclass, id, o, t, now, hmac);
    RestSkipped(Signed(n, qtype, qclass, id, o, t, now, hmac), front, o, t, now, mac, id);
    assert |front| == HEADER + WireLen(n) + QFIXED;
    hide Header, Question, OptRecord, TsigRecord, SkipRecords, Signed, Encode, WireLen, IsQuery;
    QuestionParses(Signed(n, qtype, qclass, id, o, t, now, hmac), id, o.recurse, o.setCd, if o.setDo then 2 else 1,
                   n, qtype, qclass, OptPart(o) + tsig);
    QueryIs(Signed(n, qtype, qclass, id, o, t, now, hmac), n, qtype, qclass, id, if o.setDo then 2 else 1);
  }

  function Front(n: Name, qtype: int, qclass: int, id: int, o: Options, ar: nat): seq<Byte>
    requires ValidLabels(n)
  {
    Header(id, o.recurse, o.setCd, ar) + Question(n, qtype, qclass)
  }

  function OptPart(o: Options): seq<Byte> {
    if o.setDo then OptRecord(o.edns) else []
  }

  lemma SignedIs(n: Name, qtype: int, qclass: int, id: int, o: Options, t: Tsig, now: int, hmac: Hmac)
    requires ValidLabels(n) && ValidTsig(t)
    ensures var mac := Mac(n, qtype, qclass, id, o, t, now, hmac);
            Signed(n, qtype, qclass, id, o, t, now, hmac) ==
              Front(n, qtype, qclass, id, o, if o.setDo then 2 else 1) + (OptPart(o) + TsigRecord(t, now, mac, id))
  {
    hide Header, Question, OptRecord, TsigRecord, Unsigned, Digested;
    var mac := Mac(n, qtype, qclass, id, o, t, now, hmac);
    Associate(Front(n, qtype, qclass, id, o, if o.setDo then 2 else 1), OptPart(o), TsigRecord(t, now, mac, id));
  }

  /** The additional records of a signed query fill the rest of it. */
  lemma RestSkipped(w: seq<Byte>, front: seq<Byte>, o: Options, t: Tsig, now: int, mac: seq<Byte>, id: int)
    requires ValidTsig(t) && |TsigData(t, now, mac, id)| < 0x10000
    requires w == front + (OptPart(o) + TsigRecord(t, now, mac, id))
    ensures SkipRecords(w, |front|, 3, if o.setDo then 2 else 1) == Some(|w|)
  {
    var tsig := TsigRecord(t, now, mac, id);
    hide OptRecord, TsigRecord, TsigData, SkipRecords;
    if o.setDo {
      var opt := OptRecord(o.edns);
      Associate(front, opt, tsig);
      OptSkipped(w, front, o.edns, tsig);
      TsigLast(w, front + opt, t, now, mac, id);
      SkipAdditive(w, |front|, 3, 1, 1);
    } else {
      assert [] + tsig == tsig;
      TsigLast(w, front, t, now, mac, id);
    }
  }

  lemma QueryIs(w: seq<Byte>, n: Name, qtype: nat, qclass: nat, id: int, ar: nat)
    requires ValidLabels(n)
    requires Parses(w) && Count(w, 0) == 1 && Count(w, 1) == 0 && Count(w, 2) == 0 && Count(w, 3) == ar
    requires Get16(w, 0) == id % 0x10000 && Start(w, 0, 0) == Some(HEADER) && Accepts(w, HEADER, MAXCDNAME)
    requires Expand(w, HEADER, |w|) == Some(Expansion(Encode(n), 0)) && SkipTo(w, HEADER) == Some(HEADER + WireLen(n))
    requires HEADER + WireLen(n) + QFIXED <= |w|
    requires Get16(w, HEADER + WireLen(n)) == qtype && Get16(w, HEADER + WireLen(n) + 2) == qclass
    ensures IsQuery(w, n, qtype, qclass, id, ar)
  {
  }

  lemma TsigLast(w: seq<Byte>, front: seq<Byte>, t: Tsig, now: int, mac: seq<Byte>, id: int)
    requires ValidTsig(t) && |TsigData(t, now, mac, id)| < 0x10000
    requires w == front + TsigRecord(t, now, mac, id)
    ensures SkipRecords(w, |front|, 3, 1) == Some(|w|)
  {
    hide TsigData, TsigFixed, Encode, SkipRecords;
    LastRecord(w, front, t.name, TsigFixed(), TsigData(t, now, mac, id), 3);
  }

  /** What ns_parserr gives back for the question of a query. */
  lemma QuestionFetched(ntop: TextFn, w: seq<Byte>, n: Name, qtype: nat, qclass: nat, id: int, ar: nat)
    requires ValidName(n) && IsQuery(w, n, qtype, qclass, id, ar) && ntop(Encode(n)) == Some(Text.NameText(n))
    ensures Fetch(ntop, w, 0, 0) == Some(Rr(if n == [] then [] else Text.NameText(n), qtype, qclass, 0, 0, None))
  {
    hide Text.Joined, Layout, SkipRecords, SkipTo, Expand, Accepts, Encode, WireLen;
    if n != [] {
      JoinedStart(n);
    }
  }

  /** The text of a name other than the root does not start with a dot. */
  lemma {:induction false} JoinedStart(n: Name)
    requires n != [] && ValidLabels(n)
    ensures Text.Joined(n) != [] && Text.Joined(n)[0] != 0x2e
    decreases |n|
  {
    if |n| == 1 {
      Text.FirstNotDot(n[0]);
    } else {
      JoinedStart(n[..|n| - 1]);
    }
  }

  // ----- writing it -----

  method PutBytes(buf: array<Byte>, cp: nat, w: seq<Byte>)
    requires cp + |w| <= buf.Length
    modifies buf
    ensures buf[..cp + |w|] == old(buf[..cp]) + w && buf[cp..cp + |w|] == w
  {
    ghost var before := buf[..cp];
    forall i | 0 <= i < |w| {
      buf[cp + i] := w[i];
    }
    assert buf[..cp + |w|] == before + w;
  }

  /** RES_PUT16 and the like are byte-by-byte stores. */
  method Put16(buf: array<Byte>, cp: nat, v: int)
    requires cp + 2 <= buf.Length
    modifies buf
    ensures buf[..cp + 2] == old(buf[..cp]) + P16(v)
  {
    ghost var before := buf[..cp];
    buf[cp] := (v / 256) % 256;
    buf[cp + 1] := v % 256;
    assert buf[..cp + 2] == before + P16(v);
  }

  method Put32(buf: array<Byte>, cp: nat, v: int)
    requires cp + 4 <= buf.Length
    modifies buf
    ensures buf[..cp + 4] == old(buf[..cp]) + P32(v)
  {
    ghost var before := buf[..cp];
    Put16(buf, cp, v / 0x10000);
    Put16(buf, cp + 2, v);
    assert before + P16(v / 0x10000) + P16(v) == before + P32(v);
  }

  method Put48(buf: array<Byte>, cp: nat, v: int)
    requires cp + 6 <= buf.Length
    modifies buf
    ensures buf[..cp + 6] == old(buf[..cp]) + P48(v)
  {
    ghost var before := buf[..cp];
    Put16(buf, cp, v / 0x100000000);
    Put32(buf, cp + 2, v);
    hide P16, P32;
    assert before + P16(v / 0x100000000) + P32(v) == before + P48(v);
  }

  /** The name that ns_name_pton makes of a text in a buffer of 255 octets. */
  function NameOf(text: seq<Byte>): (n: Option<Name>)
    ensures n.Some? ==> ValidName(n.value)
  {
    var r := Text.Scan(text, [], []);
    if r.Accepted? && ValidLabels(r.name) && WireLen(r.name) <= MAXCDNAME then Some(r.name) else None
  }

  lemma {:induction false} PackedInFull(m: seq<Byte>, n: Name)
    requires ValidLabels(n)
    ensures Compress.PackOctets(m, [], n) == Encode(n) && !Compress.UsesPointer(m, [], n)
  {
    if n != [] {
      Compress.NoTable(m, n);
      PackedInFull(m, n[1..]);
    }
  }

  lemma {:induction false} NameScannable(w: seq<Byte>, p: nat)
    requires IsNameAt(w, p)
    ensures Compress.Scannable(w, p)
    decreases |w| - p
  {
    if w[p] != 0 { NameScannable(w, p + 1 + w[p]); }
  }

  lemma PtonName(text: seq<Byte>, rc: int, d: seq<Byte>)
    requires Text.Verdict(Text.Scan(text, [], []), MAXCDNAME, rc, d)
    ensures rc == -1 <==> NameOf(text).None?
    ensures rc != -1 ==> var n := NameOf(text).value; WireLen(n) <= |d| && d[..WireLen(n)] == Encode(n)
  {
    hide Text.Scan, Encode, WireLen, ValidLabels;
  }

  /** dn_comp on a message with no name before: the name in full, if it and a spare octet fit. */
  method DnComp(text: seq<Byte>, buf: array<Byte>, dst: nat, dstsiz: int) returns (r: int)
    requires Text.Ordinary(text) && dst <= buf.Length && dst + dstsiz <= buf.Length
    modifies buf
    ensures buf[..dst] == old(buf[..dst])
    ensures r >= 0 <==> NameOf(text).Some? && WireLen(NameOf(text).value) + 1 <= dstsiz
    ensures r >= 0 ==> && r == WireLen(NameOf(text).value) && dst + r <= buf.Length
                       && buf[..dst + r] == old(buf[..dst]) + Encode(NameOf(text).value)
  {
    hide NameOf, Encode, WireLen, NameAt, IsNameAt, Text.Ordinary;
    var tmp := new Byte[MAXCDNAME];
    hide *;
    var rc := Text.Pton(text, tmp);
    PtonName(text, rc, tmp[..]);
    if rc == -1 {
      return -1;
    }
    ghost var n := NameOf(text).value;
    Written(tmp[..], n);
    r := PackAlone(tmp[..], n, buf, dst, dstsiz);
  }

  /** ns_name_pack with an array of pointers that holds the start of the message only. */
  method PackAlone(src: seq<Byte>, ghost n: Name, buf: array<Byte>, dst: nat, dstsiz: int) returns (r: int)
    requires dst <= buf.Length && dst + dstsiz <= buf.Length
    requires IsNameAt(src, 0) && NameAt(src, 0) == n && Compress.Scannable(src, 0) && Compress.LegalName(src)
    modifies buf
    ensures buf[..dst] == old(buf[..dst])
    ensures r >= 0 <==> WireLen(n) + 1 <= dstsiz
    ensures r >= 0 ==> && r == WireLen(n) && ValidLabels(n) && dst + r <= buf.Length
                       && buf[..dst + r] == old(buf[..dst]) + Encode(n)
  {
    ghost var m := buf[..dst];
    var ptrs := new int[20](i => -1);
    ptrs[0] := 0;
    EmptyTable(ptrs[..], m);
    NameAtValid(src, 0);
    PackedInFull(m, n);
    hide *;
    r := Compress.Pack(src, buf, dst, dstsiz, ptrs, Some(20));
    PackResult(src, m, n, dstsiz);
    if r >= 0 {
      assert buf[..dst + r] == buf[..dst] + buf[dst..dst + r];
    }
  }

  lemma Written(w: seq<Byte>, n: Name)
    requires ValidName(n) && WireLen(n) <= |w| && w[..WireLen(n)] == Encode(n)
    ensures IsNameAt(w, 0) && NameAt(w, 0) == n && Compress.Scannable(w, 0) && Compress.LegalName(w)
  {
    assert w[0..WireLen(n)] == w[..WireLen(n)];
    NameAtEncode(w, 0, n);
    NameScannable(w, 0);
  }

  lemma EmptyTable(ptrs: seq<int>, m: seq<Byte>)
    requires |ptrs| == 20 && ptrs[0] == 0 && ptrs[1] == Compress.NULL
    ensures Compress.Terminated(ptrs) && Compress.Active(ptrs) == [] && Compress.TableOk(m, [])
  {
    assert Compress.EndsAt(ptrs, 1);
    Compress.ActiveIs(ptrs, 1);
  }

  lemma PackResult(w: seq<Byte>, m: seq<Byte>, n: Name, dstsiz: int)
    requires IsNameAt(w, 0) && NameAt(w, 0) == n && Compress.LegalName(w) && ValidLabels(n)
    requires Compress.PackOctets(m, [], n) == Encode(n) && !Compress.UsesPointer(m, [], n)
    ensures Compress.Packs(w, m, [], dstsiz) <==> WireLen(n) + 1 <= dstsiz
  {
  }

  lemma HeaderStart(id: int, rd: bool)
    ensures Blank(id, rd)[4 := 0][5 := 1] == Header(id, rd, false, 0)
  {
  }

  /** res_val_nmkquery for a query: the header and the question. */
  method ResValNmkquery(text: seq<Byte>, qclass: int, qtype: int, id: int, rd: bool, buf: array<Byte>)
    returns (rc: int, length: nat)
    requires Text.Ordinary(text)
    modifies buf
    ensures rc == 0 || rc == -1
    ensures rc == 0 <==> NameOf(text).Some? && HEADER + WireLen(NameOf(text).value) + 1 + QFIXED <= buf.Length
    ensures rc == 0 ==> var n := NameOf(text).value;
                        && length == HEADER + WireLen(n) + QFIXED <= buf.Length
                        && buf[..length] == Header(id, rd, false, 0) + Question(n, qtype, qclass)
  {
    length := 0;
    if buf.Length < HEADER {
      return -1, 0;
    }
    PutBlank(buf, id, rd);
    var cp: nat := HEADER;
    if buf.Length - cp < QFIXED {
      return -1, 0;
    }
    hide Text.Scan, Encode, WireLen, Question, Header;
    var n := DnComp(text, buf, cp, buf.Length - cp - QFIXED);
    if n < 0 {
      return -1, 0;
    }
    ghost var name := NameOf(text).value;
    PutTypeAndClass(buf, cp + n, qtype, qclass, Blank(id, rd), name);
    cp := cp + n + 4;
    ghost var done := buf[..cp];
    buf[4], buf[5] := 0, 1;
    assert buf[..cp] == done[4 := 0][5 := 1];
    HeaderStart(id, rd);
    FrontSet(done, Blank(id, rd), Question(name, qtype, qclass));
    return 0, cp;
  }

  /** The header before the count of questions is set. */
  function Blank(id: int, rd: bool): (h: seq<Byte>)
    ensures |h| == HEADER
  {
    P16(id) + [Bit(rd, 1), 0, 0, 0, 0, 0, 0, 0, 0, 0]
  }

  method PutBlank(buf: array<Byte>, id: int, rd: bool)
    requires buf.Length >= HEADER
    modifies buf
    ensures buf[..HEADER] == Blank(id, rd)
  {
    forall i | 0 <= i < HEADER {
      buf[i] := 0;
    }
    var start := P16(id);
    buf[0], buf[1], buf[2] := start[0], start[1], Bit(rd, 1);
  }

  method PutTypeAndClass(buf: array<Byte>, cp: nat, qtype: int, qclass: int, ghost front: seq<Byte>, ghost n: Name)
    requires ValidLabels(n) && cp + 4 <= buf.Length && buf[..cp] == front + Encode(n)
    modifies buf
    ensures buf[..cp + 4] == front + Question(n, qtype, qclass)
  {
    Put16(buf, cp, qtype);
    Put16(buf, cp + 2, qclass);
    hide Encode, P16;
    assert front + Encode(n) + P16(qtype) + P16(qclass) == front + (Encode(n) + P16(qtype) + P16(qclass));
  }

  lemma FrontSet(w: seq<Byte>, h: seq<Byte>, body: seq<Byte>)
    requires |h| == HEADER && w == h + body
    ensures w[4 := 0][5 := 1] == h[4 := 0][5 := 1] + body
  {
  }

  /** One more additional record is counted in the header. */
  method BumpArcount(buf: array<Byte>, ghost length: nat, ghost id: int, ghost rd: bool, ghost cd: bool, ghost ar: nat,
                     ghost body: seq<Byte>)
    requires HEADER <= length <= buf.Length && buf[..length] == Header(id, rd, cd, ar) + body && ar + 1 < 0x10000
    modifies buf
    ensures buf[..length] == Header(id, rd, cd, ar + 1) + body
  {
    ghost var w := buf[..length];
    ArcountAt(w, id, rd, cd, ar, body);
    assert buf[10] == w[10] && buf[11] == w[11];
    var arcount: int := buf[10];
    arcount := arcount * 256 + buf[11] + 1;
    buf[10], buf[11] := (arcount / 256) % 256, arcount % 256;
    hide Header;
    assert buf[..length] == w[10 := ((ar + 1) / 256) % 256][11 := (ar + 1) % 256];
  }

  lemma ArcountAt(w: seq<Byte>, id: int, rd: bool, cd: bool, ar: nat, body: seq<Byte>)
    requires w == Header(id, rd, cd, ar) + body && ar + 1 < 0x10000
    ensures |w| >= HEADER && w[10] as int * 256 + w[11] as int == ar
    ensures var hi: Byte := ((ar + 1) / 256) % 256;
            var lo: Byte := (ar + 1) % 256;
            w[10 := hi][11 := lo] == Header(id, rd, cd, ar + 1) + body
  {
    var h := Header(id, rd, cd, ar);
    assert w[10] == h[10] && w[11] == h[11];
    var hi: Byte := ((ar + 1) / 256) % 256;
    var lo: Byte := (ar + 1) % 256;
    assert h[10 := hi][11 := lo] == Header(id, rd, cd, ar + 1);
    assert w[10 := hi][11 := lo] == h[10 := hi][11 := lo] + body;
  }

  /** res_val_nopt: the OPT record after a query of this length. */
  method ResValNopt(edns: nat, buf: array<Byte>, length: nat, ghost id: int, ghost rd: bool, ghost cd: bool,
                    ghost ar: nat, ghost body: seq<Byte>)
    returns (rc: int, length': nat)
    requires HEADER <= length <= buf.Length && buf[..length] == Header(id, rd, cd, ar) + body && ar + 1 < 0x10000
    modifies buf
    ensures rc == 0 || rc == -1
    ensures rc == 0 <==> length + 1 + RRFIXED <= buf.Length
    ensures rc == -1 ==> length' == length && buf[..] == old(buf[..])
    ensures rc == 0 ==> && length' == length + 1 + RRFIXED
                        && buf[..length'] == Header(id, rd, cd, ar + 1) + (body + OptRecord(edns))
  {
    if buf.Length - length < 1 + RRFIXED {
      return -1, length;
    }
    hide Header;
    PutOpt(edns, buf, length);
    var cp := length + 11;
    Associate(Header(id, rd, cd, ar), body, OptRecord(edns));
    BumpArcount(buf, cp, id, rd, cd, ar, body + OptRecord(edns));
    return 0, cp;
  }

  method PutOpt(edns: nat, buf: array<Byte>, start: nat)
    requires start + 11 <= buf.Length
    modifies buf
    ensures buf[..start + 11] == old(buf[..start]) + OptRecord(edns)
  {
    ghost var front := buf[..start];
    PutBytes(buf, start, [0]);
    Put16(buf, start + 1, T_OPT);
    Put16(buf, start + 3, edns % 0x10000);
    PutBytes(buf, start + 5, [0, 0]);
    Put16(buf, start + 7, DNSSEC_OK);
    Put16(buf, start + 9, 0);
    hide P16;
    assert buf[..start + 11] == front + OptRecord(edns);
  }

  /** The lengths that res_set_ns_tsig computes before there is any record. */
  method TsigLengths(t: Tsig) returns (rdatalen: nat, bufSize: nat)
    requires ValidTsig(t)
    ensures forall now: int, mac: seq<Byte>, id: int :: |mac| == t.macSize ==>
              rdatalen == |TsigData(t, now, mac, id)| && bufSize == |TsigRecord(t, now, mac, id)|
    ensures rdatalen == WireLen(t.alg) + 16 + t.macSize < 0x10000 && bufSize == WireLen(t.name) + 10 + rdatalen
  {
    LengthOfEncoding(t.name);
    LengthOfEncoding(t.alg);
    var nameLen := WireNameLength(Encode(t.name), 0);
    var algLen := WireNameLength(Encode(t.alg), 0);
    var hlen := nameLen + 2 + 2 + 4;
    rdatalen := algLen + (4 + 2) + 2 + 2 + t.macSize + 2 + 2 + 2;
    bufSize := hlen + 2 + rdatalen;
  }

  /** The fixed part of the TSIG record, and what of it is digested. */
  method PutTsigFixed(buf: array<Byte>, cp: nat, digest: seq<Byte>) returns (digest': seq<Byte>)
    requires cp + 8 <= buf.Length
    modifies buf
    ensures buf[..cp + 8] == old(buf[..cp]) + TsigFixed() && digest' == digest + (P16(C_ANY) + P32(0))
  {
    ghost var front := buf[..cp];
    Put16(buf, cp, T_TSIG);
    Put16(buf, cp + 2, C_ANY);
    Put32(buf, cp + 4, 0);
    hide P16, P32;
    assert buf[..cp + 8] == front + P16(T_TSIG) + P16(C_ANY) + P32(0);
    assert buf[..cp + 8] == front + TsigFixed();
    assert buf[cp + 2..cp + 8] == buf[..cp + 8][cp + 2..] == P16(C_ANY) + P32(0);
    digest' := digest + buf[cp + 2..cp + 8];
  }

  /** The data of the TSIG record before the MAC. */
  method PutBeforeMac(t: Tsig, now: int, buf: array<Byte>, cp: nat, digest: seq<Byte>) returns (digest': seq<Byte>)
    requires ValidTsig(t) && cp + WireLen(t.alg) + 10 <= buf.Length
    modifies buf
    ensures buf[..cp + WireLen(t.alg) + 10] == old(buf[..cp]) + BeforeMac(t, now)
    ensures digest' == digest + Encode(t.alg) + (P48(now) + P16(t.fudge))
  {
    ghost var front := buf[..cp];
    hide P16, P48, Encode, WireLen;
    var alg := Encode(t.alg);
    PutBytes(buf, cp, alg);
    var p := cp + |alg|;
    digest' := digest + buf[cp..p];
    Put48(buf, p, now);
    Put16(buf, p + 6, t.fudge);
    assert buf[..p + 8] == front + alg + P48(now) + P16(t.fudge);
    assert buf[p..p + 8] == buf[..p + 8][p..] == P48(now) + P16(t.fudge);
    digest' := digest' + buf[p..p + 8];
    Put16(buf, p + 8, t.macSize);
    assert buf[..p + 10] == front + BeforeMac(t, now);
  }

  /** The data of the TSIG record after the MAC; the identifier is not digested again. */
  method PutAfterMac(id: int, buf: array<Byte>, cp: nat, digest: seq<Byte>) returns (digest': seq<Byte>)
    requires cp + 6 <= buf.Length
    modifies buf
    ensures buf[..cp + 6] == old(buf[..cp]) + AfterMac(id) && digest' == digest + (P16(0) + P16(0))
  {
    ghost var front := buf[..cp];
    Put16(buf, cp, id);
    Put16(buf, cp + 2, 0);
    Put16(buf, cp + 4, 0);
    hide P16;
    assert buf[..cp + 6] == front + P16(id) + P16(0) + P16(0);
    assert buf[..cp + 6] == front + AfterMac(id);
    assert buf[cp + 2..cp + 6] == buf[..cp + 6][cp + 2..] == P16(0) + P16(0);
    digest' := digest + buf[cp + 2..cp + 6];
  }

  /** The MAC goes where room was left for it. */
  method PutMac(mac: seq<Byte>, buf: array<Byte>, hp: nat,
                ghost front: seq<Byte>, ghost room: seq<Byte>, ghost rest: seq<Byte>)
    requires buf[..] == front + room + rest && |front| == hp && |room| == |mac|
    modifies buf
    ensures buf[..] == front + mac + rest
  {
    forall i | 0 <= i < |mac| {
      buf[hp + i] := mac[i];
    }
  }

  /** The TSIG record up to the MAC. */
  function RecordFront(t: Tsig, now: int, rdatalen: int): (o: seq<Byte>)
    requires ValidTsig(t)
    ensures |o| == WireLen(t.name) + 10 + WireLen(t.alg) + 10
  {
    Encode(t.name) + TsigFixed() + P16(rdatalen) + BeforeMac(t, now)
  }

  method PutRecordFront(t: Tsig, rdatalen: int, now: int, buf: array<Byte>, cp: nat, digest: seq<Byte>)
    returns (digest': seq<Byte>, hp: nat)
    requires ValidTsig(t) && cp + WireLen(t.name) + 10 + WireLen(t.alg) + 10 <= buf.Length
    modifies buf
    ensures hp == cp + |RecordFront(t, now, rdatalen)| <= buf.Length
    ensures buf[..hp] == old(buf[..cp]) + RecordFront(t, now, rdatalen)
    ensures digest' == digest + Encode(t.name) + (P16(C_ANY) + P32(0)) + Encode(t.alg) + (P48(now) + P16(t.fudge))
  {
    ghost var front := buf[..cp];
    hide P16, P32, P48, Encode, WireLen, TsigFixed, BeforeMac;
    var name := Encode(t.name);
    PutBytes(buf, cp, name);
    hp := cp + |name|;
    digest' := digest + buf[cp..hp];
    digest' := PutTsigFixed(buf, hp, digest');
    hp := hp + 8;
    Put16(buf, hp, rdatalen);
    hp := hp + 2;
    ghost var a := buf[..hp];
    digest' := PutBeforeMac(t, now, buf, hp, digest');
    hp := hp + |Encode(t.alg)| + 10;
    RecordFrontIs(front, t, now, rdatalen);
  }

  lemma RecordFrontIs(front: seq<Byte>, t: Tsig, now: int, rdatalen: int)
    requires ValidTsig(t)
    ensures front + Encode(t.name) + TsigFixed() + P16(rdatalen) + BeforeMac(t, now)
            == front + RecordFront(t, now, rdatalen)
  {
    hide P16, Encode, TsigFixed, BeforeMac;
    FiveParts(front, Encode(t.name), TsigFixed(), P16(rdatalen), BeforeMac(t, now));
  }

  lemma FiveParts(f: seq<Byte>, a: seq<Byte>, b: seq<Byte>, c: seq<Byte>, d: seq<Byte>)
    ensures f + a + b + c + d == f + (a + b + c + d)
  {
  }

  lemma RecordIs(front: seq<Byte>, t: Tsig, now: int, mac: seq<Byte>, id: int, rdatalen: int)
    requires ValidTsig(t) && |mac| == t.macSize && rdatalen == WireLen(t.alg) + 16 + t.macSize
    ensures front + RecordFront(t, now, rdatalen) + mac + AfterMac(id) == front + TsigRecord(t, now, mac, id)
  {
    TsigDataSize(t, now, mac, id);
    hide P16, Encode, TsigFixed, BeforeMac, AfterMac, WireLen;
    var head := Encode(t.name) + TsigFixed() + P16(rdatalen);
    FiveParts(front, head, BeforeMac(t, now), mac, AfterMac(id));
    assert TsigRecord(t, now, mac, id) == head + (BeforeMac(t, now) + mac + AfterMac(id));
    assert head + (BeforeMac(t, now) + mac + AfterMac(id)) == head + BeforeMac(t, now) + mac + AfterMac(id);
    assert front + (head + BeforeMac(t, now)) == front + head + BeforeMac(t, now);
  }

  /**
   res_tsig_sign with a key: a buffer of the size computed beforehand, which the query and the
   record fill exactly.  What the MAC covers is collected as it is written.
  */
  method ResTsigSign(query: seq<Byte>, t: Tsig, rdatalen: nat, bufSize: nat, now: int, hmac: Hmac,
                     ghost id: int, ghost rd: bool, ghost cd: bool, ghost ar: nat, ghost body: seq<Byte>)
    returns (signed: Option<seq<Byte>>)
    requires ValidTsig(t) && rdatalen == WireLen(t.alg) + 16 + t.macSize && bufSize == WireLen(t.name) + 10 + rdatalen
    requires query == Header(id, rd, cd, ar) + body && ar + 1 < 0x10000
    ensures var mac := hmac(t.algorithm, t.key, Digested(query, t, now));
            if t.algorithm != Unknown && |mac| == t.macSize then
              signed == Some(Header(id, rd, cd, ar + 1) + body + TsigRecord(t, now, mac, id))
            else signed == None
  {
    if t.algorithm == Unknown {
      return None;
    }
    ghost var front := Header(id, rd, cd, ar + 1) + body;
    HeaderId(id, rd, cd, ar + 1, body);
    hide Header, Encode, P16, P32, P48, RecordFront, AfterMac, TsigRecord, WireLen;
    var buf := new Byte[|query| + bufSize];
    PutBytes(buf, 0, query);
    var cp: nat := |query|;
    var digest := buf[..cp];
    assert digest == query;
    BumpArcount(buf, cp, id, rd, cd, ar, body);
    var hp;
    digest, hp := PutRecordFront(t, rdatalen, now, buf, cp, digest);
    ghost var a := front + RecordFront(t, now, rdatalen);
    assert buf[0] == a[0] == front[0] && buf[1] == a[1] == front[1];
    var first: int := buf[0];
    var originalId := first * 256 + buf[1];
    var ok;
    ghost var mac;
    ok, mac := FinishRecord(t, originalId, hmac, buf, hp, digest);
    if !ok {
      return None;
    }
    RecordIs(front, t, now, mac, id, rdatalen);
    return Some(buf[..]);
  }

  /** The end of res_tsig_sign: the rest of the record, then the MAC in the room left for it. */
  method FinishRecord(t: Tsig, originalId: int, hmac: Hmac, buf: array<Byte>, hp: nat, digest: seq<Byte>)
    returns (ok: bool, ghost mac: seq<Byte>)
    requires hp + t.macSize + 6 == buf.Length
    modifies buf
    ensures mac == hmac(t.algorithm, t.key, digest + (P16(0) + P16(0))) && ok == (|mac| == t.macSize)
    ensures ok ==> buf[..] == old(buf[..hp]) + mac + AfterMac(originalId)
  {
    hide P16, AfterMac;
    ghost var a := buf[..hp];
    var cp := hp + t.macSize;
    ghost var room := buf[hp..cp];
    assert buf[..cp] == a + room;
    var digested := PutAfterMac(originalId, buf, cp, digest);
    assert buf[..cp + 6] == buf[..];
    var code := hmac(t.algorithm, t.key, digested);
    mac := code;
    if |code| != t.macSize {
      return false, mac;
    }
    PutMac(code, buf, hp, a, room, AfterMac(originalId));
    return true, mac;
  }

  lemma HeaderId(id: int, rd: bool, cd: bool, ar: nat, body: seq<Byte>)
    ensures var w := Header(id, rd, cd, ar) + body;
            |w| >= 2 && AfterMac(w[0] as int * 256 + w[1] as int) == AfterMac(id)
  {
    var h := Header(id, rd, cd, ar);
    var w := h + body;
    assert w[0] == h[0] && w[1] == h[1];
    assert h[0] as int * 256 + h[1] as int == id % 0x10000;
  }

  lemma CdSet(w: seq<Byte>, id: int, rd: bool, ar: nat, body: seq<Byte>)
    requires w == Header(id, rd, false, ar) + body
    ensures |w| > 3 && w[3 := 16] == Header(id, rd, true, ar) + body
  {
    var h := Header(id, rd, false, ar);
    assert h[3 := 16] == Header(id, rd, true, ar);
    assert w[3 := 16] == h[3 := 16] + body;
  }

  /** The unsigned query in the buffer of res_create_query_payload, which is large enough for any. */
  method BuildQuery(text: seq<Byte>, qclass: int, qtype: int, id: int, o: Options) returns (query: Option<seq<Byte>>)
    requires Text.Ordinary(text)
    ensures query == match NameOf(text)
                     case None => None
                     case Some(n) => Some(Unsigned(n, qtype, qclass, id, o))
  {
    hide Text.Scan, Encode, WireLen, Header, OptRecord, ValidLabels;
    var buf := new Byte[QUERY_LIMIT];
    var rc, length := ResValNmkquery(text, qclass, qtype, id, o.recurse, buf);
    if rc == -1 {
      return None;
    }
    ghost var n := NameOf(text).value;
    ghost var ar, body := 0, Question(n, qtype, qclass);
    hide Question;
    if o.setDo {
      rc, length := ResValNopt(o.edns, buf, length, id, o.recurse, false, ar, body);
      ar, body := 1, body + OptRecord(o.edns);
    }
    if o.setCd {
      CdSet(buf[..length], id, o.recurse, ar, body);
      ghost var w := buf[..length];
      buf[3] := 16;
      assert buf[..length] == w[3 := 16];
    }
    UnsignedIs(n, qtype, qclass, id, o);
    return Some(buf[..length]);
  }

  lemma UnsignedIs(n: Name, qtype: int, qclass: int, id: int, o: Options)
    requires ValidLabels(n)
    ensures Unsigned(n, qtype, qclass, id, o) ==
              Header(id, o.recurse, o.setCd, if o.setDo then 1 else 0)
              + if o.setDo then Question(n, qtype, qclass) + OptRecord(o.edns) else Question(n, qtype, qclass)
  {
    hide Header, Question, OptRecord;
    var h, q := Header(id, o.recurse, o.setCd, if o.setDo then 1 else 0), Question(n, qtype, qclass);
    assert h + q + OptRecord(o.edns) == h + (q + OptRecord(o.edns));
    assert h + q + [] == h + q;
  }

  /** What res_create_query_payload is to give for a name. */
  function Payload(n: Name, qtype: int, qclass: int, id: int, o: Options, tsig: Option<Tsig>, now: int, hmac: Hmac)
    : (w: Option<seq<Byte>>)
    requires ValidLabels(n) && (tsig.Some? ==> ValidTsig(tsig.value))
  {
    if tsig.None? then Some(Unsigned(n, qtype, qclass, id, o))
    else
      var t := tsig.value;
      if t.algorithm != Unknown && |Mac(n, qtype, qclass, id, o, t, now, hmac)| == t.macSize
      then Some(Signed(n, qtype, qclass, id, o, t, now, hmac)) else None
  }

  /**
   res_create_query_payload: every payload it makes is one message for the parser, with one
   question, no answers and the OPT and TSIG records as its additional records, and the question
   gives back the name that the text stands for, the type and the class.
  */
  method ResCreateQueryPayload(text: seq<Byte>, qclass: nat, qtype: nat, id: int, o: Options, tsig: Option<Tsig>,
                               now: int, hmac: Hmac)
    returns (signed: Option<seq<Byte>>)
    requires Text.Ordinary(text) && qclass < 0x10000 && qtype < 0x10000 && (tsig.Some? ==> ValidTsig(tsig.value))
    ensures NameOf(text).None? ==> signed == None
    ensures NameOf(text).Some? ==> signed == Payload(NameOf(text).value, qtype, qclass, id, o, tsig, now, hmac)
    ensures signed.Some? ==>
              IsQuery(signed.value, NameOf(text).value, qtype, qclass, id,
                      (if o.setDo then 1 else 0) + if tsig.Some? then 1 else 0)
  {
    var query := BuildQuery(text, qclass, qtype, id, o);
    if query.None? {
      return None;
    }
    ghost var n := NameOf(text).value;
    hide Text.Scan, Encode, WireLen, Header, Question, OptRecord, IsQuery, TsigRecord, Digested;
    if tsig.None? {
      UnsignedParses(n, qtype, qclass, id, o);
      return query;
    }
    var t := tsig.value;
    var rdatalen, bufSize := TsigLengths(t);
    UnsignedIs(n, qtype, qclass, id, o);
    ghost var ar: nat := if o.setDo then 1 else 0;
    ghost var body := if o.setDo then Question(n, qtype, qclass) + OptRecord(o.edns) else Question(n, qtype, qclass);
    signed := ResTsigSign(query.value, t, rdatalen, bufSize, now, hmac, id, o.recurse, o.setCd, ar, body);
    SignedFrom(n, qtype, qclass, id, o, t, now, hmac);
    if signed.Some? {
      SignedParses(n, qtype, qclass, id, o, t, now, hmac);
    }
  }

  lemma SignedFrom(n: Name, qtype: int, qclass: int, id: int, o: Options, t: Tsig, now: int, hmac: Hmac)
    requires ValidLabels(n) && ValidTsig(t)
    ensures Signed(n, qtype, qclass, id, o, t, now, hmac) ==
              Header(id, o.recurse, o.setCd, if o.setDo then 2 else 1)
              + (if o.setDo then Question(n, qtype, qclass) + OptRecord(o.edns) else Question(n, qtype, qclass))
              + TsigRecord(t, now, Mac(n, qtype, qclass, id, o, t, now, hmac), id)
  {
    hide Header, Question, OptRecord, TsigRecord, Unsigned, Digested;
    var h, q := Header(id, o.recurse, o.setCd, if o.setDo then 2 else 1), Question(n, qtype, qclass);
    assert h + q + OptRecord(o.edns) == h + (q + OptRecord(o.edns));
    assert h + q + [] == h + q;
  }
}
