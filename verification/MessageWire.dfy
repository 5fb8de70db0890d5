/**
 Whole messages: the header of section 4.1.1 of RFC 1035 (internal/protocol/header.go),
 Encode (encoder.go) and Decode (decoder.go), and the round trip between them.
 */
module MessageWire {
  import opened Octets
  import opened Names
  import opened NameWire
  import opened Records
  import opened RecordWire

  const HEADER_SIZE := 12
  const MAX_PACKET := 65535

  // ---- header ----

  function Bit(b: bool, weight: nat): nat {
    if b then weight else 0
  }

  function Flags(h: Header): uint16 {
    Bit(h.qr, 0x8000) + h.opcode % 16 * 0x800 + Bit(h.aa, 0x400) + Bit(h.tc, 0x200) + Bit(h.rd, 0x100) + Bit(h.ra, 0x80)
    + h.z % 8 * 16 + h.rcode % 16
  }

  function EncodeHeader(h: Header): (r: Bytes)
    ensures |r| == HEADER_SIZE
  {
    U16(h.id) + U16(Flags(h)) + U16(h.qdCount) + U16(h.anCount) + U16(h.nsCount) + U16(h.arCount)
  }

  function HasBit(flags: uint16, weight: nat): bool
    requires weight > 0
  {
    flags / weight % 2 == 1
  }

  function DecodeHeader(p: Bytes): Header
    requires |p| >= HEADER_SIZE
  {
    var f := ReadU16(p, 2);
    Header(ReadU16(p, 0), HasBit(f, 0x8000), f / 0x800 % 16, HasBit(f, 0x400), HasBit(f, 0x200), HasBit(f, 0x100),
           HasBit(f, 0x80), f / 16 % 8, f % 16, ReadU16(p, 4), ReadU16(p, 6), ReadU16(p, 8), ReadU16(p, 10))
  }

  /** The sub-fields that are narrower than their Go type lose their upper bits. */
  function Masked(h: Header): Header {
    h.(opcode := h.opcode % 16, z := h.z % 8, rcode := h.rcode % 16)
  }

  /** The digits of the upper octet of the flag word: QR, opcode, AA, TC, RD. */
  lemma HighOctet(f: int, qr: int, op: int, aa: int, tc: int, rd: int, lo: int)
    requires 0 <= qr < 2 && 0 <= op < 16 && 0 <= aa < 2 && 0 <= tc < 2 && 0 <= rd < 2 && 0 <= lo < 0x100
    requires f == qr * 0x8000 + op * 0x800 + aa * 0x400 + tc * 0x200 + rd * 0x100 + lo
    ensures f / 0x8000 == qr && f / 0x800 % 16 == op && f / 0x400 % 2 == aa && f / 0x200 % 2 == tc && f / 0x100 % 2 == rd
  {
    assert f / 0x100 == qr * 0x80 + op * 8 + aa * 4 + tc * 2 + rd;
    assert f / 0x200 == qr * 0x40 + op * 4 + aa * 2 + tc;
    assert f / 0x400 == qr * 0x20 + op * 2 + aa;
    assert f / 0x800 == qr * 0x10 + op;
  }

  /** The digits of the lower octet: RA, Z, RCODE. */
  lemma LowOctet(f: int, hi: int, ra: int, z: int, rc: int)
    requires 0 <= hi < 0x100 && 0 <= ra < 2 && 0 <= z < 8 && 0 <= rc < 16
    requires f == hi * 0x100 + ra * 0x80 + z * 16 + rc
    ensures f / 0x80 % 2 == ra && f / 16 % 8 == z && f % 16 == rc
  {
    assert f / 0x80 == hi * 2 + ra;
    assert f / 16 == hi * 16 + ra * 8 + z;
  }

  lemma FlagsBack(h: Header)
    ensures var f := Flags(h);
            && HasBit(f, 0x8000) == h.qr && f / 0x800 % 16 == h.opcode % 16 && HasBit(f, 0x400) == h.aa
            && HasBit(f, 0x200) == h.tc && HasBit(f, 0x100) == h.rd && HasBit(f, 0x80) == h.ra
            && f / 16 % 8 == h.z % 8 && f % 16 == h.rcode % 16
  {
    var f := Flags(h);
    var qr, op, aa, tc, rd := Bit(h.qr, 1), h.opcode % 16, Bit(h.aa, 1), Bit(h.tc, 1), Bit(h.rd, 1);
    var ra, z, rc := Bit(h.ra, 1), h.z % 8, h.rcode % 16;
    assert f == qr * 0x8000 + op * 0x800 + aa * 0x400 + tc * 0x200 + rd * 0x100 + (ra * 0x80 + z * 16 + rc);
    hide Flags;
    HighOctet(f, qr, op, aa, tc, rd, ra * 0x80 + z * 16 + rc);
    LowOctet(f, qr * 0x80 + op * 8 + aa * 4 + tc * 2 + rd, ra, z, rc);
  }

  /** Header fields survive: for every header, decoding the encoding gives it back masked. */
  lemma HeaderBack(p: Bytes, h: Header)
    requires At(p, 0, EncodeHeader(h))
    ensures |p| >= HEADER_SIZE && DecodeHeader(p) == Masked(h)
  {
    hide Flags;
    var a, b, c, d, e := U16(h.id), U16(Flags(h)), U16(h.qdCount), U16(h.anCount), U16(h.nsCount);
    AtSplit(p, 0, a + b + c + d + e, U16(h.arCount));
    AtSplit(p, 0, a + b + c + d, e);
    AtSplit(p, 0, a + b + c, d);
    AtSplit(p, 0, a + b, c);
    AtSplit(p, 0, a, b);
    AtU16(p, 0, h.id);
    AtU16(p, 2, Flags(h));
    AtU16(p, 4, h.qdCount);
    AtU16(p, 6, h.anCount);
    AtU16(p, 8, h.nsCount);
    AtU16(p, 10, h.arCount);
    FlagsBack(h);
  }

  /** And the other way: encoding a decoded header gives the same twelve octets. */
  lemma HeaderForth(p: Bytes)
    requires |p| >= HEADER_SIZE
    ensures EncodeHeader(DecodeHeader(p)) == p[..HEADER_SIZE]
  {
    var f := ReadU16(p, 2);
    FlagsForth(f, DecodeHeader(p));
    U16Forth(p, 0);
    U16Forth(p, 2);
    U16Forth(p, 4);
    U16Forth(p, 6);
    U16Forth(p, 8);
    U16Forth(p, 10);
  }

  lemma U16Forth(p: Bytes, i: nat)
    requires i + 2 <= |p|
    ensures U16(ReadU16(p, i)) == [p[i], p[i + 1]]
  {
  }

  lemma FlagsForth(f: uint16, h: Header)
    requires h.qr == HasBit(f, 0x8000) && h.opcode == f / 0x800 % 16 && h.aa == HasBit(f, 0x400)
    requires h.tc == HasBit(f, 0x200) && h.rd == HasBit(f, 0x100) && h.ra == HasBit(f, 0x80)
    requires h.z == f / 16 % 8 && h.rcode == f % 16
    ensures Flags(h) == f
  {
    hide HasBit, Bit;
    Digits(f);
    BitBack(f, 0x8000);
    BitBack(f, 0x400);
    BitBack(f, 0x200);
    BitBack(f, 0x100);
    BitBack(f, 0x80);
    FlagsSum(h, f / 0x8000 % 2, f / 0x800 % 16, f / 0x400 % 2, f / 0x200 % 2, f / 0x100 % 2, f / 0x80 % 2, f / 16 % 8, f % 16);
  }

  /** The flags are the sum of their parts, each at its weight. */
  lemma FlagsSum(h: Header, qr: nat, op: nat, aa: nat, tc: nat, rd: nat, ra: nat, z: nat, rc: nat)
    requires Bit(h.qr, 0x8000) == qr * 0x8000 && h.opcode == op < 16 && Bit(h.aa, 0x400) == aa * 0x400
    requires Bit(h.tc, 0x200) == tc * 0x200 && Bit(h.rd, 0x100) == rd * 0x100 && Bit(h.ra, 0x80) == ra * 0x80
    requires h.z == z < 8 && h.rcode == rc < 16
    ensures Flags(h) == qr * 0x8000 + op * 0x800 + aa * 0x400 + tc * 0x200 + rd * 0x100 + ra * 0x80 + z * 16 + rc
  {
  }

  lemma BitBack(f: uint16, weight: nat)
    requires weight > 0
    ensures Bit(HasBit(f, weight), weight) == f / weight % 2 * weight
  {
    var b := f / weight % 2;
    assert b == 0 || b == 1;
  }

  lemma Digits(f: uint16)
    ensures f == f / 0x8000 % 2 * 0x8000 + f / 0x800 % 16 * 0x800 + f / 0x400 % 2 * 0x400 + f / 0x200 % 2 * 0x200
                 + f / 0x100 % 2 * 0x100 + f / 0x80 % 2 * 0x80 + f / 16 % 8 * 16 + f % 16
  {
    var q0, q1, q2, q3, q4, q5, q6 := f / 16, f / 0x80, f / 0x100, f / 0x200, f / 0x400, f / 0x800, f / 0x8000;
    assert q1 == q0 / 8;
    assert q2 == q1 / 2;
    assert q3 == q2 / 2;
    assert q4 == q3 / 2;
    assert q5 == q4 / 2;
    assert q6 == q5 / 16;
  }

  // ---- writing ----

  function PutQuestion(pos: nat, q: Question, table: Table): Result<Written> {
    var name :- PutName(pos, q.name, table);
    Ok(Written(name.bytes + (U16(q.typ) + U16(q.class_)), name.table))
  }

  function PutQuestions(pos: nat, qs: seq<Question>, table: Table): Result<Written> {
    if qs == [] then Ok(Written([], table))
    else
      var init :- PutQuestions(pos, qs[..|qs| - 1], table);
      var last :- PutQuestion(pos + |init.bytes|, qs[|qs| - 1], init.table);
      Ok(Written(init.bytes + last.bytes, last.table))
  }

  function PutRecords(pos: nat, rrs: seq<ResourceRecord>, table: Table): Result<Written> {
    if rrs == [] then Ok(Written([], table))
    else
      var init :- PutRecords(pos, rrs[..|rrs| - 1], table);
      var last :- PutRecord(pos + |init.bytes|, rrs[|rrs| - 1], init.table);
      Ok(Written(init.bytes + last.bytes, last.table))
  }

  predicate SectionsFit(m: Message) {
    |m.questions| <= 65535 && |m.answers| <= 65535 && |m.authorities| <= 65535 && |m.additionals| <= 65535
  }

  /** NormalizeCounts: the header counts become the section lengths. */
  function NormalizeCounts(m: Message): Message
    requires SectionsFit(m)
  {
    m.(header := m.header.(qdCount := |m.questions|, anCount := |m.answers|,
                           nsCount := |m.authorities|, arCount := |m.additionals|))
  }

  /** The four sections one after the other, after a header of twelve octets. */
  function PutSections(m: Message): Result<Written> {
    var q :- PutQuestions(HEADER_SIZE, m.questions, map[]);
    var pos := HEADER_SIZE + |q.bytes|;
    var an :- PutRecords(pos, m.answers, q.table);
    var ns :- PutRecords(pos + |an.bytes|, m.authorities, an.table);
    var ar :- PutRecords(pos + |an.bytes| + |ns.bytes|, m.additionals, ns.table);
    Ok(Written(q.bytes + an.bytes + ns.bytes + ar.bytes, ar.table))
  }

  function Encode(m: Message): (r: Result<Bytes>)
    ensures r.Ok? ==> HEADER_SIZE <= |r.value| <= MAX_PACKET
  {
    if !SectionsFit(m) then Err
    else
      var sections :- PutSections(m);
      if HEADER_SIZE + |sections.bytes| > MAX_PACKET then Err
      else Ok(EncodeHeader(NormalizeCounts(m).header) + sections.bytes)
  }

  // ---- reading ----

  function ReadQuestion(p: Bytes, off: nat): (r: Result<Read<Question>>)
    ensures r.Ok? ==> off + 5 <= r.value.next <= |p|
  {
    var name :- ReadName(p, off);
    ReadNameNext(p, p, off);
    var n := name.next;
    if n + 4 > |p| then Err
    else Ok(Read(Question(name.text, ReadU16(p, n), ReadU16(p, n + 2)), n + 4))
  }

  function ReadQuestions(p: Bytes, off: nat, n: nat): (r: Result<Read<seq<Question>>>)
    ensures r.Ok? ==> |r.value.value| == n && off + 5 * n <= r.value.next && (n > 0 ==> r.value.next <= |p|)
    ensures r.Ok? && n == 0 ==> r.value.next == off
  {
    if n == 0 then Ok(Read([], off))
    else
      var init :- ReadQuestions(p, off, n - 1);
      var last :- ReadQuestion(p, init.next);
      Ok(Read(init.value + [last.value], last.next))
  }

  function ReadRecords(p: Bytes, off: nat, n: nat): (r: Result<Read<seq<ResourceRecord>>>)
    ensures r.Ok? ==> |r.value.value| == n && off + 11 * n <= r.value.next && (n > 0 ==> r.value.next <= |p|)
    ensures r.Ok? && n == 0 ==> r.value.next == off
  {
    if n == 0 then Ok(Read([], off))
    else
      var init :- ReadRecords(p, off, n - 1);
      var last :- ReadRecord(p, init.next);
      Ok(Read(init.value + [last.value], last.next))
  }

  function Decode(p: Bytes): Result<Message> {
    if |p| < HEADER_SIZE || |p| > MAX_PACKET then Err
    else
      var h := DecodeHeader(p);
      var q :- ReadQuestions(p, HEADER_SIZE, h.qdCount);
      var an :- ReadRecords(p, q.next, h.anCount);
      var ns :- ReadRecords(p, an.next, h.nsCount);
      var ar :- ReadRecords(p, ns.next, h.arCount);
      if ar.next > |p| then Err else Ok(Message(h, q.value, an.value, ns.value, ar.value))
  }

  /** Whatever octets arrive, a decoded message has the announced sections and fits the packet. */
  lemma DecodeFits(p: Bytes)
    requires Decode(p).Ok?
    ensures var m := Decode(p).value;
            && m == NormalizeCounts(m)
            && HEADER_SIZE + 5 * |m.questions| + 11 * (|m.answers| + |m.authorities| + |m.additionals|) <= |p| <= MAX_PACKET
  {
    hide ReadQuestions, ReadRecords;
  }

  // ---- reading undoes writing ----

  /**
   `e` is what `rr` must come back as: its name, type, class and TTL, and its RDATA when that is
   of the kind the type announces.
   */
  ghost predicate SameRecord(rr: ResourceRecord, e: ResourceRecord, lc: bool) {
    && SameName(rr.name, e.name, lc)
    && e.typ == rr.typ && e.class_ == rr.class_ && e.ttl == rr.ttl
    && (DataFits(rr) ==> DataKept(rr, e, lc))
  }

  ghost predicate DataKept(rr: ResourceRecord, e: ResourceRecord, lc: bool) {
    rr.data.Some? && e.data.Some? && SameData(rr.data.value, e.data.value, lc)
  }

  ghost predicate LowerRecord(rr: ResourceRecord) {
    IsLower(rr.name) && (rr.data.Some? ==> LowerData(rr.data.value))
  }

  lemma RecordBack(p: Bytes, off: nat, rr: ResourceRecord, table: Table, w: Written, lc: bool)
    requires PutRecord(off, rr, table) == Ok(w) && At(p, off, w.bytes)
    requires (lc ==> LowerRecord(rr)) && TableOk(p, off, table, lc)
    ensures TableOk(p, off + |w.bytes|, w.table, lc)
    ensures ReadRecord(p, off).Ok? && ReadRecord(p, off).value.next == off + |w.bytes|
    ensures SameRecord(rr, ReadRecord(p, off).value.value, lc)
    ensures rr.data.None? ==> ReadRecord(p, off).value.value.raw == rr.raw
  {
    hide PutName, PutRData, ReadName, SameName, IsLower, TableOk, ParseRData, SameData, LayoutOf, DataFits, LowerData;
    var name := PutName(off, rr.name, table).value;
    var pos := off + |name.bytes|;
    var start := pos + 10;
    var rdata := PutRData(start, rr.data, rr.raw, name.table).value;
    var head := RecordHead(rr, |rdata.bytes|);
    AtSplit(p, off, name.bytes + head, rdata.bytes);
    AtSplit(p, off, name.bytes, head);
    PutNameReads(p, off, rr.name, table, name, lc);
    HeadBack(p, pos, rr, |rdata.bytes|);
    TableOkLater(p, pos, start, name.table, lc);
    RDataKeeps(p, start, rr.data, rr.raw, name.table, rdata, lc);
    AtBound(p, start, rdata.bytes);
    if DataFits(rr) {
      DataBack(p, start, rr, name.table, rdata, lc);
    }
    RawBack(p, start, rr, name.table, rdata);
  }

  /** A record without RDATA is written from its raw octets, which are found where they stand. */
  lemma RawBack(p: Bytes, start: nat, rr: ResourceRecord, table: Table, w: Written)
    requires PutRData(start, rr.data, rr.raw, table) == Ok(w) && At(p, start, w.bytes) && start + |w.bytes| <= |p|
    ensures rr.data.None? ==> p[start..start + |w.bytes|] == rr.raw
  {
    AtSlice(p, start, w.bytes);
  }

  lemma HeadBack(p: Bytes, pos: nat, rr: ResourceRecord, rdLen: uint16)
    requires At(p, pos, RecordHead(rr, rdLen))
    ensures pos + 10 <= |p| && ReadU16(p, pos) == rr.typ && ReadU16(p, pos + 2) == rr.class_
    ensures ReadU32(p, pos + 4) == rr.ttl && ReadU16(p, pos + 8) == rdLen
  {
    var a, b, c := U16(rr.typ), U16(rr.class_), U32(rr.ttl);
    AtSplit(p, pos, a + b + c, U16(rdLen));
    AtSplit(p, pos, a + b, c);
    AtSplit(p, pos, a, b);
    AtU16(p, pos, rr.typ);
    AtU16(p, pos + 2, rr.class_);
    AtU32(p, pos + 4, rr.ttl);
    AtU16(p, pos + 8, rdLen);
  }

  /** The RDATA part of a record: the OPT record takes it whole, all others parse it. */
  lemma DataBack(p: Bytes, start: nat, rr: ResourceRecord, table: Table, w: Written, lc: bool)
    requires PutRData(start, rr.data, rr.raw, table) == Ok(w) && At(p, start, w.bytes)
    requires DataFits(rr) && (lc ==> LowerRecord(rr)) && TableOk(p, start, table, lc)
    ensures rr.data.Some? && TableOk(p, start + |w.bytes|, w.table, lc) && start + |w.bytes| <= |p|
    ensures rr.typ == TYPE_OPT ==> SameData(rr.data.value, OptFromHeader(rr.class_, rr.ttl, p[start..start + |w.bytes|]), lc)
    ensures rr.typ != TYPE_OPT ==> ParsesTo(p, start, |w.bytes|, rr.typ, rr.data.value, lc)
  {
    AtBound(p, start, w.bytes);
    if rr.typ == TYPE_OPT {
      OptBack(p, start, rr, table, w, lc);
    } else {
      hide LayoutOf, DataFits, ParsesTo, PutLayout, LayoutAt, TableOk, IsLower;
      PutLayoutReads(p, start, LayoutOf(rr.data.value).value, table, w, lc);
      RDataBack(p, start, |w.bytes|, rr, lc);
    }
  }

  lemma OptBack(p: Bytes, start: nat, rr: ResourceRecord, table: Table, w: Written, lc: bool)
    requires PutRData(start, rr.data, rr.raw, table) == Ok(w) && At(p, start, w.bytes)
    requires DataFits(rr) && rr.typ == TYPE_OPT && TableOk(p, start, table, lc)
    ensures TableOk(p, start + |w.bytes|, w.table, lc) && start + |w.bytes| <= |p|
    ensures SameData(rr.data.value, OptFromHeader(rr.class_, rr.ttl, p[start..start + |w.bytes|]), lc)
  {
    hide EntryOk;
    var options := rr.data.value.options;
    assert PutNames(start + |options|, [], table) == Ok(Written([], table));
    assert options + [] + [] == options;
    assert w == Written(options, table);
    AtSlice(p, start, options);
  }

  ghost predicate SameQuestion(q: Question, e: Question, lc: bool) {
    SameName(q.name, e.name, lc) && e.typ == q.typ && e.class_ == q.class_
  }

  lemma QuestionBack(p: Bytes, off: nat, q: Question, table: Table, w: Written, lc: bool)
    requires PutQuestion(off, q, table) == Ok(w) && At(p, off, w.bytes)
    requires (lc ==> IsLower(q.name)) && TableOk(p, off, table, lc)
    ensures TableOk(p, off + |w.bytes|, w.table, lc)
    ensures ReadQuestion(p, off).Ok? && ReadQuestion(p, off).value.next == off + |w.bytes|
    ensures SameQuestion(q, ReadQuestion(p, off).value.value, lc)
  {
    hide PutName, ReadName, SameName, IsLower, TableOk, At;
    var name := PutName(off, q.name, table).value;
    var pos := off + |name.bytes|;
    AtSplit(p, off, name.bytes, U16(q.typ) + U16(q.class_));
    AtSplit(p, pos, U16(q.typ), U16(q.class_));
    PutNameReads(p, off, q.name, table, name, lc);
    AtU16(p, pos, q.typ);
    AtU16(p, pos + 2, q.class_);
    TableOkLater(p, pos, pos + 4, name.table, lc);
  }

  ghost predicate SameQuestions(qs: seq<Question>, es: seq<Question>, lc: bool) {
    |es| == |qs| && forall i :: 0 <= i < |qs| ==> SameQuestion(qs[i], es[i], lc)
  }

  lemma {:induction false} QuestionsBack(p: Bytes, off: nat, qs: seq<Question>, table: Table, w: Written, lc: bool)
    requires PutQuestions(off, qs, table) == Ok(w) && At(p, off, w.bytes)
    requires lc ==> forall i :: 0 <= i < |qs| ==> IsLower(qs[i].name)
    requires TableOk(p, off, table, lc)
    ensures TableOk(p, off + |w.bytes|, w.table, lc)
    ensures ReadQuestions(p, off, |qs|).Ok? && ReadQuestions(p, off, |qs|).value.next == off + |w.bytes|
    ensures SameQuestions(qs, ReadQuestions(p, off, |qs|).value.value, lc)
  {
    hide PutQuestion, ReadQuestion, SameQuestion, IsLower, TableOk, At;
    if qs != [] {
      var n := |qs| - 1;
      var init := PutQuestions(off, qs[..n], table).value;
      var last := PutQuestion(off + |init.bytes|, qs[n], init.table).value;
      AtSplit(p, off, init.bytes, last.bytes);
      QuestionsBack(p, off, qs[..n], table, init, lc);
      QuestionBack(p, off + |init.bytes|, qs[n], init.table, last, lc);
    }
  }

  ghost predicate SameRecords(rrs: seq<ResourceRecord>, es: seq<ResourceRecord>, lc: bool) {
    |es| == |rrs| && forall i :: 0 <= i < |rrs| ==> SameRecord(rrs[i], es[i], lc)
  }

  ghost predicate AllFit(rrs: seq<ResourceRecord>) {
    forall i :: 0 <= i < |rrs| ==> DataFits(rrs[i])
  }

  ghost predicate AllLower(rrs: seq<ResourceRecord>) {
    forall i :: 0 <= i < |rrs| ==> LowerRecord(rrs[i])
  }

  lemma {:induction false} RecordsBack(p: Bytes, off: nat, rrs: seq<ResourceRecord>, table: Table, w: Written, lc: bool)
    requires PutRecords(off, rrs, table) == Ok(w) && At(p, off, w.bytes)
    requires lc ==> AllLower(rrs)
    requires TableOk(p, off, table, lc)
    ensures TableOk(p, off + |w.bytes|, w.table, lc)
    ensures ReadRecords(p, off, |rrs|).Ok? && ReadRecords(p, off, |rrs|).value.next == off + |w.bytes|
    ensures SameRecords(rrs, ReadRecords(p, off, |rrs|).value.value, lc)
  {
    hide PutRecord, ReadRecord, SameRecord, DataFits, LowerRecord, TableOk, At;
    if rrs != [] {
      var n := |rrs| - 1;
      var init := PutRecords(off, rrs[..n], table).value;
      var last := PutRecord(off + |init.bytes|, rrs[n], init.table).value;
      AtSplit(p, off, init.bytes, last.bytes);
      RecordsBack(p, off, rrs[..n], table, init, lc);
      RecordBack(p, off + |init.bytes|, rrs[n], init.table, last, lc);
    }
  }

  /** Every record of the message carries RDATA of the kind its type announces. */
  ghost predicate MessageFits(m: Message) {
    AllFit(m.answers) && AllFit(m.authorities) && AllFit(m.additionals)
  }

  /** Every name in the message is written in lower case. */
  ghost predicate LowerMessage(m: Message) {
    && (forall i :: 0 <= i < |m.questions| ==> IsLower(m.questions[i].name))
    && AllLower(m.answers) && AllLower(m.authorities) && AllLower(m.additionals)
  }

  /**
   `e` is `m` with normalised counts, masked header fields, and every name trimmed and fully
   qualified; names agree up to ASCII case, or exactly with `lc`. RDATA is as SameRecord says.
   */
  ghost predicate SameMessage(m: Message, e: Message, lc: bool) {
    && SectionsFit(m)
    && e.header == Masked(NormalizeCounts(m).header)
    && SameQuestions(m.questions, e.questions, lc)
    && SameRecords(m.answers, e.answers, lc)
    && SameRecords(m.authorities, e.authorities, lc)
    && SameRecords(m.additionals, e.additionals, lc)
  }

  /** The sections of an encoded message are read back in turn, to the end of the packet. */
  lemma SectionsBack(p: Bytes, m: Message, w: Written, lc: bool)
    requires PutSections(m) == Ok(w) && At(p, HEADER_SIZE, w.bytes)
    requires lc ==> LowerMessage(m)
    ensures TableOk(p, HEADER_SIZE + |w.bytes|, w.table, lc) && EntriesDecode(p, w.table)
    ensures var q := ReadQuestions(p, HEADER_SIZE, |m.questions|);
            && q.Ok? && SameQuestions(m.questions, q.value.value, lc)
            && var an := ReadRecords(p, q.value.next, |m.answers|);
            && an.Ok? && SameRecords(m.answers, an.value.value, lc)
            && var ns := ReadRecords(p, an.value.next, |m.authorities|);
            && ns.Ok? && SameRecords(m.authorities, ns.value.value, lc)
            && var ar := ReadRecords(p, ns.value.next, |m.additionals|);
            && ar.Ok? && SameRecords(m.additionals, ar.value.value, lc)
            && ar.value.next == HEADER_SIZE + |w.bytes|
  {
    hide PutQuestions, PutRecords, ReadQuestions, ReadRecords, SameQuestions, SameRecords, AllLower, At, EntryOk, EntriesDecode;
    var pos := HEADER_SIZE;
    var q := PutQuestions(pos, m.questions, map[]).value;
    var posAn := pos + |q.bytes|;
    var an := PutRecords(posAn, m.answers, q.table).value;
    var posNs := posAn + |an.bytes|;
    var ns := PutRecords(posNs, m.authorities, an.table).value;
    var posAr := posNs + |ns.bytes|;
    var ar := PutRecords(posAr, m.additionals, ns.table).value;
    AtSplit(p, pos, q.bytes + an.bytes + ns.bytes, ar.bytes);
    AtSplit(p, pos, q.bytes + an.bytes, ns.bytes);
    AtSplit(p, pos, q.bytes, an.bytes);
    assert TableOk(p, pos, map[], lc);
    hide TableOk;
    QuestionsBack(p, pos, m.questions, map[], q, lc);
    RecordsBack(p, posAn, m.answers, q.table, an, lc);
    RecordsBack(p, posNs, m.authorities, an.table, ns, lc);
    RecordsBack(p, posAr, m.additionals, ns.table, ar, lc);
    TableDecodes(p, HEADER_SIZE + |w.bytes|, w.table, lc);
  }

  /**
   The round trip: every message that encodes, whatever its names, counts and header fields,
   decodes again to the same message, its RDATA included wherever that is of the kind announced.
   */
  lemma RoundTrip(m: Message, lc: bool)
    requires Encode(m).Ok?
    requires lc ==> LowerMessage(m)
    ensures Decode(Encode(m).value).Ok?
    ensures SameMessage(m, Decode(Encode(m).value).value, lc)
  {
    hide PutSections, ReadQuestions, ReadRecords, SameQuestions, SameRecords, EncodeHeader, DecodeHeader, At, TableOk,
      LowerMessage, EntriesDecode;
    var p := Encode(m).value;
    var h := NormalizeCounts(m).header;
    var w := PutSections(m).value;
    AtSlice(p, 0, p);
    assert p[0..|p|] == p;
    AtSplit(p, 0, EncodeHeader(h), w.bytes);
    HeaderBack(p, h);
    SectionsBack(p, m, w, lc);
  }

  // ---- exactly which messages survive ----

  /** decodeResourceRecord attaches RDATA only of the kind the type announces. */
  lemma ReadRecordFits(p: Bytes, off: nat)
    requires ReadRecord(p, off).Ok? && ReadRecord(p, off).value.value.data.Some?
    ensures DataFits(ReadRecord(p, off).value.value)
  {
    hide ReadName, ReadTexts, ReadU16, ReadU32;
  }

  lemma {:induction false} ReadRecordsFit(p: Bytes, off: nat, n: nat)
    requires ReadRecords(p, off, n).Ok?
    ensures forall i :: 0 <= i < n ==> var rr := ReadRecords(p, off, n).value.value[i]; rr.data.Some? ==> DataFits(rr)
  {
    hide ReadRecord, DataFits;
    if n > 0 {
      ReadRecordsFit(p, off, n - 1);
      var at := ReadRecords(p, off, n - 1).value.next;
      if ReadRecord(p, at).value.value.data.Some? {
        ReadRecordFits(p, at);
      }
    }
  }

  /** The RDATA of every record has come back. */
  ghost predicate AllKept(rrs: seq<ResourceRecord>, es: seq<ResourceRecord>, lc: bool) {
    |es| == |rrs| && forall i :: 0 <= i < |rrs| ==> DataKept(rrs[i], es[i], lc)
  }

  ghost predicate MessageKept(m: Message, e: Message, lc: bool) {
    AllKept(m.answers, e.answers, lc) && AllKept(m.authorities, e.authorities, lc) && AllKept(m.additionals, e.additionals, lc)
  }

  lemma KeptFits(rr: ResourceRecord, e: ResourceRecord, lc: bool)
    requires SameRecord(rr, e, lc) && (e.data.Some? ==> DataFits(e))
    ensures DataFits(rr) <==> DataKept(rr, e, lc)
  {
    hide SameName;
  }

  /** In a section that was read, RDATA has come back exactly where it was of the kind announced. */
  lemma SectionKept(rrs: seq<ResourceRecord>, p: Bytes, off: nat, lc: bool)
    requires ReadRecords(p, off, |rrs|).Ok?
    requires SameRecords(rrs, ReadRecords(p, off, |rrs|).value.value, lc)
    ensures AllFit(rrs) <==> AllKept(rrs, ReadRecords(p, off, |rrs|).value.value, lc)
  {
    hide ReadRecords, SameRecord, DataFits, DataKept;
    ReadRecordsFit(p, off, |rrs|);
    var es := ReadRecords(p, off, |rrs|).value.value;
    forall i | 0 <= i < |rrs|
      ensures DataFits(rrs[i]) <==> DataKept(rrs[i], es[i], lc)
    {
      KeptFits(rrs[i], es[i], lc);
    }
  }

  /**
   All RDATA of a message that encodes comes back if and only if every record's RDATA is of the
   kind its type announces.
   */
  lemma RoundTripExactly(m: Message)
    requires Encode(m).Ok?
    ensures Decode(Encode(m).value).Ok?
    ensures MessageFits(m) <==> MessageKept(m, Decode(Encode(m).value).value, false)
  {
    hide Encode, ReadQuestions, ReadRecords, SameQuestions, SameRecords, AllFit, AllKept, DecodeHeader;
    RoundTrip(m, false);
    var p := Encode(m).value;
    var h := DecodeHeader(p);
    var q := ReadQuestions(p, HEADER_SIZE, h.qdCount).value;
    var an := ReadRecords(p, q.next, h.anCount).value;
    var ns := ReadRecords(p, an.next, h.nsCount).value;
    SectionKept(m.answers, p, q.next, false);
    SectionKept(m.authorities, p, an.next, false);
    SectionKept(m.additionals, p, ns.next, false);
  }

  // ---- again and again ----

  lemma SameNameTwice(a: Bytes, b: Bytes, c: Bytes)
    requires SameName(a, b, false) && SameName(b, c, false)
    ensures SameName(a, c, false)
  {
    hide CanonicalName, ToLower;
  }

  lemma SameDataTwice(a: RData, b: RData, c: RData)
    requires SameData(a, b, false) && SameData(b, c, false)
    ensures SameData(a, c, false)
  {
    hide SameName;
    match a
    case CNAMEData(n) => SameNameTwice(n, b.cname, c.cname);
    case NSData(n) => SameNameTwice(n, b.nsName, c.nsName);
    case PTRData(n) => SameNameTwice(n, b.ptrName, c.ptrName);
    case MXData(_, n) => SameNameTwice(n, b.exchange, c.exchange);
    case SOAData(m, r, _, _, _, _, _) =>
      SameNameTwice(m, b.mname, c.mname);
      SameNameTwice(r, b.rname, c.rname);
    case SRVData(_, _, _, n) => SameNameTwice(n, b.target, c.target);
    case RRSIGData(_, _, _, _, _, _, _, n, _) => SameNameTwice(n, b.signerName, c.signerName);
    case NSECData(n, _) => SameNameTwice(n, b.nextDomain, c.nextDomain);
    case _ =>
  }

  lemma KeptStillFits(a: ResourceRecord, b: ResourceRecord)
    requires SameRecord(a, b, false) && DataFits(a)
    ensures DataFits(b)
  {
    hide SameName;
  }

  lemma SameRecordTwice(a: ResourceRecord, b: ResourceRecord, c: ResourceRecord)
    requires SameRecord(a, b, false) && SameRecord(b, c, false)
    ensures SameRecord(a, c, false)
  {
    hide DataFits, SameData, SameName;
    SameNameTwice(a.name, b.name, c.name);
    if DataFits(a) {
      KeptStillFits(a, b);
      SameDataTwice(a.data.value, b.data.value, c.data.value);
    }
  }

  lemma SameRecordsTwice(a: seq<ResourceRecord>, b: seq<ResourceRecord>, c: seq<ResourceRecord>)
    requires SameRecords(a, b, false) && SameRecords(b, c, false)
    ensures SameRecords(a, c, false)
  {
    hide SameRecord;
    forall i | 0 <= i < |a|
      ensures SameRecord(a[i], c[i], false)
    {
      SameRecordTwice(a[i], b[i], c[i]);
    }
  }

  lemma SameQuestionsTwice(a: seq<Question>, b: seq<Question>, c: seq<Question>)
    requires SameQuestions(a, b, false) && SameQuestions(b, c, false)
    ensures SameQuestions(a, c, false)
  {
    hide SameName;
    forall i | 0 <= i < |a|
      ensures SameQuestion(a[i], c[i], false)
    {
      assert SameQuestion(a[i], b[i], false) && SameQuestion(b[i], c[i], false);
      SameNameTwice(a[i].name, b[i].name, c[i].name);
    }
  }

  /** What comes back of what came back is still the message. */
  lemma SameMessageTwice(a: Message, b: Message, c: Message)
    requires SameMessage(a, b, false) && SameMessage(b, c, false)
    ensures SameMessage(a, c, false)
  {
    SameQuestionsTwice(a.questions, b.questions, c.questions);
    SameRecordsTwice(a.answers, b.answers, c.answers);
    SameRecordsTwice(a.authorities, b.authorities, c.authorities);
    SameRecordsTwice(a.additionals, b.additionals, c.additionals);
    hide SameRecord, SameQuestion;
  }

  // ---- equality on canonical messages ----

  function StripRecord(rr: ResourceRecord): ResourceRecord {
    rr.(raw := [])
  }

  function StripRecords(rrs: seq<ResourceRecord>): seq<ResourceRecord> {
    seq(|rrs|, i requires 0 <= i < |rrs| => StripRecord(rrs[i]))
  }

  /** The message without its RawRData copies. */
  function StripRaw(m: Message): Message {
    m.(answers := StripRecords(m.answers), authorities := StripRecords(m.authorities),
       additionals := StripRecords(m.additionals))
  }

  ghost predicate CanonicalData(d: RData) {
    LayoutOf(d).Ok? && forall i :: 0 <= i < |LayoutOf(d).value.names| ==>
                                     CanonicalName(LayoutOf(d).value.names[i]) == LayoutOf(d).value.names[i]
  }

  ghost predicate CanonicalRecord(rr: ResourceRecord) {
    CanonicalName(rr.name) == rr.name && (rr.data.Some? ==> CanonicalData(rr.data.value))
  }

  ghost predicate CanonicalRecords(rrs: seq<ResourceRecord>) {
    forall i :: 0 <= i < |rrs| ==> CanonicalRecord(rrs[i])
  }

  /** Names are trimmed and fully qualified, and header fields are within their width. */
  ghost predicate CanonicalMessage(m: Message) {
    && m.header == Masked(m.header)
    && (forall i :: 0 <= i < |m.questions| ==> CanonicalName(m.questions[i].name) == m.questions[i].name)
    && CanonicalRecords(m.answers) && CanonicalRecords(m.authorities) && CanonicalRecords(m.additionals)
  }

  lemma SameDataEqual(d: RData, e: RData)
    requires SameData(d, e, true) && CanonicalData(d)
    ensures e == d
  {
    hide CanonicalName, ToLower, TextBytes, U16, U32;
    var names := LayoutOf(d).value.names;
    if |names| > 0 {
      assert CanonicalName(names[0]) == names[0];
    }
    if |names| > 1 {
      assert CanonicalName(names[1]) == names[1];
    }
  }

  lemma SameRecordsEqual(rrs: seq<ResourceRecord>, es: seq<ResourceRecord>)
    requires SameRecords(rrs, es, true) && AllFit(rrs) && CanonicalRecords(rrs)
    ensures StripRecords(es) == StripRecords(rrs)
  {
    hide CanonicalData, SameData, CanonicalName, ToLower;
    forall i | 0 <= i < |rrs|
      ensures StripRecord(es[i]) == StripRecord(rrs[i])
    {
      assert SameRecord(rrs[i], es[i], true) && DataFits(rrs[i]) && CanonicalRecord(rrs[i]);
      SameDataEqual(rrs[i].data.value, es[i].data.value);
    }
  }

  /** For canonical messages in lower case the round trip is equality, apart from RawRData. */
  lemma RoundTripEqual(m: Message)
    requires Encode(m).Ok? && MessageFits(m) && LowerMessage(m) && CanonicalMessage(m)
    ensures Decode(Encode(m).value).Ok?
    ensures StripRaw(Decode(Encode(m).value).value) == StripRaw(NormalizeCounts(m))
  {
    hide Encode, Decode, CanonicalName, ToLower, AllFit, AllLower, SameRecords, CanonicalRecords, StripRecords, IsLower;
    RoundTrip(m, true);
    var e := Decode(Encode(m).value).value;
    SameRecordsEqual(m.answers, e.answers);
    SameRecordsEqual(m.authorities, e.authorities);
    SameRecordsEqual(m.additionals, e.additionals);
    forall i | 0 <= i < |m.questions|
      ensures e.questions[i] == m.questions[i]
    {
      assert SameQuestion(m.questions[i], e.questions[i], true);
    }
    assert e.questions == m.questions;
  }
}
