/**
 RDATA and records on the wire: encodeRData / parseRData (internal/protocol/rdata.go) and
 encodeResourceRecord / decodeResourceRecord, with the proof that reading undoes writing.
 */
module RecordWire {
  import opened Octets
  import opened NameWire
  import opened Records

  // ---- writing ----

  /** Every RDATA layout is: octets, then at most two names, then octets. */
  datatype Layout = Layout(pre: Bytes, names: seq<Bytes>, post: Bytes)

  function TextBytes(texts: seq<Bytes>): Bytes
    requires forall i :: 0 <= i < |texts| ==> |texts[i]| <= 255
  {
    if texts == [] then [] else [|texts[0]|] + texts[0] + TextBytes(texts[1..])
  }

  function LayoutOf(d: RData): Result<Layout> {
    match d
    case AData(a) => Ok(Layout(a, [], []))
    case AAAAData(a) => Ok(Layout(a, [], []))
    case CNAMEData(n) => Ok(Layout([], [n], []))
    case NSData(n) => Ok(Layout([], [n], []))
    case PTRData(n) => Ok(Layout([], [n], []))
    case MXData(pref, n) => Ok(Layout(U16(pref), [n], []))
    case SOAData(m, r, serial, refresh, retry, expire, minimum) =>
      Ok(Layout([], [m, r], U32(serial) + U32(refresh) + U32(retry) + U32(expire) + U32(minimum)))
    case TXTData(texts) =>
      if forall i :: 0 <= i < |texts| ==> |texts[i]| <= 255 then Ok(Layout(TextBytes(texts), [], [])) else Err
    case SRVData(prio, weight, port, n) => Ok(Layout(U16(prio) + U16(weight) + U16(port), [n], []))
    case CAAData(flags, tag, value) =>
      if |tag| > 255 then Err else Ok(Layout([flags, |tag|] + tag + value, [], []))
    case RRSIGData(covered, algo, labels, ttl, exp, inc, keyTag, signer, sig) =>
      Ok(Layout(U16(covered) + [algo, labels] + U32(ttl) + U32(exp) + U32(inc) + U16(keyTag), [signer], sig))
    case DNSKEYData(flags, proto, algo, key) => Ok(Layout(U16(flags) + [proto, algo] + key, [], []))
    case DSData(keyTag, algo, dtype, digest) => Ok(Layout(U16(keyTag) + [algo, dtype] + digest, [], []))
    case NSECData(n, bitmap) => Ok(Layout([], [n], bitmap))
    case NSEC3Data(algo, flags, iterations, salt, hashed, bitmap) =>
      if |salt| > 255 || |hashed| > 255 then Err
      else Ok(Layout([algo, flags] + U16(iterations) + [|salt|] + salt + [|hashed|] + hashed + bitmap, [], []))
    case OPTData(_, _, _, _, options) => Ok(Layout(options, [], []))
    case UnknownData(_, data) => Ok(Layout(data, [], []))
  }

  function PutNames(pos: nat, names: seq<Bytes>, table: Table): Result<Written>
    decreases |names|
  {
    if names == [] then Ok(Written([], table))
    else
      var first :- PutName(pos, names[0], table);
      var rest :- PutNames(pos + |first.bytes|, names[1..], first.table);
      Ok(Written(first.bytes + rest.bytes, rest.table))
  }

  function PutLayout(pos: nat, l: Layout, table: Table): Result<Written> {
    var w :- PutNames(pos + |l.pre|, l.names, table);
    Ok(Written(l.pre + w.bytes + l.post, w.table))
  }

  /** encodeRData: nil data falls back to the raw octets. */
  function PutRData(pos: nat, data: Option<RData>, raw: Bytes, table: Table): Result<Written> {
    match data
    case None => Ok(Written(raw, table))
    case Some(d) =>
      var l :- LayoutOf(d);
      PutLayout(pos, l, table)
  }

  function RecordHead(rr: ResourceRecord, rdLen: uint16): (r: Bytes)
    ensures |r| == 10
  {
    U16(rr.typ) + U16(rr.class_) + U32(rr.ttl) + U16(rdLen)
  }

  function PutRecord(pos: nat, rr: ResourceRecord, table: Table): Result<Written> {
    var name :- PutName(pos, rr.name, table);
    var rdata :- PutRData(pos + |name.bytes| + 10, rr.data, rr.raw, name.table);
    if |rdata.bytes| > 65535 then Err
    else Ok(Written(name.bytes + RecordHead(rr, |rdata.bytes|) + rdata.bytes, rdata.table))
  }

  // ---- reading ----

  /** The loop of the TXT case. */
  function ReadTexts(p: Bytes, cur: nat, end: nat): Result<seq<Bytes>>
    requires end <= |p|
    decreases end - cur
  {
    if cur >= end then Ok([])
    else
      var next := cur + 1 + p[cur];
      if next > end then Err
      else
        var rest :- ReadTexts(p, next, end);
        Ok([p[cur + 1..next]] + rest)
  }

  function ParseSOA(p: Bytes, off: nat, end: nat): Result<RData>
    requires end <= |p|
  {
    var m :- ReadName(p, off);
    var r :- ReadName(p, m.next);
    var n := r.next;
    if n + 20 > end then Err
    else Ok(SOAData(m.text, r.text, ReadU32(p, n), ReadU32(p, n + 4), ReadU32(p, n + 8), ReadU32(p, n + 12), ReadU32(p, n + 16)))
  }

  function ParseCAA(p: Bytes, off: nat, end: nat): Result<RData>
    requires off + 2 <= end <= |p|
  {
    var tagEnd := off + 2 + p[off + 1];
    if tagEnd > end then Err else Ok(CAAData(p[off], p[off + 2..tagEnd], p[tagEnd..end]))
  }

  function ParseRRSIG(p: Bytes, off: nat, end: nat): Result<RData>
    requires off + 18 <= end <= |p|
  {
    var signer :- ReadName(p, off + 18);
    if signer.next > end then Err
    else Ok(RRSIGData(ReadU16(p, off), p[off + 2], p[off + 3], ReadU32(p, off + 4), ReadU32(p, off + 8), ReadU32(p, off + 12),
                      ReadU16(p, off + 16), signer.text, p[signer.next..end]))
  }

  function ParseNSEC3(p: Bytes, off: nat, end: nat): Result<RData>
    requires off + 5 <= end <= |p|
  {
    var salt := off + 5;
    var saltEnd := salt + p[off + 4];
    if saltEnd >= end then Err
    else
      var hashEnd := saltEnd + 1 + p[saltEnd];
      if hashEnd > end then Err
      else Ok(NSEC3Data(p[off], p[off + 1], ReadU16(p, off + 2), p[salt..saltEnd], p[saltEnd + 1..hashEnd], p[hashEnd..end]))
  }

  /** parseRData, called with the bounds decodeResourceRecord has checked. */
  function ParseRData(p: Bytes, off: nat, rdLen: nat, typ: uint16): Result<RData>
    requires off + rdLen <= |p|
  {
    var end := off + rdLen;
    if typ == TYPE_A then if rdLen != 4 then Err else Ok(AData(p[off..end]))
    else if typ == TYPE_AAAA then if rdLen != 16 then Err else Ok(AAAAData(p[off..end]))
    else if typ == TYPE_CNAME then
      var n :- ReadName(p, off);
      if n.next > end then Err else Ok(CNAMEData(n.text))
    else if typ == TYPE_NS then
      var n :- ReadName(p, off);
      Ok(NSData(n.text))
    else if typ == TYPE_PTR then
      var n :- ReadName(p, off);
      Ok(PTRData(n.text))
    else if typ == TYPE_MX then
      if rdLen < 3 then Err
      else
        var n :- ReadName(p, off + 2);
        Ok(MXData(ReadU16(p, off), n.text))
    else if typ == TYPE_SOA then ParseSOA(p, off, end)
    else if typ == TYPE_TXT then
      var texts :- ReadTexts(p, off, end);
      Ok(TXTData(texts))
    else if typ == TYPE_SRV then
      if rdLen < 7 then Err
      else
        var n :- ReadName(p, off + 6);
        Ok(SRVData(ReadU16(p, off), ReadU16(p, off + 2), ReadU16(p, off + 4), n.text))
    else if typ == TYPE_CAA then if rdLen < 2 then Err else ParseCAA(p, off, end)
    else if typ == TYPE_RRSIG then if rdLen < 18 then Err else ParseRRSIG(p, off, end)
    else if typ == TYPE_DNSKEY then
      if rdLen < 4 then Err else Ok(DNSKEYData(ReadU16(p, off), p[off + 2], p[off + 3], p[off + 4..end]))
    else if typ == TYPE_DS then
      if rdLen < 4 then Err else Ok(DSData(ReadU16(p, off), p[off + 2], p[off + 3], p[off + 4..end]))
    else if typ == TYPE_NSEC then
      var n :- ReadName(p, off);
      if n.next > end then Err else Ok(NSECData(n.text, p[n.next..end]))
    else if typ == TYPE_NSEC3 then if rdLen < 5 then Err else ParseNSEC3(p, off, end)
    else Ok(UnknownData(typ, p[off..end]))
  }

  datatype Read<+T> = Read(value: T, next: nat)

  function ReadRecord(p: Bytes, off: nat): (r: Result<Read<ResourceRecord>>)
    ensures r.Ok? ==> off + 11 <= r.value.next <= |p|
  {
    var name :- ReadName(p, off);
    var n := name.next;
    ReadNameNext(p, p, off);
    if n + 10 > |p| then Err
    else
      var typ, class_, ttl := ReadU16(p, n), ReadU16(p, n + 2), ReadU32(p, n + 4);
      var start := n + 10;
      var end := start + ReadU16(p, n + 8);
      if end > |p| then Err
      else
        var raw := p[start..end];
        var data :=
          if typ == TYPE_OPT then Some(OptFromHeader(class_, ttl, raw))
          else match ParseRData(p, start, end - start, typ)
               case Ok(d) => Some(d)
               case Err => None;
        Ok(Read(ResourceRecord(name.text, typ, class_, ttl, data, raw), end))
  }

  // ---- reading undoes writing ----

  /** `e` is what `d` must come back as: equal, with names reproduced. */
  ghost predicate SameData(d: RData, e: RData, lc: bool) {
    match d
    case CNAMEData(n) => e.CNAMEData? && SameName(n, e.cname, lc)
    case NSData(n) => e.NSData? && SameName(n, e.nsName, lc)
    case PTRData(n) => e.PTRData? && SameName(n, e.ptrName, lc)
    case MXData(pref, n) => e.MXData? && e == MXData(pref, e.exchange) && SameName(n, e.exchange, lc)
    case SOAData(m, r, serial, refresh, retry, expire, minimum) =>
      && e.SOAData? && e == SOAData(e.mname, e.rname, serial, refresh, retry, expire, minimum)
      && SameName(m, e.mname, lc) && SameName(r, e.rname, lc)
    case SRVData(prio, weight, port, n) =>
      e.SRVData? && e == SRVData(prio, weight, port, e.target) && SameName(n, e.target, lc)
    case RRSIGData(covered, algo, labels, ttl, exp, inc, keyTag, n, sig) =>
      && e.RRSIGData? && e == RRSIGData(covered, algo, labels, ttl, exp, inc, keyTag, e.signerName, sig)
      && SameName(n, e.signerName, lc)
    case NSECData(n, bitmap) => e.NSECData? && e == NSECData(e.nextDomain, bitmap) && SameName(n, e.nextDomain, lc)
    case _ => e == d
  }

  /** Every name inside the RDATA is written in lower case. */
  ghost predicate LowerData(d: RData) {
    LayoutOf(d).Ok? ==> forall i :: 0 <= i < |LayoutOf(d).value.names| ==> IsLower(LayoutOf(d).value.names[i])
  }

  /** `names` are read one after the other from `off` to `end`. */
  ghost predicate NamesAt(p: Bytes, off: nat, names: seq<Bytes>, end: nat, lc: bool)
    decreases |names|
  {
    if names == [] then off == end
    else
      && ReadName(p, off).Ok?
      && SameName(names[0], ReadName(p, off).value.text, lc)
      && NamesAt(p, ReadName(p, off).value.next, names[1..], end, lc)
  }

  /** The parts of a layout stand in the packet from `off` to `end`. */
  ghost predicate LayoutAt(p: Bytes, off: nat, end: nat, l: Layout, lc: bool) {
    && At(p, off, l.pre)
    && off + |l.pre| + |l.post| <= end
    && NamesAt(p, off + |l.pre|, l.names, end - |l.post|, lc)
    && At(p, end - |l.post|, l.post)
  }

  lemma {:induction false} PutNamesReads(p: Bytes, off: nat, names: seq<Bytes>, table: Table, w: Written, lc: bool)
    requires PutNames(off, names, table) == Ok(w) && At(p, off, w.bytes)
    requires TableOk(p, off, table, lc)
    requires lc ==> forall i :: 0 <= i < |names| ==> IsLower(names[i])
    ensures NamesAt(p, off, names, off + |w.bytes|, lc)
    ensures TableOk(p, off + |w.bytes|, w.table, lc)
    decreases |names|
  {
    hide PutName, ReadName, SameName, IsLower, TableOk;
    if names != [] {
      var first := PutName(off, names[0], table).value;
      var rest := PutNames(off + |first.bytes|, names[1..], first.table).value;
      AtSplit(p, off, first.bytes, rest.bytes);
      PutNameReads(p, off, names[0], table, first, lc);
      PutNamesReads(p, off + |first.bytes|, names[1..], first.table, rest, lc);
    }
  }

  lemma PutLayoutReads(p: Bytes, off: nat, l: Layout, table: Table, w: Written, lc: bool)
    requires PutLayout(off, l, table) == Ok(w) && At(p, off, w.bytes)
    requires TableOk(p, off, table, lc)
    requires lc ==> forall i :: 0 <= i < |l.names| ==> IsLower(l.names[i])
    ensures LayoutAt(p, off, off + |w.bytes|, l, lc)
    ensures TableOk(p, off + |w.bytes|, w.table, lc)
  {
    hide PutNames, NamesAt, IsLower, TableOk;
    var pos := off + |l.pre|;
    var names := PutNames(pos, l.names, table).value;
    AtSplit(p, off, l.pre + names.bytes, l.post);
    AtSplit(p, off, l.pre, names.bytes);
    TableOkLater(p, off, pos, table, lc);
    PutNamesReads(p, pos, l.names, table, names, lc);
    TableOkLater(p, pos + |names.bytes|, off + |w.bytes|, w.table, lc);
  }

  lemma TableOkLater(p: Bytes, limit: nat, more: nat, table: Table, lc: bool)
    requires TableOk(p, limit, table, lc) && limit <= more
    ensures TableOk(p, more, table, lc)
  {
  }

  /** RDATA of any kind, raw octets included, keeps the table right, whatever stands around it. */
  lemma RDataKeeps(p: Bytes, start: nat, data: Option<RData>, raw: Bytes, table: Table, w: Written, lc: bool)
    requires PutRData(start, data, raw, table) == Ok(w) && At(p, start, w.bytes)
    requires TableOk(p, start, table, lc) && (lc && data.Some? ==> LowerData(data.value))
    ensures TableOk(p, start + |w.bytes|, w.table, lc)
  {
    hide PutLayout, LayoutOf, TableOk, At, LayoutAt, IsLower;
    if data.Some? {
      PutLayoutReads(p, start, LayoutOf(data.value).value, table, w, lc);
    } else {
      TableOkLater(p, start, start + |w.bytes|, table, lc);
    }
  }

  lemma OneName(p: Bytes, off: nat, names: seq<Bytes>, end: nat, lc: bool)
    requires NamesAt(p, off, names, end, lc) && |names| == 1
    ensures ReadName(p, off).Ok? && ReadName(p, off).value.next == end && SameName(names[0], ReadName(p, off).value.text, lc)
  {
    hide ReadName, SameName;
    assert names[1..] == [];
  }

  lemma TwoNames(p: Bytes, off: nat, names: seq<Bytes>, end: nat, lc: bool)
    requires NamesAt(p, off, names, end, lc) && |names| == 2
    ensures ReadName(p, off).Ok? && SameName(names[0], ReadName(p, off).value.text, lc)
    ensures var n := ReadName(p, off).value.next;
            ReadName(p, n).Ok? && ReadName(p, n).value.next == end && SameName(names[1], ReadName(p, n).value.text, lc)
  {
    hide ReadName, SameName;
    assert names[1..][0] == names[1];
    OneName(p, ReadName(p, off).value.next, names[1..], end, lc);
  }

  /** parseRData on the octets of one layout; the eight lemmas below are its cases. */
  ghost predicate ParsesTo(p: Bytes, off: nat, rdLen: nat, typ: uint16, d: RData, lc: bool) {
    && off + rdLen <= |p|
    && ParseRData(p, off, rdLen, typ).Ok?
    && SameData(d, ParseRData(p, off, rdLen, typ).value, lc)
  }

  /** `d` was laid out as `l` in the rdLen octets at `off`. */
  ghost predicate LaidOut(p: Bytes, off: nat, rdLen: nat, d: RData, lc: bool) {
    && off + rdLen <= |p|
    && LayoutOf(d).Ok?
    && LayoutAt(p, off, off + rdLen, LayoutOf(d).value, lc)
  }

  lemma BackNameOnly(p: Bytes, off: nat, rdLen: nat, d: RData, lc: bool)
    requires LaidOut(p, off, rdLen, d, lc)
    ensures d.CNAMEData? ==> ParsesTo(p, off, rdLen, TYPE_CNAME, d, lc)
    ensures d.NSData? ==> ParsesTo(p, off, rdLen, TYPE_NS, d, lc)
    ensures d.PTRData? ==> ParsesTo(p, off, rdLen, TYPE_PTR, d, lc)
    ensures d.NSECData? ==> ParsesTo(p, off, rdLen, TYPE_NSEC, d, lc)
  {
    hide ReadName, SameName, NamesAt;
    if d.CNAMEData? || d.NSData? || d.PTRData? || d.NSECData? {
      var l := LayoutOf(d).value;
      OneName(p, off, l.names, off + rdLen - |l.post|, lc);
      AtSlice(p, off + rdLen - |l.post|, l.post);
    }
  }

  lemma BackMX(p: Bytes, off: nat, rdLen: nat, d: RData, lc: bool)
    requires d.MXData? && LaidOut(p, off, rdLen, d, lc)
    ensures ParsesTo(p, off, rdLen, TYPE_MX, d, lc)
  {
    hide ReadName, SameName, NamesAt;
    OneName(p, off + 2, [d.exchange], off + rdLen, lc);
    ReadNameNext(p, p, off + 2);
    AtU16(p, off, d.preference);
  }

  lemma BackSRV(p: Bytes, off: nat, rdLen: nat, d: RData, lc: bool)
    requires d.SRVData? && LaidOut(p, off, rdLen, d, lc)
    ensures ParsesTo(p, off, rdLen, TYPE_SRV, d, lc)
  {
    hide ReadName, SameName, NamesAt;
    OneName(p, off + 6, [d.target], off + rdLen, lc);
    ReadNameNext(p, p, off + 6);
    AtSplit(p, off, U16(d.priority) + U16(d.weight), U16(d.port));
    AtSplit(p, off, U16(d.priority), U16(d.weight));
    AtU16(p, off, d.priority);
    AtU16(p, off + 2, d.weight);
    AtU16(p, off + 4, d.port);
  }

  lemma BackSOA(p: Bytes, off: nat, rdLen: nat, d: RData, lc: bool)
    requires d.SOAData? && LaidOut(p, off, rdLen, d, lc)
    ensures ParsesTo(p, off, rdLen, TYPE_SOA, d, lc)
  {
    hide ReadName, SameName, NamesAt, At, U32;
    var n := off + rdLen - 20;
    var a, b, c, e := U32(d.serial), U32(d.refresh), U32(d.retry), U32(d.expire);
    TwoNames(p, off, [d.mname, d.rname], n, lc);
    AtSplit(p, n, a + b + c + e, U32(d.minimum));
    AtSplit(p, n, a + b + c, e);
    AtSplit(p, n, a + b, c);
    AtSplit(p, n, a, b);
    AtU32(p, n, d.serial);
    AtU32(p, n + 4, d.refresh);
    AtU32(p, n + 8, d.retry);
    AtU32(p, n + 12, d.expire);
    AtU32(p, n + 16, d.minimum);
  }

  lemma {:induction false} BackTexts(p: Bytes, off: nat, texts: seq<Bytes>)
    requires forall i :: 0 <= i < |texts| ==> |texts[i]| <= 255
    requires At(p, off, TextBytes(texts))
    ensures off + |TextBytes(texts)| <= |p|
    ensures ReadTexts(p, off, off + |TextBytes(texts)|) == Ok(texts)
    decreases |texts|
  {
    if texts != [] {
      var t, rest := texts[0], TextBytes(texts[1..]);
      AtSplit(p, off, [|t|] + t, rest);
      Counted(p, off, t);
      BackTexts(p, off + 1 + |t|, texts[1..]);
      assert texts == [t] + texts[1..];
    }
  }

  lemma BackTXT(p: Bytes, off: nat, rdLen: nat, d: RData, lc: bool)
    requires d.TXTData? && LaidOut(p, off, rdLen, d, lc)
    ensures ParsesTo(p, off, rdLen, TYPE_TXT, d, lc)
  {
    BackTexts(p, off, d.texts);
  }

  lemma BackCAA(p: Bytes, off: nat, rdLen: nat, d: RData, lc: bool)
    requires d.CAAData? && LaidOut(p, off, rdLen, d, lc)
    ensures ParsesTo(p, off, rdLen, TYPE_CAA, d, lc)
  {
    hide At, LayoutOf, LaidOut, ParseCAA;
    CAALaid(p, off, rdLen, d, lc);
    CAAParsed(p, off, rdLen, d);
  }

  lemma CAALaid(p: Bytes, off: nat, rdLen: nat, d: RData, lc: bool)
    requires d.CAAData? && LaidOut(p, off, rdLen, d, lc)
    ensures off + rdLen <= |p| && rdLen == 2 + |d.tag| + |d.value| && |d.tag| <= 255
    ensures At(p, off, [d.caaFlags, |d.tag|] + d.tag + d.value)
  {
    hide At;
    assert LayoutOf(d).value.pre == [d.caaFlags, |d.tag|] + d.tag + d.value;
  }

  lemma CAAParsed(p: Bytes, off: nat, rdLen: nat, d: RData)
    requires d.CAAData? && off + rdLen <= |p| && rdLen == 2 + |d.tag| + |d.value| && |d.tag| <= 255
    requires At(p, off, [d.caaFlags, |d.tag|] + d.tag + d.value)
    ensures ParseCAA(p, off, off + rdLen) == Ok(d)
  {
    hide At;
    var head := [d.caaFlags, |d.tag|];
    AtSplit(p, off, head + d.tag, d.value);
    AtSplit(p, off, head, d.tag);
    AtIndex(p, off, head, 0);
    AtIndex(p, off, head, 1);
    AtSlice(p, off + 2, d.tag);
    AtSlice(p, off + 2 + |d.tag|, d.value);
  }

  lemma BackRRSIG(p: Bytes, off: nat, rdLen: nat, d: RData, lc: bool)
    requires d.RRSIGData? && LaidOut(p, off, rdLen, d, lc)
    ensures ParsesTo(p, off, rdLen, TYPE_RRSIG, d, lc)
  {
    hide ReadName, SameName, NamesAt, At, U16, U32;
    var a, b, c, e, f := U16(d.typeCovered), [d.algorithm, d.labelCount], U32(d.originalTTL), U32(d.expiration), U32(d.inception);
    var n := off + rdLen - |d.signature|;
    OneName(p, off + 18, [d.signerName], n, lc);
    AtSlice(p, n, d.signature);
    AtSplit(p, off, a + b + c + e + f, U16(d.keyTag));
    AtSplit(p, off, a + b + c + e, f);
    AtSplit(p, off, a + b + c, e);
    AtSplit(p, off, a + b, c);
    AtSplit(p, off, a, b);
    AtU16(p, off, d.typeCovered);
    AtIndex(p, off + 2, b, 0);
    AtIndex(p, off + 2, b, 1);
    AtU32(p, off + 4, d.originalTTL);
    AtU32(p, off + 8, d.expiration);
    AtU32(p, off + 12, d.inception);
    AtU16(p, off + 16, d.keyTag);
  }

  lemma BackKey(p: Bytes, off: nat, rdLen: nat, d: RData, lc: bool)
    requires LaidOut(p, off, rdLen, d, lc)
    ensures d.DNSKEYData? ==> ParsesTo(p, off, rdLen, TYPE_DNSKEY, d, lc)
    ensures d.DSData? ==> ParsesTo(p, off, rdLen, TYPE_DS, d, lc)
  {
    if d.DNSKEYData? {
      BackKeyOctets(p, off, d.keyFlags, d.protocol, d.keyAlgorithm, d.publicKey);
    }
    if d.DSData? {
      BackKeyOctets(p, off, d.dsKeyTag, d.dsAlgorithm, d.digestType, d.digest);
    }
  }

  lemma BackKeyOctets(p: Bytes, off: nat, a: uint16, b: byte, c: byte, x: Bytes)
    requires At(p, off, U16(a) + [b, c] + x)
    ensures off + 4 + |x| <= |p| && ReadU16(p, off) == a && p[off + 2] == b && p[off + 3] == c
    ensures p[off + 4..off + 4 + |x|] == x
  {
    AtSplit(p, off, U16(a) + [b, c], x);
    AtSplit(p, off, U16(a), [b, c]);
    AtU16(p, off, a);
    AtIndex(p, off + 2, [b, c], 0);
    AtIndex(p, off + 2, [b, c], 1);
    AtSlice(p, off + 4, x);
  }

  lemma BackNSEC3(p: Bytes, off: nat, rdLen: nat, d: RData, lc: bool)
    requires d.NSEC3Data? && LaidOut(p, off, rdLen, d, lc)
    ensures ParsesTo(p, off, rdLen, TYPE_NSEC3, d, lc)
  {
    hide At, U16, LayoutOf, LaidOut, ParseNSEC3, NSEC3Octets;
    NSEC3Laid(p, off, rdLen, d, lc);
    NSEC3Parsed(p, off, rdLen, d);
  }

  /** The layout of NSEC3, from left to right. */
  function NSEC3Octets(d: RData): Bytes
    requires d.NSEC3Data? && |d.salt| <= 255 && |d.nextHashed| <= 255
  {
    [d.hashAlgorithm, d.nsec3Flags] + U16(d.iterations)
    + (([|d.salt|] + d.salt) + (([|d.nextHashed|] + d.nextHashed) + d.typeBitmap3))
  }

  lemma NSEC3Laid(p: Bytes, off: nat, rdLen: nat, d: RData, lc: bool)
    requires d.NSEC3Data? && LaidOut(p, off, rdLen, d, lc)
    ensures |d.salt| <= 255 && |d.nextHashed| <= 255 && off + rdLen <= |p|
    ensures At(p, off, NSEC3Octets(d)) && rdLen == |NSEC3Octets(d)|
  {
    hide At, U16;
    assert LayoutOf(d).value.pre == NSEC3Octets(d);
  }

  lemma NSEC3Parsed(p: Bytes, off: nat, rdLen: nat, d: RData)
    requires d.NSEC3Data? && |d.salt| <= 255 && |d.nextHashed| <= 255 && off + rdLen <= |p|
    requires At(p, off, NSEC3Octets(d)) && rdLen == |NSEC3Octets(d)|
    ensures rdLen >= 6 && ParseNSEC3(p, off, off + rdLen) == Ok(d)
  {
    hide At, U16;
    var head := [d.hashAlgorithm, d.nsec3Flags] + U16(d.iterations);
    var s, h := |d.salt|, |d.nextHashed|;
    AtSplit(p, off, head, ([s] + d.salt) + (([h] + d.nextHashed) + d.typeBitmap3));
    AtSplit(p, off + 4, [s] + d.salt, ([h] + d.nextHashed) + d.typeBitmap3);
    AtSplit(p, off + 5 + s, [h] + d.nextHashed, d.typeBitmap3);
    NSEC3Head(p, off, d.hashAlgorithm, d.nsec3Flags, d.iterations);
    Counted(p, off + 4, d.salt);
    Counted(p, off + 5 + s, d.nextHashed);
    AtSlice(p, off + 6 + s + h, d.typeBitmap3);
  }

  lemma NSEC3Head(p: Bytes, off: nat, a: byte, b: byte, c: uint16)
    requires At(p, off, [a, b] + U16(c))
    ensures off + 4 <= |p| && p[off] == a && p[off + 1] == b && ReadU16(p, off + 2) == c
  {
    AtSplit(p, off, [a, b], U16(c));
    AtIndex(p, off, [a, b], 0);
    AtIndex(p, off, [a, b], 1);
    AtU16(p, off + 2, c);
  }

  /** A length octet and that many octets. */
  lemma Counted(p: Bytes, off: nat, x: Bytes)
    requires |x| <= 255 && At(p, off, [|x|] + x)
    ensures off + 1 + |x| <= |p| && p[off] == |x| && p[off + 1..off + 1 + |x|] == x
  {
    hide At;
    AtSplit(p, off, [|x|], x);
    AtByte(p, off, |x|);
    AtSlice(p, off + 1, x);
  }

  lemma BackOctets(p: Bytes, off: nat, rdLen: nat, d: RData, typ: uint16, lc: bool)
    requires LaidOut(p, off, rdLen, d, lc)
    requires || (d.AData? && typ == TYPE_A)
             || (d.AAAAData? && typ == TYPE_AAAA)
             || (d.UnknownData? && typ == d.unknownType && !HasParser(typ))
    ensures ParsesTo(p, off, rdLen, typ, d, lc)
  {
    AtSlice(p, off, LayoutOf(d).value.pre);
  }

  /** Whatever the kind of RDATA, reading undoes writing. */
  lemma RDataBack(p: Bytes, off: nat, rdLen: nat, rr: ResourceRecord, lc: bool)
    requires DataFits(rr) && rr.typ != TYPE_OPT
    requires LaidOut(p, off, rdLen, rr.data.value, lc)
    ensures ParsesTo(p, off, rdLen, rr.typ, rr.data.value, lc)
  {
    hide ParsesTo, LaidOut;
    var d := rr.data.value;
    match d
    case CNAMEData(_) => BackNameOnly(p, off, rdLen, d, lc);
    case NSData(_) => BackNameOnly(p, off, rdLen, d, lc);
    case PTRData(_) => BackNameOnly(p, off, rdLen, d, lc);
    case NSECData(_, _) => BackNameOnly(p, off, rdLen, d, lc);
    case MXData(_, _) => BackMX(p, off, rdLen, d, lc);
    case SOAData(_, _, _, _, _, _, _) => BackSOA(p, off, rdLen, d, lc);
    case TXTData(_) => BackTXT(p, off, rdLen, d, lc);
    case SRVData(_, _, _, _) => BackSRV(p, off, rdLen, d, lc);
    case CAAData(_, _, _) => BackCAA(p, off, rdLen, d, lc);
    case RRSIGData(_, _, _, _, _, _, _, _, _) => BackRRSIG(p, off, rdLen, d, lc);
    case DNSKEYData(_, _, _, _) => BackKey(p, off, rdLen, d, lc);
    case DSData(_, _, _, _) => BackKey(p, off, rdLen, d, lc);
    case NSEC3Data(_, _, _, _, _, _) => BackNSEC3(p, off, rdLen, d, lc);
    case AData(_) => BackOctets(p, off, rdLen, d, rr.typ, lc);
    case AAAAData(_) => BackOctets(p, off, rdLen, d, rr.typ, lc);
    case UnknownData(_, _) => BackOctets(p, off, rdLen, d, rr.typ, lc);
    case OPTData(_, _, _, _, _) =>
  }
}
