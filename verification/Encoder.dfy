/**
 The packet writer (internal/protocol/encoder.go): a growing buffer, the compression table
 of the message under construction, and an RDLENGTH field patched once the RDATA is written.
 Each method is proved against the position-based functions of the *Wire modules, and keeps
 the compression table right for the buffer as it then stands.
 */
module Encoder {
  import opened Octets
  import opened Names
  import opened NameWire
  import opened Records
  import opened RecordWire
  import opened MessageWire

  /** The result of writing `r` after the octets `x`. */
  function After(x: Bytes, r: Result<Written>): Result<Written> {
    match r
    case Ok(w) => Ok(Written(x + w.bytes, w.table))
    case Err => Err
  }

  /** The buffer and table that `r` leads to from `buf`. */
  ghost predicate Wrote(ok: bool, buf: Bytes, buf': Bytes, table': Table, r: Result<Written>) {
    match r
    case Ok(w) => ok && buf' == buf + w.bytes && table' == w.table
    case Err => !ok
  }

  class PacketWriter {
    var buf: Bytes
    var compression: Table

    /** Every compression entry is right for the present buffer, so that it decodes to its key (NameWire.TableDecodes). */
    ghost predicate Valid()
      reads this
    {
      TableOk(buf, |buf|, compression, false)
    }

    constructor ()
      ensures Valid() && buf == [] && compression == map[]
    {
      buf, compression := [], map[];
    }

    method WriteByte(v: byte)
      modifies this`buf
      ensures buf == old(buf) + [v]
      ensures old(Valid()) ==> Valid()
    {
      TableOkAppendMaybe(buf, [v], compression);
      buf := buf + [v];
    }

    method WriteBytes(v: Bytes)
      modifies this`buf
      ensures buf == old(buf) + v
      ensures old(Valid()) ==> Valid()
    {
      TableOkAppendMaybe(buf, v, compression);
      buf := buf + v;
    }

    method WriteUint16(v: uint16)
      modifies this`buf
      ensures buf == old(buf) + U16(v)
      ensures old(Valid()) ==> Valid()
    {
      WriteBytes(U16(v));
    }

    method WriteUint32(v: uint32)
      modifies this`buf
      ensures buf == old(buf) + U32(v)
      ensures old(Valid()) ==> Valid()
    {
      WriteBytes(U32(v));
    }

    /** The back-patch: two octets are overwritten where they stand. */
    method SetUint16(pos: nat, v: uint16)
      requires pos + 2 <= |buf|
      modifies this`buf
      ensures buf == old(buf)[..pos] + U16(v) + old(buf)[pos + 2..]
    {
      buf := buf[pos := v / 256][pos + 1 := v % 256];
    }

    /** writeName: emit labels until a suffix already written can be pointed at. */
    method WriteName(raw: Bytes) returns (ok: bool)
      modifies this
      ensures Wrote(ok, old(buf), buf, compression, PutName(old(|buf|), raw, old(compression)))
      ensures ok && old(Valid()) ==> Valid() && EntriesDecode(buf, compression)
    {
      hide EntriesDecode, Progress, SplitQName, ToLower, Dotted, TableOk, PutLabels;
      var split := SplitQName(raw);
      if split.Err? {
        return false;
      }
      var labels := split.value;
      ghost var goal := PutLabels(|buf|, labels, compression);
      ghost var emitted: Bytes := [];
      ProgressStart(labels, |buf|, compression);
      var i := 0;
      while i < |labels|
        invariant 0 <= i <= |labels|
        invariant buf == old(buf) + emitted
        invariant Progress(goal, emitted, |buf|, labels[i..], compression)
      {
        var key := ToLower(Dotted(labels[i..]));
        assert labels[i..][0] == labels[i] && labels[i..][1..] == labels[i + 1..];
        ProgressStep(goal, emitted, |buf|, labels[i..], compression);
        if key in compression {
          var ptr := compression[key];
          if ptr > MAX_POINTER {
            return false;
          }
          WriteUint16(0xC000 + ptr);
          NameWritten(old(buf), raw, old(compression), buf, compression);
          return true;
        }
        compression := compression[key := |buf|];
        WriteByte(|labels[i]|);
        WriteBytes(labels[i]);
        emitted := emitted + ([|labels[i]|] + labels[i]);
        i := i + 1;
      }
      ProgressEnd(goal, emitted, |buf|, labels[i..], compression);
      WriteByte(0);
      NameWritten(old(buf), raw, old(compression), buf, compression);
      return true;
    }

    /** The loop of the TXT case: every string with a length octet in front. */
    method WriteTexts(texts: seq<Bytes>) returns (ok: bool)
      modifies this`buf
      ensures ok <==> forall i :: 0 <= i < |texts| ==> |texts[i]| <= 255
      ensures ok ==> buf == old(buf) + TextBytes(texts)
      ensures old(Valid()) ==> Valid()
    {
      hide Valid;
      ghost var written: Bytes := [];
      var i := 0;
      while i < |texts|
        invariant 0 <= i <= |texts|
        invariant forall j :: 0 <= j < i ==> |texts[j]| <= 255
        invariant written == TextBytes(texts[..i]) && buf == old(buf) + written
        invariant old(Valid()) ==> Valid()
      {
        if |texts[i]| > 255 {
          return false;
        }
        WriteByte(|texts[i]|);
        WriteBytes(texts[i]);
        TextBytesSnoc(texts[..i], texts[i]);
        assert texts[..i + 1] == texts[..i] + [texts[i]];
        written := written + ([|texts[i]|] + texts[i]);
        i := i + 1;
      }
      assert texts[..i] == texts;
      return true;
    }

    /** The fixed octets in front of a signer name. */
    method WriteRRSIGHead(d: RData)
      requires d.RRSIGData?
      modifies this`buf
      ensures buf == old(buf) + LayoutOf(d).value.pre
      ensures old(Valid()) ==> Valid()
    {
      hide Valid, U16, U32;
      WriteUint16(d.typeCovered);
      WriteByte(d.algorithm);
      WriteByte(d.labelCount);
      WriteUint32(d.originalTTL);
      WriteUint32(d.expiration);
      WriteUint32(d.inception);
      WriteUint16(d.keyTag);
      assert [d.algorithm] + [d.labelCount] == [d.algorithm, d.labelCount];
    }

    method EncodeSOA(d: RData) returns (ok: bool)
      requires d.SOAData?
      modifies this
      ensures Wrote(ok, old(buf), buf, compression, PutLayout(old(|buf|), LayoutOf(d).value, old(compression)))
      ensures ok && old(Valid()) ==> Valid()
    {
      hide Valid, PutLayout, PutName, U32, Wrote;
      ok := WriteName(d.mname);
      ghost var b1, t1, ok1 := buf, compression, ok;
      if ok {
        ok := WriteName(d.rname);
      }
      ghost var b2, t2 := buf, compression;
      if ok {
        WriteUint32(d.serial);
        WriteUint32(d.refresh);
        WriteUint32(d.retry);
        WriteUint32(d.expire);
        WriteUint32(d.minimum);
      }
      TwoNameLayout(old(buf), LayoutOf(d).value, old(compression), ok1, b1, t1, ok, b2, t2, buf);
    }

    method EncodeNSEC3(d: RData) returns (ok: bool)
      requires d.NSEC3Data?
      modifies this
      ensures ok == LayoutOf(d).Ok?
      ensures ok ==> buf == old(buf) + LayoutOf(d).value.pre && compression == old(compression)
      ensures ok && old(Valid()) ==> Valid()
    {
      hide Valid, U16;
      WriteByte(d.hashAlgorithm);
      WriteByte(d.nsec3Flags);
      WriteUint16(d.iterations);
      if |d.salt| > 255 || |d.nextHashed| > 255 {
        return false;
      }
      WriteByte(|d.salt|);
      WriteBytes(d.salt);
      WriteByte(|d.nextHashed|);
      WriteBytes(d.nextHashed);
      WriteBytes(d.typeBitmap3);
      assert [d.hashAlgorithm] + [d.nsec3Flags] == [d.hashAlgorithm, d.nsec3Flags];
      return true;
    }

    /** The RDATA kinds that hold no name: one run of octets. */
    method EncodeOctets(d: RData) returns (ok: bool)
      requires !d.SOAData? && !IsNamed(d)
      modifies this
      ensures ok == LayoutOf(d).Ok?
      ensures ok ==> buf == old(buf) + LayoutOf(d).value.pre && compression == old(compression)
      ensures ok && old(Valid()) ==> Valid()
    {
      hide Valid, U16, TextBytes;
      ok := true;
      match d
      case AData(a) => WriteBytes(a);
      case AAAAData(a) => WriteBytes(a);
      case TXTData(texts) => ok := WriteTexts(texts);
      case CAAData(flags, tag, value) =>
        if |tag| > 255 {
          return false;
        }
        WriteByte(flags);
        WriteByte(|tag|);
        WriteBytes(tag);
        WriteBytes(value);
        assert [flags] + [|tag|] == [flags, |tag|];
      case DNSKEYData(flags, proto, algo, key) => WriteKey(flags, proto, algo, key);
      case DSData(keyTag, algo, dtype, digest) => WriteKey(keyTag, algo, dtype, digest);
      case NSEC3Data(_, _, _, _, _, _) => ok := EncodeNSEC3(d);
      case OPTData(_, _, _, _, options) => WriteBytes(options);
      case UnknownData(_, data) => WriteBytes(data);
    }

    /** DNSKEY and DS share one layout. */
    method WriteKey(a: uint16, b: byte, c: byte, x: Bytes)
      modifies this`buf
      ensures buf == old(buf) + (U16(a) + [b, c] + x)
      ensures old(Valid()) ==> Valid()
    {
      hide Valid, U16;
      WriteUint16(a);
      WriteByte(b);
      WriteByte(c);
      WriteBytes(x);
      assert [b] + [c] == [b, c];
    }

    /** The RDATA kinds that hold one name between octets. */
    method EncodeNamed(d: RData) returns (ok: bool)
      requires IsNamed(d)
      modifies this
      ensures Wrote(ok, old(buf), buf, compression, PutLayout(old(|buf|), LayoutOf(d).value, old(compression)))
      ensures ok && old(Valid()) ==> Valid()
    {
      hide Valid, PutLayout, PutName, U16, Wrote;
      ghost var l := LayoutOf(d).value;
      LayoutKinds(d);
      match d {
        case MXData(pref, _) => WriteUint16(pref);
        case SRVData(prio, weight, port, _) =>
          WriteUint16(prio);
          WriteUint16(weight);
          WriteUint16(port);
        case RRSIGData(_, _, _, _, _, _, _, _, _) => WriteRRSIGHead(d);
        case _ =>
      }
      ghost var b1, t0 := buf, compression;
      assert b1 == old(buf) + l.pre;
      ok := WriteName(NameIn(d));
      ghost var b2 := buf;
      if ok {
        match d {
          case RRSIGData(_, _, _, _, _, _, _, _, sig) => WriteBytes(sig);
          case NSECData(_, bitmap) => WriteBytes(bitmap);
          case _ =>
        }
      }
      assert b2 + [] == b2;
      OneNameLayout(old(buf), l, t0, b1, ok, b2, compression, buf);
    }

    /** encodeRData: the case split over the RDATA kinds. */
    method EncodeRData(data: Option<RData>, raw: Bytes) returns (ok: bool)
      modifies this
      ensures Wrote(ok, old(buf), buf, compression, PutRData(old(|buf|), data, raw, old(compression)))
      ensures ok && old(Valid()) ==> Valid()
    {
      hide Valid, PutLayout, LayoutOf, Wrote;
      if data.None? {
        WriteBytes(raw);
        WroteOctets(old(buf), raw, compression);
        return true;
      }
      var d := data.value;
      LayoutKinds(d);
      if d.SOAData? {
        ok := EncodeSOA(d);
      } else if IsNamed(d) {
        ok := EncodeNamed(d);
      } else {
        ok := EncodeOctets(d);
        NoNameLayout(old(buf), d, raw, old(compression), ok, buf, compression);
      }
    }

    method EncodeQuestion(q: Question) returns (ok: bool)
      modifies this
      ensures Wrote(ok, old(buf), buf, compression, PutQuestion(old(|buf|), q, old(compression)))
      ensures ok && old(Valid()) ==> Valid() && EntriesDecode(buf, compression)
    {
      hide Valid, PutName, U16, EntriesDecode;
      ok := WriteName(q.name);
      if !ok {
        return false;
      }
      ghost var named := buf;
      WriteUint16(q.typ);
      WriteUint16(q.class_);
      assert buf == named + (U16(q.typ) + U16(q.class_));
      ValidDecodes();
    }

    lemma ValidDecodes()
      ensures Valid() ==> EntriesDecode(buf, compression)
    {
      if Valid() {
        TableDecodes(buf, |buf|, compression, false);
      }
    }

    /** encodeResourceRecord: RDLENGTH is written as zero and patched when its value is known. */
    method EncodeResourceRecord(rr: ResourceRecord) returns (ok: bool)
      modifies this
      ensures Wrote(ok, old(buf), buf, compression, PutRecord(old(|buf|), rr, old(compression)))
      ensures ok && old(Valid()) ==> Valid() && EntriesDecode(buf, compression)
    {
      hide TableOk, PutName, PutRData, PutRecord, Wrote, U16, U32, EntriesDecode;
      ok := WriteName(rr.name);
      ghost var named, table := buf, compression;
      if !ok {
        RecordFails(old(buf), rr, old(compression), ok, named, table, false, named, table);
        return false;
      }
      WriteUint16(rr.typ);
      WriteUint16(rr.class_);
      WriteUint32(rr.ttl);
      var lenPos := |buf|;
      WriteUint16(0);
      var rdataStart := |buf|;
      assert buf == named + BlankHead(rr);
      ok := EncodeRData(rr.data, rr.raw);
      WroteGrows(ok, named + BlankHead(rr), buf, compression, PutRData(rdataStart, rr.data, rr.raw, table));
      var rdLen := |buf| - rdataStart;
      if !ok {
        RecordFails(old(buf), rr, old(compression), true, named, table, ok, buf, compression);
        return false;
      }
      if rdLen > 65535 {
        RecordFails(old(buf), rr, old(compression), true, named, table, ok, buf, compression);
        return false;
      }
      ghost var unpatched := buf;
      SetUint16(lenPos, rdLen);
      RecordAssembled(old(buf), rr, old(compression), named, table, unpatched, compression, buf);
      RecordWritten(old(buf), rr, old(compression), buf, compression);
      return true;
    }
  }

  lemma WroteGrows(ok: bool, buf: Bytes, buf': Bytes, table': Table, r: Result<Written>)
    requires Wrote(ok, buf, buf', table', r)
    ensures ok ==> |buf| <= |buf'|
  {
  }

  /** The record head with an RDLENGTH of zero, as it stands before the patch. */
  function BlankHead(rr: ResourceRecord): (r: Bytes)
    ensures |r| == 10
  {
    U16(rr.typ) + U16(rr.class_) + U32(rr.ttl) + U16(0)
  }

  lemma RecordFails(buf: Bytes, rr: ResourceRecord, table: Table, ok1: bool, b1: Bytes, t1: Table, ok2: bool, b2: Bytes, t2: Table)
    requires Wrote(ok1, buf, b1, t1, PutName(|buf|, rr.name, table))
    requires ok1 ==> Wrote(ok2, b1 + BlankHead(rr), b2, t2, PutRData(|b1| + 10, rr.data, rr.raw, t1))
    requires ok1 && ok2 ==> |b2| - |b1| - 10 > 65535
    ensures PutRecord(|buf|, rr, table).Err?
    ensures forall b, t :: Wrote(false, buf, b, t, PutRecord(|buf|, rr, table))
  {
    hide PutName, PutRData, U16, U32;
  }

  /** Once RDLENGTH holds its value the buffer is the one with the length in place from the start. */
  lemma RecordAssembled(buf: Bytes, rr: ResourceRecord, table: Table, b1: Bytes, t1: Table, b2: Bytes, t2: Table, b3: Bytes)
    requires Wrote(true, buf, b1, t1, PutName(|buf|, rr.name, table))
    requires Wrote(true, b1 + BlankHead(rr), b2, t2, PutRData(|b1| + 10, rr.data, rr.raw, t1))
    requires |b1| + 10 <= |b2| <= |b1| + 10 + 65535
    requires b3 == b2[..|b1| + 8] + U16(|b2| - |b1| - 10) + b2[|b1| + 10..]
    ensures Wrote(true, buf, b3, t2, PutRecord(|buf|, rr, table))
  {
    hide PutName, PutRData, U16, U32;
    var name := PutName(|buf|, rr.name, table).value.bytes;
    var rdata := PutRData(|b1| + 10, rr.data, rr.raw, t1).value.bytes;
    var y := U16(rr.typ) + U16(rr.class_) + U32(rr.ttl);
    assert b2 == b1 + y + U16(0) + rdata;
    Patched(b1, y, U16(0), rdata, U16(|rdata|), b2);
    assert b3 == buf + (name + RecordHead(rr, |rdata|) + rdata);
  }

  /** The RDATA kinds that hold exactly one name. */
  predicate IsNamed(d: RData) {
    d.CNAMEData? || d.NSData? || d.PTRData? || d.MXData? || d.SRVData? || d.RRSIGData? || d.NSECData?
  }

  lemma Patched(x: Bytes, y: Bytes, hole: Bytes, z: Bytes, patch: Bytes, whole: Bytes)
    requires |hole| == |patch| && whole == x + y + hole + z
    ensures whole[..|x + y|] + patch + whole[|x + y| + |hole|..] == x + (y + patch) + z
  {
  }

  /** The single name of an RDATA kind that has one. */
  function NameIn(d: RData): Bytes
    requires IsNamed(d)
  {
    match d
    case CNAMEData(n) => n
    case NSData(n) => n
    case PTRData(n) => n
    case MXData(_, n) => n
    case SRVData(_, _, _, n) => n
    case RRSIGData(_, _, _, _, _, _, _, n, _) => n
    case NSECData(n, _) => n
  }

  /** Which kinds hold how many names. */
  lemma LayoutKinds(d: RData)
    ensures d.SOAData? ==> LayoutOf(d).Ok?
    ensures IsNamed(d) ==> LayoutOf(d).Ok? && LayoutOf(d).value.names == [NameIn(d)]
    ensures !d.SOAData? && !IsNamed(d) && LayoutOf(d).Ok?
            ==> LayoutOf(d).value.names == [] && LayoutOf(d).value.post == []
  {
    hide U16, U32, TextBytes;
  }

  lemma WroteOctets(buf: Bytes, x: Bytes, table: Table)
    ensures Wrote(true, buf, buf + x, table, Ok(Written(x, table)))
  {
  }

  lemma NoNameLayout(buf: Bytes, d: RData, raw: Bytes, table: Table, ok: bool, buf': Bytes, table': Table)
    requires ok == LayoutOf(d).Ok?
    requires ok ==> LayoutOf(d).value.names == [] && LayoutOf(d).value.post == []
    requires ok ==> buf' == buf + LayoutOf(d).value.pre && table' == table
    ensures Wrote(ok, buf, buf', table', PutRData(|buf|, Some(d), raw, table))
  {
    hide LayoutOf;
    if ok {
      var l := LayoutOf(d).value;
      assert PutNames(|buf| + |l.pre|, [], table) == Ok(Written([], table));
      assert l.pre + [] + [] == l.pre;
    }
  }

  lemma OneNameLayout(buf: Bytes, l: Layout, table: Table, b1: Bytes, ok: bool, b2: Bytes, table': Table, b3: Bytes)
    requires |l.names| == 1 && b1 == buf + l.pre
    requires Wrote(ok, b1, b2, table', PutName(|b1|, l.names[0], table))
    requires ok ==> b3 == b2 + l.post
    ensures Wrote(ok, buf, b3, table', PutLayout(|buf|, l, table))
  {
    hide PutName;
    var put := PutName(|b1|, l.names[0], table);
    OneName(|b1|, l.names, table);
    if ok {
      var w := put.value;
      assert b3 == buf + (l.pre + w.bytes + l.post);
    }
  }

  lemma OneName(pos: nat, names: seq<Bytes>, table: Table)
    requires |names| == 1
    ensures PutNames(pos, names, table) == PutName(pos, names[0], table)
  {
    hide PutName;
    var put := PutName(pos, names[0], table);
    assert names[1..] == [];
    if put.Ok? {
      assert PutNames(pos + |put.value.bytes|, [], put.value.table) == Ok(Written([], put.value.table));
      assert put.value.bytes + [] == put.value.bytes;
    }
  }

  lemma TwoNameLayout(buf: Bytes, l: Layout, table: Table, ok1: bool, b1: Bytes, t1: Table, ok2: bool, b2: Bytes, t2: Table, b3: Bytes)
    requires |l.names| == 2 && l.pre == []
    requires Wrote(ok1, buf, b1, t1, PutName(|buf|, l.names[0], table))
    requires if ok1 then Wrote(ok2, b1, b2, t2, PutName(|b1|, l.names[1], t1)) else !ok2
    requires ok2 ==> b3 == b2 + l.post
    ensures Wrote(ok2, buf, b3, t2, PutLayout(|buf|, l, table))
  {
    hide PutName;
    assert l.names[1..][0] == l.names[1];
    if ok1 {
      OneName(|b1|, l.names[1..], t1);
    }
    if ok2 {
      var w1 := PutName(|buf|, l.names[0], table).value;
      var w2 := PutName(|b1|, l.names[1], t1).value;
      assert b3 == buf + ([] + (w1.bytes + w2.bytes) + l.post);
    }
  }

  lemma {:induction false} TextBytesSnoc(texts: seq<Bytes>, t: Bytes)
    requires |t| <= 255 && forall i :: 0 <= i < |texts| ==> |texts[i]| <= 255
    ensures TextBytes(texts + [t]) == TextBytes(texts) + ([|t|] + t)
  {
    if texts == [] {
      assert ([] + [t])[1..] == [];
    } else {
      assert (texts + [t])[1..] == texts[1..] + [t];
      TextBytesSnoc(texts[1..], t);
    }
  }

  /** `emitted` has been written, and writing `rest` from `pos` on completes the goal. */
  ghost predicate Progress(goal: Result<Written>, emitted: Bytes, pos: nat, rest: Labels, table: Table) {
    PlainLabels(rest) && goal == After(emitted, PutLabels(pos, rest, table))
  }

  lemma ProgressStart(labels: Labels, pos: nat, table: Table)
    requires PlainLabels(labels)
    ensures Progress(PutLabels(pos, labels, table), [], pos, labels[0..], table)
  {
    hide PutLabels;
    assert labels[0..] == labels;
    Regroup([], [], PutLabels(pos, labels, table));
  }

  lemma ProgressStep(goal: Result<Written>, emitted: Bytes, pos: nat, rest: Labels, table: Table)
    requires rest != [] && Progress(goal, emitted, pos, rest, table)
    ensures var key := ToLower(Dotted(rest));
            if key in table then
              goal == if table[key] > MAX_POINTER then Err else Ok(Written(emitted + U16(0xC000 + table[key]), table))
            else
              && 1 <= |rest[0]| <= MAX_LABEL_LENGTH
              && Progress(goal, emitted + ([|rest[0]|] + rest[0]), pos + 1 + |rest[0]|, rest[1..], table[key := pos])
  {
    hide ToLower, Dotted, U16;
    KeyIsLowerText(rest);
    if Key(rest) !in table {
      Regroup(emitted, [|rest[0]|] + rest[0], PutLabels(pos + 1 + |rest[0]|, rest[1..], table[Key(rest) := pos]));
    }
  }

  lemma ProgressEnd(goal: Result<Written>, emitted: Bytes, pos: nat, rest: Labels, table: Table)
    requires rest == [] && Progress(goal, emitted, pos, rest, table)
    ensures goal == Ok(Written(emitted + [0], table))
  {
  }

  lemma Regroup(x: Bytes, y: Bytes, r: Result<Written>)
    ensures After(x, After(y, r)) == After(x + y, r)
    ensures After([], r) == r
  {
    if r.Ok? {
      assert x + (y + r.value.bytes) == x + y + r.value.bytes;
      assert [] + r.value.bytes == r.value.bytes;
    }
  }

  lemma TableOkAppendMaybe(buf: Bytes, x: Bytes, table: Table)
    ensures TableOk(buf, |buf|, table, false) ==> TableOk(buf + x, |buf + x|, table, false)
  {
    if TableOk(buf, |buf|, table, false) {
      TableOkAppend(buf, x, |buf|, |buf + x|, table, false);
    }
  }

  /** A written name keeps the table right for the longer buffer: there every entry decodes to its key. */
  lemma NameWritten(buf: Bytes, raw: Bytes, table: Table, buf': Bytes, table': Table)
    requires var r := PutName(|buf|, raw, table);
             r.Ok? && buf' == buf + r.value.bytes && table' == r.value.table
    ensures TableOk(buf, |buf|, table, false) ==> TableOk(buf', |buf'|, table', false) && EntriesDecode(buf', table')
  {
    hide PutName, TableOk, EntriesDecode, ReadName, SameName, At;
    if TableOk(buf, |buf|, table, false) {
      var w := PutName(|buf|, raw, table).value;
      TableOkAppend(buf, w.bytes, |buf|, |buf|, table, false);
      AtSlice(buf', |buf|, w.bytes);
      PutNameReads(buf', |buf|, raw, table, w, false);
      TableDecodes(buf', |buf'|, table', false);
    }
  }

  /**
   A complete record keeps the table right in the buffer with the patched RDLENGTH: no entry
   can lead into the two octets that SetUint16 overwrites.
   */
  lemma RecordWritten(buf: Bytes, rr: ResourceRecord, table: Table, buf': Bytes, table': Table)
    requires Wrote(true, buf, buf', table', PutRecord(|buf|, rr, table))
    ensures TableOk(buf, |buf|, table, false) ==> TableOk(buf', |buf'|, table', false) && EntriesDecode(buf', table')
  {
    hide PutName, PutRData, TableOk, At, RecordHead, IsLower, SameName, ReadName, EntriesDecode;
    if TableOk(buf, |buf|, table, false) {
      var off := |buf|;
      var name := PutName(off, rr.name, table).value;
      var start := off + |name.bytes| + 10;
      var rdata := PutRData(start, rr.data, rr.raw, name.table).value;
      var head := RecordHead(rr, |rdata.bytes|);
      TableOkAppend(buf, name.bytes + head + rdata.bytes, off, off, table, false);
      AtSlice(buf', off, name.bytes + head + rdata.bytes);
      AtSplit(buf', off, name.bytes + head, rdata.bytes);
      AtSplit(buf', off, name.bytes, head);
      PutNameReads(buf', off, rr.name, table, name, false);
      TableOkLater(buf', off + |name.bytes|, start, name.table, false);
      RDataKeeps(buf', start, rr.data, rr.raw, name.table, rdata, false);
      TableDecodes(buf', |buf'|, table', false);
    }
  }

  // ---- whole messages ----

  /** Writing the questions of one message, one after the other. */
  method EncodeQuestions(w: PacketWriter, qs: seq<Question>) returns (ok: bool)
    modifies w
    ensures Wrote(ok, old(w.buf), w.buf, w.compression, PutQuestions(old(|w.buf|), qs, old(w.compression)))
    ensures ok && old(w.Valid()) ==> w.Valid()
  {
    hide PutQuestion, PacketWriter.Valid;
    ghost var start, table, written := |w.buf|, w.compression, [];
    for i := 0 to |qs|
      invariant PutQuestions(start, qs[..i], table) == Ok(Written(written, w.compression))
      invariant w.buf == old(w.buf) + written
      invariant old(w.Valid()) ==> w.Valid()
    {
      ok := w.EncodeQuestion(qs[i]);
      assert qs[..i + 1][..i] == qs[..i];
      if !ok {
        QuestionsFail(start, qs, i + 1, table);
        return false;
      }
      written := written + PutQuestion(start + |written|, qs[i], PutQuestions(start, qs[..i], table).value.table).value.bytes;
    }
    assert qs[..|qs|] == qs;
    return true;
  }

  lemma {:induction false} QuestionsFail(pos: nat, qs: seq<Question>, i: nat, table: Table)
    requires i <= |qs| && PutQuestions(pos, qs[..i], table).Err?
    ensures PutQuestions(pos, qs, table).Err?
    decreases |qs|
  {
    hide PutQuestion;
    if i == |qs| {
      assert qs[..i] == qs;
    } else {
      var n := |qs| - 1;
      assert qs[..n][..i] == qs[..i];
      QuestionsFail(pos, qs[..n], i, table);
    }
  }

  method EncodeRecords(w: PacketWriter, rrs: seq<ResourceRecord>) returns (ok: bool)
    modifies w
    ensures Wrote(ok, old(w.buf), w.buf, w.compression, PutRecords(old(|w.buf|), rrs, old(w.compression)))
    ensures ok && old(w.Valid()) ==> w.Valid()
  {
    hide PutRecord, PacketWriter.Valid;
    ghost var start, table, written := |w.buf|, w.compression, [];
    for i := 0 to |rrs|
      invariant PutRecords(start, rrs[..i], table) == Ok(Written(written, w.compression))
      invariant w.buf == old(w.buf) + written
      invariant old(w.Valid()) ==> w.Valid()
    {
      ok := w.EncodeResourceRecord(rrs[i]);
      assert rrs[..i + 1][..i] == rrs[..i];
      if !ok {
        RecordsFail(start, rrs, i + 1, table);
        return false;
      }
      written := written + PutRecord(start + |written|, rrs[i], PutRecords(start, rrs[..i], table).value.table).value.bytes;
    }
    assert rrs[..|rrs|] == rrs;
    return true;
  }

  lemma {:induction false} RecordsFail(pos: nat, rrs: seq<ResourceRecord>, i: nat, table: Table)
    requires i <= |rrs| && PutRecords(pos, rrs[..i], table).Err?
    ensures PutRecords(pos, rrs, table).Err?
    decreases |rrs|
  {
    hide PutRecord;
    if i == |rrs| {
      assert rrs[..i] == rrs;
    } else {
      var n := |rrs| - 1;
      assert rrs[..n][..i] == rrs[..i];
      RecordsFail(pos, rrs[..n], i, table);
    }
  }

  /** Encode (internal/protocol/encoder.go). */
  method EncodeMessage(m: Message) returns (r: Result<Bytes>)
    ensures r == Encode(m)
  {
    hide PutQuestions, PutRecords, EncodeHeader, PacketWriter.Valid;
    if !SectionsFit(m) {
      return Err;
    }
    var w := new PacketWriter();
    w.WriteBytes(EncodeHeader(NormalizeCounts(m).header));
    ghost var hdr, t0 := w.buf, w.compression;
    var ok := EncodeQuestions(w, m.questions);
    if !ok {
      return Err;
    }
    ghost var b1, t1 := w.buf, w.compression;
    ok := EncodeRecords(w, m.answers);
    if !ok {
      return Err;
    }
    ghost var b2, t2 := w.buf, w.compression;
    ok := EncodeRecords(w, m.authorities);
    if !ok {
      return Err;
    }
    ghost var b3, t3 := w.buf, w.compression;
    ok := EncodeRecords(w, m.additionals);
    if !ok {
      return Err;
    }
    assert hdr == EncodeHeader(NormalizeCounts(m).header);
    assert PutSections(m).Ok? && w.buf == hdr + PutSections(m).value.bytes;
    if |w.buf| > MAX_PACKET {
      return Err;
    }
    return Ok(w.buf);
  }
}
