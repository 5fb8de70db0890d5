/**
 Encoding what was decoded: names that differ only in case take the same octets and leave the
 same table, so that a copy made by encoding and decoding encodes again, to the same size.
 */
module Reencoding {
  import opened Octets
  import opened Names
  import opened NameWire
  import opened Records
  import opened RecordWire
  import opened MessageWire

  /** `r` and `s` both fail, or produce as many octets and the same table. */
  ghost predicate Alike(r: Result<Written>, s: Result<Written>) {
    r.Ok? && s.Ok? && |r.value.bytes| == |s.value.bytes| && r.value.table == s.value.table
  }

  lemma {:induction false} NoDotLower(s: Bytes)
    requires DOT !in s
    ensures DOT !in ToLower(s)
  {
    if s != [] {
      NoDotLower(s[1..]);
    }
  }

  /** Equal keys are cut alike: as many labels, of the same lengths. */
  lemma KeysCutAlike(a: Labels, b: Labels)
    requires PlainLabels(a) && PlainLabels(b) && Key(a) == Key(b)
    ensures a == [] <==> b == []
    ensures a != [] ==> |a[0]| == |b[0]| && Key(a[1..]) == Key(b[1..])
  {
    hide ToLower, IndexByte;
    if a != [] && b != [] {
      var x, y := [DOT] + Key(a[1..]), [DOT] + Key(b[1..]);
      NoDotLower(a[0]);
      NoDotLower(b[0]);
      IndexAt(ToLower(a[0]), x);
      IndexAt(ToLower(b[0]), y);
      assert Key(a) == ToLower(a[0]) + x && Key(b) == ToLower(b[0]) + y;
      assert Key(a)[|a[0]| + 1..] == Key(a[1..]) && Key(b)[|b[0]| + 1..] == Key(b[1..]);
    }
  }

  lemma {:induction false} PutLabelsAlike(pos: nat, a: Labels, b: Labels, table: Table)
    requires PlainLabels(a) && PlainLabels(b) && Key(a) == Key(b)
    requires PutLabels(pos, a, table).Ok?
    ensures Alike(PutLabels(pos, a, table), PutLabels(pos, b, table))
    decreases |a|
  {
    KeysCutAlike(a, b);
    if a != [] && Key(a) !in table {
      PutLabelsAlike(pos + 1 + |a[0]|, a[1..], b[1..], table[Key(a) := pos]);
    }
  }

  lemma PutNameAlike(pos: nat, raw: Bytes, text: Bytes, table: Table)
    requires SameName(raw, text, false) && PutName(pos, raw, table).Ok?
    ensures Alike(PutName(pos, raw, table), PutName(pos, text, table))
  {
    hide SplitQName, PutLabels, ToLower, Dotted, Key;
    var a, b := SplitQName(raw).value, SplitQName(text).value;
    SameKeys(raw, text, a, b);
    PutLabelsAlike(pos, a, b, table);
  }

  lemma SameKeys(raw: Bytes, text: Bytes, a: Labels, b: Labels)
    requires SameName(raw, text, false) && SplitQName(raw) == Ok(a) && SplitQName(text) == Ok(b)
    ensures Key(a) == Key(b)
  {
    hide SplitQName, Key;
    KeyIsLowerText(a);
    KeyIsLowerText(b);
    DottedLength(a);
    DottedLength(b);
    FewLabels(a);
    FewLabels(b);
    hide Dotted, WireLength, ToLower;
    assert ToLower(NameText(a)) == ToLower(NameText(b));
    assert |NameText(a)| == |NameText(b)|;
  }

  lemma {:induction false} PutNamesAlike(pos: nat, a: seq<Bytes>, b: seq<Bytes>, table: Table)
    requires |a| == |b| && forall i :: 0 <= i < |a| ==> SameName(a[i], b[i], false)
    requires PutNames(pos, a, table).Ok?
    ensures Alike(PutNames(pos, a, table), PutNames(pos, b, table))
    decreases |a|
  {
    hide SameName, PutName;
    if a != [] {
      PutNameAlike(pos, a[0], b[0], table);
      var first := PutName(pos, a[0], table).value;
      PutNamesAlike(pos + |first.bytes|, a[1..], b[1..], first.table);
    }
  }

  /** Data that came back is laid out as it was, names apart. */
  lemma LayoutAlike(d: RData, e: RData)
    requires SameData(d, e, false) && LayoutOf(d).Ok?
    ensures LayoutOf(e).Ok?
    ensures var l, k := LayoutOf(d).value, LayoutOf(e).value;
            && k.pre == l.pre && k.post == l.post && |k.names| == |l.names|
            && forall i :: 0 <= i < |l.names| ==> SameName(l.names[i], k.names[i], false)
  {
    hide SameName, TextBytes, U16, U32;
  }

  lemma PutRDataAlike(pos: nat, d: RData, e: RData, raw: Bytes, raw': Bytes, table: Table)
    requires SameData(d, e, false) && PutRData(pos, Some(d), raw, table).Ok?
    ensures Alike(PutRData(pos, Some(d), raw, table), PutRData(pos, Some(e), raw', table))
  {
    hide LayoutOf, SameData, SameName, PutNames;
    LayoutAlike(d, e);
    var l, k := LayoutOf(d).value, LayoutOf(e).value;
    PutNamesAlike(pos + |l.pre|, l.names, k.names, table);
  }

  lemma PutRecordAlike(pos: nat, rr: ResourceRecord, e: ResourceRecord, table: Table)
    requires SameRecord(rr, e, false) && DataFits(rr) && PutRecord(pos, rr, table).Ok?
    ensures Alike(PutRecord(pos, rr, table), PutRecord(pos, e, table))
  {
    hide DataFits, SameData, SameName, PutName, PutRData;
    PutNameAlike(pos, rr.name, e.name, table);
    var name := PutName(pos, rr.name, table).value;
    PutRDataAlike(pos + |name.bytes| + 10, rr.data.value, e.data.value, rr.raw, e.raw, name.table);
  }

  lemma PutQuestionAlike(pos: nat, q: Question, e: Question, table: Table)
    requires SameQuestion(q, e, false) && PutQuestion(pos, q, table).Ok?
    ensures Alike(PutQuestion(pos, q, table), PutQuestion(pos, e, table))
  {
    hide SameName, PutName;
    PutNameAlike(pos, q.name, e.name, table);
  }

  lemma {:induction false} PutQuestionsAlike(pos: nat, qs: seq<Question>, es: seq<Question>, table: Table)
    requires SameQuestions(qs, es, false) && PutQuestions(pos, qs, table).Ok?
    ensures Alike(PutQuestions(pos, qs, table), PutQuestions(pos, es, table))
  {
    hide SameQuestion, PutQuestion;
    if qs != [] {
      var n := |qs| - 1;
      var init := PutQuestions(pos, qs[..n], table).value;
      PutQuestionsAlike(pos, qs[..n], es[..n], table);
      PutQuestionAlike(pos + |init.bytes|, qs[n], es[n], init.table);
    }
  }

  lemma {:induction false} PutRecordsAlike(pos: nat, rrs: seq<ResourceRecord>, es: seq<ResourceRecord>, table: Table)
    requires SameRecords(rrs, es, false) && AllFit(rrs) && PutRecords(pos, rrs, table).Ok?
    ensures Alike(PutRecords(pos, rrs, table), PutRecords(pos, es, table))
    ensures AllFit(es)
  {
    hide SameRecord, PutRecord, DataFits;
    if rrs != [] {
      var n := |rrs| - 1;
      var init := PutRecords(pos, rrs[..n], table).value;
      PutRecordsAlike(pos, rrs[..n], es[..n], table);
      PutRecordAlike(pos + |init.bytes|, rrs[n], es[n], init.table);
      KeptStillFits(rrs[n], es[n]);
    }
  }

  /** A message that came back from the wire encodes again, to as many octets. */
  lemma EncodeAlike(m: Message, e: Message)
    requires Encode(m).Ok? && MessageFits(m) && SameMessage(m, e, false)
    ensures Encode(e).Ok? && |Encode(e).value| == |Encode(m).value| && MessageFits(e)
  {
    hide PutQuestions, PutRecords, SameQuestions, SameRecords, AllFit, EncodeHeader, Masked;
    var q := PutQuestions(HEADER_SIZE, m.questions, map[]).value;
    var pos := HEADER_SIZE + |q.bytes|;
    var an := PutRecords(pos, m.answers, q.table).value;
    var ns := PutRecords(pos + |an.bytes|, m.authorities, an.table).value;
    PutQuestionsAlike(HEADER_SIZE, m.questions, e.questions, map[]);
    PutRecordsAlike(pos, m.answers, e.answers, q.table);
    PutRecordsAlike(pos + |an.bytes|, m.authorities, e.authorities, an.table);
    PutRecordsAlike(pos + |an.bytes| + |ns.bytes|, m.additionals, e.additionals, ns.table);
    SameLengths(m, e);
  }

  lemma SameLengths(m: Message, e: Message)
    requires SameMessage(m, e, false)
    ensures |e.questions| == |m.questions| && |e.answers| == |m.answers|
    ensures |e.authorities| == |m.authorities| && |e.additionals| == |m.additionals|
  {
    hide SameQuestion, SameRecord;
  }

  /** The round trip can be repeated for ever: the copy encodes, to the same size, and comes back the same. */
  lemma EncodeAgain(m: Message)
    requires Encode(m).Ok? && MessageFits(m)
    ensures Decode(Encode(m).value).Ok?
    ensures var e := Decode(Encode(m).value).value;
            && Encode(e).Ok? && |Encode(e).value| == |Encode(m).value| && MessageFits(e)
            && Decode(Encode(e).value).Ok? && SameMessage(m, Decode(Encode(e).value).value, false)
  {
    hide Encode, Decode, MessageFits, SameMessage;
    RoundTrip(m, false);
    var e := Decode(Encode(m).value).value;
    EncodeAlike(m, e);
    RoundTrip(e, false);
    SameMessageTwice(m, e, Decode(Encode(e).value).value);
  }

  // ---- a message whose RDATA does not come back ----

  /** An address in a record that is announced as NS. */
  function Misfiled(address: Address4): Message {
    Message(Header(0, true, 0, false, false, false, false, 0, 0, 0, 0, 0, 0), [],
            [ResourceRecord([DOT], TYPE_NS, CLASS_IN, 0, Some(AData(address)), [])], [], [])
  }

  lemma MisfiledEncodes(address: Address4)
    ensures Encode(Misfiled(address)).Ok?
  {
    hide PutRecord, EncodeHeader;
    var m := Misfiled(address);
    var rr := m.answers[0];
    MisfiledRecord(rr, address);
    assert m.answers[..0] == [];
    assert PutRecords(HEADER_SIZE, [], map[]) == Ok(Written([], map[]));
    assert PutQuestions(HEADER_SIZE, [], map[]) == Ok(Written([], map[]));
    var w := PutRecord(HEADER_SIZE, rr, map[]).value;
    assert PutRecords(HEADER_SIZE, m.answers, map[]) == Ok(Written([] + w.bytes, w.table));
  }

  lemma MisfiledRecord(rr: ResourceRecord, address: Address4)
    requires rr.name == [DOT] && rr.data == Some(AData(address))
    ensures var r := PutRecord(HEADER_SIZE, rr, map[]); r.Ok? && |r.value.bytes| == 15
  {
    hide RecordHead;
    assert TrimSpace([DOT]) == [DOT];
    assert SplitQName([DOT]) == Ok([]);
    var t: Table := map[];
    var none: seq<Bytes> := [];
    assert PutName(HEADER_SIZE, rr.name, t) == Ok(Written([0], t));
    assert LayoutOf(rr.data.value) == Ok(Layout(address, none, []));
    assert PutNames(HEADER_SIZE + 15, none, t) == Ok(Written([], t));
    assert PutLayout(HEADER_SIZE + 11, Layout(address, none, []), t) == Ok(Written(address + [] + [], t));
  }

  /** It encodes and decodes, and the address is gone. */
  lemma MisfiledLost(address: Address4)
    ensures var m := Misfiled(address);
            && Encode(m).Ok? && Decode(Encode(m).value).Ok?
            && !MessageKept(m, Decode(Encode(m).value).value, false)
  {
    hide Encode, Decode, MessageKept;
    MisfiledEncodes(address);
    RoundTripExactly(Misfiled(address));
    assert !DataFits(Misfiled(address).answers[0]);
  }
}
