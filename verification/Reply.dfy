/**
 The size of a reply: compression never lengthens a message, and the UDP truncation step of
 HandlePacket (internal/server/handler.go) yields a reply that fits section 4.2.1 of RFC 1035.
 */
module Reply {
  import opened Octets
  import opened Names
  import opened NameWire
  import opened Records
  import opened RecordWire
  import opened MessageWire

  const UDP_LIMIT := 512

  /** The octets of a name written in full; a name that cannot be written counts as empty. */
  function NameSize(raw: Bytes): nat {
    match SplitQName(raw)
    case Ok(labels) => WireLength(labels)
    case Err => 0
  }

  function NamesSize(names: seq<Bytes>): nat {
    if names == [] then 0 else NameSize(names[0]) + NamesSize(names[1..])
  }

  function DataSize(data: Option<RData>, raw: Bytes): nat {
    match data
    case None => |raw|
    case Some(d) =>
      match LayoutOf(d)
      case Ok(l) => |l.pre| + NamesSize(l.names) + |l.post|
      case Err => 0
  }

  function RecordsSize(rrs: seq<ResourceRecord>): nat {
    if rrs == [] then 0
    else
      var rr := rrs[|rrs| - 1];
      RecordsSize(rrs[..|rrs| - 1]) + NameSize(rr.name) + 10 + DataSize(rr.data, rr.raw)
  }

  function QuestionsSize(qs: seq<Question>): nat {
    if qs == [] then 0 else QuestionsSize(qs[..|qs| - 1]) + NameSize(qs[|qs| - 1].name) + 4
  }

  /** The size of the message with every name written in full. */
  function PlainSize(m: Message): nat {
    HEADER_SIZE + QuestionsSize(m.questions) + RecordsSize(m.answers) + RecordsSize(m.authorities) + RecordsSize(m.additionals)
  }

  lemma {:induction false} PutLabelsShort(pos: nat, labels: Labels, table: Table)
    requires PlainLabels(labels) && PutLabels(pos, labels, table).Ok?
    ensures |PutLabels(pos, labels, table).value.bytes| <= WireLength(labels)
    decreases |labels|
  {
    hide Key;
    if labels != [] {
      if Key(labels) in table {
        assert 1 <= WireLength(labels[1..]);
      } else {
        PutLabelsShort(pos + 1 + |labels[0]|, labels[1..], table[Key(labels) := pos]);
      }
    }
  }

  lemma PutNameShort(pos: nat, raw: Bytes, table: Table)
    requires PutName(pos, raw, table).Ok?
    ensures |PutName(pos, raw, table).value.bytes| <= NameSize(raw) <= MAX_NAME_LENGTH
  {
    hide SplitQName, PutLabels;
    PutLabelsShort(pos, SplitQName(raw).value, table);
  }

  lemma {:induction false} PutNamesShort(pos: nat, names: seq<Bytes>, table: Table)
    requires PutNames(pos, names, table).Ok?
    ensures |PutNames(pos, names, table).value.bytes| <= NamesSize(names)
    decreases |names|
  {
    hide PutName, NameSize;
    if names != [] {
      PutNameShort(pos, names[0], table);
      var first := PutName(pos, names[0], table).value;
      PutNamesShort(pos + |first.bytes|, names[1..], first.table);
    }
  }

  lemma PutRDataShort(pos: nat, data: Option<RData>, raw: Bytes, table: Table)
    requires PutRData(pos, data, raw, table).Ok?
    ensures |PutRData(pos, data, raw, table).value.bytes| <= DataSize(data, raw)
  {
    hide LayoutOf, PutNames, NamesSize;
    if data.Some? {
      var l := LayoutOf(data.value).value;
      PutNamesShort(pos + |l.pre|, l.names, table);
    }
  }

  lemma {:induction false} PutRecordsShort(pos: nat, rrs: seq<ResourceRecord>, table: Table)
    requires PutRecords(pos, rrs, table).Ok?
    ensures |PutRecords(pos, rrs, table).value.bytes| <= RecordsSize(rrs)
  {
    hide PutName, PutRData, NameSize, DataSize, RecordHead;
    if rrs != [] {
      var n := |rrs| - 1;
      var init := PutRecords(pos, rrs[..n], table).value;
      PutRecordsShort(pos, rrs[..n], table);
      var at := pos + |init.bytes|;
      PutNameShort(at, rrs[n].name, init.table);
      var name := PutName(at, rrs[n].name, init.table).value;
      PutRDataShort(at + |name.bytes| + 10, rrs[n].data, rrs[n].raw, name.table);
    }
  }

  lemma {:induction false} PutQuestionsShort(pos: nat, qs: seq<Question>, table: Table)
    requires PutQuestions(pos, qs, table).Ok?
    ensures |PutQuestions(pos, qs, table).value.bytes| <= QuestionsSize(qs) <= (MAX_NAME_LENGTH + 4) * |qs|
  {
    hide PutName, NameSize;
    if qs != [] {
      var n := |qs| - 1;
      var init := PutQuestions(pos, qs[..n], table).value;
      PutQuestionsShort(pos, qs[..n], table);
      PutNameShort(pos + |init.bytes|, qs[n].name, init.table);
    }
  }

  /** Compression never lengthens a message. */
  lemma EncodeShort(m: Message)
    requires Encode(m).Ok?
    ensures |Encode(m).value| <= PlainSize(m)
  {
    hide PutQuestions, PutRecords, QuestionsSize, RecordsSize, EncodeHeader;
    var q := PutQuestions(HEADER_SIZE, m.questions, map[]).value;
    var an := PutRecords(HEADER_SIZE + |q.bytes|, m.answers, q.table).value;
    var ns := PutRecords(HEADER_SIZE + |q.bytes| + |an.bytes|, m.authorities, an.table).value;
    PutQuestionsShort(HEADER_SIZE, m.questions, map[]);
    PutRecordsShort(HEADER_SIZE + |q.bytes|, m.answers, q.table);
    PutRecordsShort(HEADER_SIZE + |q.bytes| + |an.bytes|, m.authorities, an.table);
    PutRecordsShort(HEADER_SIZE + |q.bytes| + |an.bytes| + |ns.bytes|, m.additionals, ns.table);
  }

  /** hasEDNS: an OPT record among the additional records. */
  predicate HasEDNS(m: Message) {
    exists i :: 0 <= i < |m.additionals| && m.additionals[i].typ == TYPE_OPT
  }

  function Truncated(m: Message): Message {
    m.(header := m.header.(tc := true), answers := [], authorities := [], additionals := [])
  }

  /** The encoding steps at the end of HandlePacket. */
  function ReplyWire(request: Message, response: Message, udp: bool): Result<Bytes> {
    var wire :- Encode(response);
    if udp && !HasEDNS(request) && |wire| > UDP_LIMIT then Encode(Truncated(response)) else Ok(wire)
  }

  /** A response that encodes can always be truncated, to at most 259 octets a question. */
  lemma TruncatedFits(m: Message)
    requires Encode(m).Ok?
    ensures Encode(Truncated(m)).Ok?
    ensures |Encode(Truncated(m)).value| <= |Encode(m).value|
    ensures |Encode(Truncated(m)).value| <= HEADER_SIZE + (MAX_NAME_LENGTH + 4) * |m.questions|
  {
    hide PutQuestions, PutRecord, QuestionsSize, EncodeHeader;
    var t := Truncated(m);
    assert PutQuestions(HEADER_SIZE, t.questions, map[]).Ok?;
    assert PutSections(t).Ok?;
    PutQuestionsShort(HEADER_SIZE, m.questions, map[]);
  }

  /** What the client of a truncated reply sees: TC set, its ID and question, and nothing else. */
  lemma TruncatedReads(m: Message)
    requires Encode(m).Ok?
    ensures Encode(Truncated(m)).Ok? && Decode(Encode(Truncated(m)).value).Ok?
    ensures var e := Decode(Encode(Truncated(m)).value).value;
            && e.header.tc && e.header.id == m.header.id && e.header.rcode == m.header.rcode % 16
            && SameQuestions(m.questions, e.questions, false)
            && e.answers == [] && e.authorities == [] && e.additionals == []
  {
    hide Encode, Decode, SameQuestions, DataFits;
    TruncatedFits(m);
    RoundTrip(Truncated(m), false);
  }

  /**
   A UDP client without EDNS never gets a single-question reply over 512 octets, and the
   reply fails to encode exactly when the full response does.
   */
  lemma UdpReplyFits(request: Message, response: Message)
    requires |response.questions| <= 1 && !HasEDNS(request)
    ensures ReplyWire(request, response, true).Ok? <==> Encode(response).Ok?
    ensures var r := ReplyWire(request, response, true);
            r.Ok? ==> |r.value| <= 512 && (|Encode(response).value| > 512 ==> |r.value| <= 271)
  {
    hide Encode, HasEDNS, Truncated;
    if Encode(response).Ok? {
      TruncatedFits(response);
    }
  }

  // ---- the response ----

  /** The response HandlePacket builds from what Resolve gave it; None when Resolve failed. */
  function Respond(request: Message, resolved: Option<Message>): Message
    requires request.questions != []
  {
    var h := request.header;
    match resolved
    case None =>
      Message(Header(h.id, true, 0, false, false, h.rd, true, 0, RCODE_SERVER_FAILURE, 0, 0, 0, 0), [request.questions[0]], [], [], [])
    case Some(m) =>
      m.(header := m.header.(id := h.id, qr := true, rd := h.rd, ra := true),
         questions := if m.questions == [] then [request.questions[0]] else m.questions)
  }

  /** The message that a reply carries: what was resolved, or SERVFAIL (2) with nothing. */
  function Carried(resolved: Option<Message>): Message {
    match resolved
    case None => Message(Header(0, true, 0, false, false, false, true, 0, 2, 0, 0, 0, 0), [], [], [], [])
    case Some(m) => m
  }

  /**
   What the client reads, whatever was resolved: a response to its request, with the code and the
   question resolved (the request's own when there was none), TC exactly when it was cut or was
   resolved truncated, and, unless it was cut, all the records resolved. It is cut exactly when it
   goes over UDP to a client without EDNS and would be longer than 512 octets.
   */
  lemma ClientReads(request: Message, resolved: Option<Message>, udp: bool)
    requires request.questions != []
    requires ReplyWire(request, Respond(request, resolved), udp).Ok?
    ensures var wire := ReplyWire(request, Respond(request, resolved), udp).value;
            Encode(Respond(request, resolved)).Ok? && Decode(wire).Ok?
    ensures var e := Decode(ReplyWire(request, Respond(request, resolved), udp).value).value;
            var m := Carried(resolved);
            var cut := udp && !HasEDNS(request) && |Encode(Respond(request, resolved)).value| > 512;
            && e.header.id == request.header.id && e.header.qr && e.header.ra && e.header.rd == request.header.rd
            && e.header.rcode == m.header.rcode % 16 && e.header.opcode == m.header.opcode % 16 && e.header.aa == m.header.aa
            && SameQuestions(if m.questions == [] then [request.questions[0]] else m.questions, e.questions, false)
            && (e.header.tc <==> cut || m.header.tc)
            && (if cut then e.answers == [] && e.authorities == [] && e.additionals == []
                else SameRecords(m.answers, e.answers, false) && SameRecords(m.authorities, e.authorities, false)
                     && SameRecords(m.additionals, e.additionals, false))
  {
    hide Encode, Decode, SameQuestion, SameRecord, HasEDNS;
    var full := Respond(request, resolved);
    if udp && !HasEDNS(request) && |Encode(full).value| > UDP_LIMIT {
      TruncatedFits(full);
      RoundTrip(Truncated(full), false);
    } else {
      RoundTrip(full, false);
    }
  }
}
