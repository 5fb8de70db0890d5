/**
 The query sent upstream and the check of the reply's question: buildUpstreamQuery and
 validateResponseQuestion (internal/resolver/iterative.go) with the random case of
 internal/security/case_randomizer.go, over the codec.
 */
module Upstream {
  import opened Octets
  import opened Names
  import opened NameWire
  import opened Records
  import opened RecordWire
  import opened MessageWire
  import opened Domains

  function BuildQuery(id: uint16, qname: Bytes, qtype: uint16, edns: bool, maxUDP: uint16): Message {
    var opt := ResourceRecord([DOT], TYPE_OPT, maxUDP, 0, Some(OPTData(maxUDP, 0, 0, 0, [])), []);
    Message(Header(id, false, 0, false, false, true, false, 0, 0, 0, 0, 0, 0), [Question(qname, qtype, CLASS_IN)], [], [],
            if edns then [opt] else [])
  }

  // ---- random case ----

  predicate IsLetter(b: byte) {
    97 <= b <= 122 || 65 <= b <= 90
  }

  /** One octet of RandomizeQName: an even mask octet makes a letter upper case, an odd one lower case. */
  function RandomizeByte(b: byte, mask: byte): byte {
    if 97 <= b <= 122 && mask % 2 == 0 then b - 32
    else if 65 <= b <= 90 && mask % 2 == 1 then b + 32
    else b
  }

  function Randomize(name: Bytes, mask: Bytes): (r: Bytes)
    requires |mask| == |name|
    ensures |r| == |name|
  {
    seq(|name|, i requires 0 <= i < |name| => RandomizeByte(name[i], mask[i]))
  }

  /** The loop of RandomizeQName over a copy of the octets. */
  method RandomizeQName(name: Bytes, mask: Bytes) returns (r: Bytes)
    requires |mask| == |name|
    ensures r == Randomize(name, mask)
  {
    if name == [] {
      return name;
    }
    var bytes := new byte[|name|](i requires 0 <= i < |name| => name[i]);
    for i := 0 to bytes.Length
      invariant forall k :: 0 <= k < i ==> bytes[k] == RandomizeByte(name[k], mask[k])
      invariant forall k :: i <= k < bytes.Length ==> bytes[k] == name[k]
    {
      var ch := bytes[i];
      if 97 <= ch <= 122 {
        if mask[i] % 2 == 0 {
          bytes[i] := ch - 32;
        }
      }
      if 65 <= ch <= 90 {
        if mask[i] % 2 == 1 {
          bytes[i] := ch + 32;
        }
      }
    }
    r := bytes[..];
  }

  /** strings.EqualFold on ASCII, then letter by letter. */
  function Matches(sent: Bytes, received: Bytes): bool {
    && sent != [] && received != [] && |sent| == |received|
    && ToLower(sent) == ToLower(received)
    && forall i :: 0 <= i < |sent| ==> IsLetter(sent[i]) ==> sent[i] == received[i]
  }

  /** Matches accepts exactly the very same text. */
  lemma MatchesExactly(sent: Bytes, received: Bytes)
    ensures Matches(sent, received) <==> sent != [] && sent == received
  {
    if Matches(sent, received) {
      forall i | 0 <= i < |sent|
        ensures sent[i] == received[i]
      {
        ToLowerAt(sent, i);
        ToLowerAt(received, i);
      }
    }
  }

  /** What random case makes of each octet: a letter is upper case exactly under an even mask octet, and nothing else changes. */
  lemma RandomizedAt(name: Bytes, mask: Bytes, i: nat)
    requires |mask| == |name| && i < |name|
    ensures var (b, r) := (name[i], Randomize(name, mask)[i]);
            if 65 <= b <= 90 || 97 <= b <= 122 then
              && (r == b || r == b + 32 || r == b - 32)
              && (if mask[i] % 2 == 0 then 65 <= r <= 90 else 97 <= r <= 122)
            else r == b
  {
  }

  /** The random case is invisible to a reader that folds case. */
  lemma RandomizeFolds(name: Bytes, mask: Bytes)
    requires |mask| == |name|
    ensures ToLower(Randomize(name, mask)) == ToLower(name)
    ensures Normalize(Randomize(name, mask)) == Normalize(name)
  {
    hide ToLower, TrimSpace;
    var r := Randomize(name, mask);
    forall i | 0 <= i < |name|
      ensures ToLower(r)[i] == ToLower(name)[i]
    {
      ToLowerAt(r, i);
      ToLowerAt(name, i);
      assert LowerByte(RandomizeByte(name[i], mask[i])) == LowerByte(name[i]);
    }
    assert ToLower(r) == ToLower(name);
  }

  // ---- checking the reply ----

  datatype Verdict = Accepted | QuestionMissing | NameMismatch | QuestionMismatch | CaseMismatch

  /** validateResponseQuestion. */
  function Validate(sent: Bytes, qtype: uint16, randomized: bool, m: Message): Verdict {
    if m.questions == [] then QuestionMissing
    else
      var q := m.questions[0];
      if Normalize(q.name) != Normalize(sent) then NameMismatch
      else if q.typ != qtype || q.class_ != CLASS_IN then QuestionMismatch
      else if randomized && !Matches(sent, q.name) then CaseMismatch
      else Accepted
  }

  /** With random case a reply is accepted exactly when its first question is the one sent, letter by letter. */
  lemma AcceptedExactly(sent: Bytes, qtype: uint16, m: Message)
    requires sent != []
    ensures Validate(sent, qtype, true, m) == Accepted
            <==> m.questions != [] && m.questions[0] == Question(sent, qtype, CLASS_IN)
  {
    hide Normalize, Matches;
    if m.questions != [] {
      MatchesExactly(sent, m.questions[0].name);
    }
  }

  /** Without random case, exactly when it is the same name up to what normalising removes, and the same type and class (1). */
  lemma AcceptedFolded(sent: Bytes, qtype: uint16, m: Message)
    ensures Validate(sent, qtype, false, m) == Accepted
            <==> && m.questions != [] && Normalize(m.questions[0].name) == Normalize(sent)
                 && m.questions[0].typ == qtype && m.questions[0].class_ == 1
  {
    hide Normalize, Matches;
  }

  // ---- the first question keeps its case on the wire ----

  /** With only longer names in the table, a name is written in full and read back as it is. */
  lemma {:induction false} PutWhole(p: Bytes, pos: nat, labels: Labels, table: Table)
    requires PlainLabels(labels)
    requires forall k {:trigger k in table} :: k in table ==> |k| > |Key(labels)|
    ensures var w := PutLabels(pos, labels, table);
            w.Ok? && |w.value.bytes| == WireLength(labels) && (At(p, pos, w.value.bytes) ==>
                        NameAt(p, pos, labels) && SkipName(p, pos).Some? && SkipName(p, pos).value == pos + |w.value.bytes|)
    decreases |labels|
  {
    if labels == [] {
      if At(p, pos, [0]) {
        AtByte(p, pos, 0);
      }
    } else {
      var l := labels[0];
      assert |Key(labels)| > |Key(labels[1..])|;
      assert Key(labels) !in table;
      PutWhole(p, pos + 1 + |l|, labels[1..], table[Key(labels) := pos]);
      var rest := PutLabels(pos + 1 + |l|, labels[1..], table[Key(labels) := pos]).value;
      if At(p, pos, [|l|] + l + rest.bytes) {
        AtSplit(p, pos, [|l|] + l, rest.bytes);
        AtSplit(p, pos, [|l|], l);
      }
    }
  }

  lemma FirstNameExact(p: Bytes, pos: nat, q: Question)
    requires PutQuestion(pos, q, map[]).Ok? && At(p, pos, PutQuestion(pos, q, map[]).value.bytes)
    requires ReadQuestion(p, pos).Ok?
    ensures ReadQuestion(p, pos).value.value.name == CanonicalName(q.name)
  {
    hide Walk, At, NameAt;
    var labels := SplitQName(q.name).value;
    var w := PutName(pos, q.name, map[]).value;
    AtSplit(p, pos, w.bytes, U16(q.typ) + U16(q.class_));
    PutWhole(p, pos, labels, map[]);
    FewLabels(labels);
    ReadNameFinds(p, pos, labels);
  }

  /** The octets of the first question come first. */
  lemma {:induction false} FirstQuestionFirst(p: Bytes, pos: nat, qs: seq<Question>)
    requires qs != [] && PutQuestions(pos, qs, map[]).Ok? && At(p, pos, PutQuestions(pos, qs, map[]).value.bytes)
    ensures PutQuestion(pos, qs[0], map[]).Ok? && At(p, pos, PutQuestion(pos, qs[0], map[]).value.bytes)
  {
    hide PutQuestion, At;
    var n := |qs| - 1;
    var init := PutQuestions(pos, qs[..n], map[]).value;
    var last := PutQuestion(pos + |init.bytes|, qs[n], init.table).value;
    AtSplit(p, pos, init.bytes, last.bytes);
    if n == 0 {
      assert qs[..n] == [];
      assert init.bytes + last.bytes == last.bytes;
    } else {
      FirstQuestionFirst(p, pos, qs[..n]);
    }
  }

  lemma {:induction false} FirstQuestionRead(p: Bytes, off: nat, n: nat)
    requires n > 0 && ReadQuestions(p, off, n).Ok?
    ensures ReadQuestion(p, off).Ok? && ReadQuestions(p, off, n).value.value[0] == ReadQuestion(p, off).value.value
  {
    hide ReadQuestion;
    if n > 1 {
      FirstQuestionRead(p, off, n - 1);
    }
  }

  /** Compression and all, the first question of any message comes back with its letters as they were. */
  lemma FirstQuestionExact(m: Message)
    requires Encode(m).Ok? && m.questions != []
    ensures Decode(Encode(m).value).Ok?
    ensures var e := Decode(Encode(m).value).value;
            && |e.questions| == |m.questions|
            && e.questions[0] == Question(CanonicalName(m.questions[0].name), m.questions[0].typ, m.questions[0].class_)
  {
    hide PutQuestion, ReadQuestion, PutRecords, ReadRecords, At, CanonicalName, SameRecords, EncodeHeader, DecodeHeader,
      PutQuestions, ReadQuestions;
    RoundTrip(m, false);
    var p := Encode(m).value;
    var e := Decode(p).value;
    var head := EncodeHeader(NormalizeCounts(m).header);
    var w := PutSections(m).value;
    AtSlice(p, 0, p);
    assert p[0..|p|] == p;
    AtSplit(p, 0, head, w.bytes);
    var q := PutQuestions(HEADER_SIZE, m.questions, map[]).value;
    SectionsStart(m, p);
    FirstQuestionFirst(p, HEADER_SIZE, m.questions);
    FirstQuestionRead(p, HEADER_SIZE, |m.questions|);
    FirstNameExact(p, HEADER_SIZE, m.questions[0]);
    assert SameQuestion(m.questions[0], e.questions[0], false);
  }

  lemma SectionsStart(m: Message, p: Bytes)
    requires PutSections(m).Ok? && At(p, HEADER_SIZE, PutSections(m).value.bytes)
    ensures PutQuestions(HEADER_SIZE, m.questions, map[]).Ok?
    ensures At(p, HEADER_SIZE, PutQuestions(HEADER_SIZE, m.questions, map[]).value.bytes)
  {
    hide PutQuestions, PutRecords, At;
    var q := PutQuestions(HEADER_SIZE, m.questions, map[]).value;
    var an := PutRecords(HEADER_SIZE + |q.bytes|, m.answers, q.table).value;
    var ns := PutRecords(HEADER_SIZE + |q.bytes| + |an.bytes|, m.authorities, an.table).value;
    var ar := PutRecords(HEADER_SIZE + |q.bytes| + |an.bytes| + |ns.bytes|, m.additionals, ns.table).value;
    var all := PutSections(m).value.bytes;
    assert all == q.bytes + (an.bytes + (ns.bytes + ar.bytes));
    AtSplit(p, HEADER_SIZE, q.bytes, an.bytes + (ns.bytes + ar.bytes));
  }

  // ---- end to end ----

  /** A trimmed, fully qualified name that the codec takes is left as it is. */
  lemma QualifiedIsCanonical(s: Bytes)
    requires s != [] && !IsSpace(s[0]) && s[|s| - 1] == DOT && SplitQName(s).Ok?
    ensures CanonicalName(s) == s
  {
    TrimFixed(s);
    if s != [DOT] {
      assert s[|s| - 1..] == [DOT];
      DottedOfSplit(TrimDot(s));
      assert TrimDot(s) + [DOT] == s;
    }
  }

  /** The name sent, randomised or not, is fully qualified. */
  lemma SentShape(qname: Bytes, mask: Bytes)
    requires |mask| == |Normalize(qname)|
    ensures var s := Randomize(Normalize(qname), mask); s != [] && !IsSpace(s[0]) && s[|s| - 1] == DOT
  {
    NormalizeShape(qname);
  }

  /**
   The query for any name the codec takes encodes, and any reply that carries the query's
   question first, whatever else it holds, decodes and passes the check, random case included.
   */
  lemma EchoAccepted(qname: Bytes, mask: Bytes, qtype: uint16, edns: bool, maxUDP: uint16, id: uint16, reply: Message)
    requires |mask| == |Normalize(qname)| && SplitQName(Randomize(Normalize(qname), mask)).Ok?
    requires reply.questions != []
    requires reply.questions[0] == BuildQuery(id, Randomize(Normalize(qname), mask), qtype, edns, maxUDP).questions[0]
    requires Encode(reply).Ok?
    ensures var sent := Randomize(Normalize(qname), mask);
            && Encode(BuildQuery(id, sent, qtype, edns, maxUDP)).Ok?
            && Decode(Encode(reply).value).Ok?
            && Decode(Encode(reply).value).value.header.id == reply.header.id
            && Validate(sent, qtype, true, Decode(Encode(reply).value).value) == Accepted
            && Validate(sent, qtype, false, Decode(Encode(reply).value).value) == Accepted
  {
    hide Normalize, Randomize, Encode, Decode, SplitQName, CanonicalName, Matches, SameQuestions, SameRecords;
    var sent := Randomize(Normalize(qname), mask);
    SentShape(qname, mask);
    QualifiedIsCanonical(sent);
    QueryEncodes(id, sent, qtype, edns, maxUDP);
    FirstQuestionExact(reply);
    RoundTrip(reply, false);
    AcceptedExactly(sent, qtype, Decode(Encode(reply).value).value);
  }

  /**
   What a server reads of the query: the ID, RD and no other flag, one question, the name letter by
   letter, class IN (1), and, with EDNS only, one additional record of type OPT (41) with the size offered.
   */
  lemma QueryReads(id: uint16, sent: Bytes, qtype: uint16, edns: bool, maxUDP: uint16)
    requires SplitQName(sent).Ok? && CanonicalName(sent) == sent
    ensures Encode(BuildQuery(id, sent, qtype, edns, maxUDP)).Ok?
    ensures Decode(Encode(BuildQuery(id, sent, qtype, edns, maxUDP)).value).Ok?
    ensures var e := Decode(Encode(BuildQuery(id, sent, qtype, edns, maxUDP)).value).value;
            && e.header == Header(id, false, 0, false, false, true, false, 0, 0, 1, 0, 0, if edns then 1 else 0)
            && e.questions == [Question(sent, qtype, 1)] && e.answers == [] && e.authorities == []
            && (if edns then |e.additionals| == 1 && e.additionals[0].typ == 41
                             && e.additionals[0].data == Some(OPTData(maxUDP, 0, 0, 0, []))
                else e.additionals == [])
  {
    hide Encode, Decode, SplitQName, CanonicalName, PutQuestions, PutRecords;
    var m := BuildQuery(id, sent, qtype, edns, maxUDP);
    QueryEncodes(id, sent, qtype, edns, maxUDP);
    RoundTrip(m, false);
    FirstQuestionExact(m);
    var e := Decode(Encode(m).value).value;
    assert e.questions == [e.questions[0]];
    if edns {
      assert DataFits(m.additionals[0]);
      assert SameRecord(m.additionals[0], e.additionals[0], false);
    }
  }

  lemma QueryEncodes(id: uint16, sent: Bytes, qtype: uint16, edns: bool, maxUDP: uint16)
    requires SplitQName(sent).Ok?
    ensures Encode(BuildQuery(id, sent, qtype, edns, maxUDP)).Ok?
  {
    hide PutQuestions, PutRecords, PutLabels, SplitQName, EncodeHeader;
    var m := BuildQuery(id, sent, qtype, edns, maxUDP);
    OneQuestion(m.questions[0]);
    var q := PutQuestions(HEADER_SIZE, m.questions, map[]).value;
    NoRecords(HEADER_SIZE + |q.bytes|, q.table);
    if edns {
      OptRecord(HEADER_SIZE + |q.bytes|, m.additionals[0], q.table);
    }
  }

  lemma OneQuestion(q: Question)
    requires SplitQName(q.name).Ok?
    ensures PutQuestions(HEADER_SIZE, [q], map[]).Ok?
    ensures |PutQuestions(HEADER_SIZE, [q], map[]).value.bytes| <= MAX_NAME_LENGTH + 4
  {
    hide SplitQName, PutLabels;
    PutWhole([], HEADER_SIZE, SplitQName(q.name).value, map[]);
    assert [q][..0] == [];
    assert PutQuestions(HEADER_SIZE, [], map[]) == Ok(Written([], map[]));
  }

  lemma NoRecords(pos: nat, table: Table)
    ensures PutRecords(pos, [], table) == Ok(Written([], table))
  {
  }

  lemma OptRecord(pos: nat, rr: ResourceRecord, table: Table)
    requires rr.name == [DOT] && rr.data == Some(OPTData(rr.class_, 0, 0, 0, []))
    ensures PutRecords(pos, [rr], table).Ok? && |PutRecords(pos, [rr], table).value.bytes| == 11
  {
    hide RecordHead;
    assert [rr][..0] == [];
    NoRecords(pos, table);
    assert TrimSpace([DOT]) == [DOT];
    assert SplitQName([DOT]) == Ok([]);
    assert PutName(pos, rr.name, table) == Ok(Written([0], table));
    assert LayoutOf(rr.data.value) == Ok(Layout([], [], []));
    var none: Bytes := [];
    assert none + none + none == none;
    assert PutNames(pos + 11, [], table) == Ok(Written([], table));
    assert PutLayout(pos + 11, Layout([], [], []), table) == Ok(Written([], table));
    assert PutRData(pos + 11, rr.data, rr.raw, table) == Ok(Written([], table));
    assert PutRecord(pos, rr, table).Ok?;
    assert |PutRecord(pos, rr, table).value.bytes| == 11;
  }
}
