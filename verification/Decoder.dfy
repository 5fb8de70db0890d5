/**
 The decoder's loops (internal/protocol/decoder.go, and the TXT case of rdata.go), each proved
 against the function that specifies it. That they verify for every packet means no read
 goes out of range and every loop ends.
 */
module Decoder {
  import opened Octets
  import opened Names
  import opened NameWire
  import opened Records
  import opened RecordWire
  import opened MessageWire

  /** joinLabels: labels are appended with a dot between them and one at the end. */
  method JoinLabelText(labels: Labels) returns (r: Result<Bytes>)
    ensures r == JoinLabels(labels)
  {
    hide WireLength, Dotted;
    if |labels| == 0 {
      return Ok([DOT]);
    }
    var total := 1;
    LengthSnocStart(labels);
    for i := 0 to |labels|
      invariant total == WireLength(labels[..i])
    {
      total := total + |labels[i]| + 1;
      LengthSnoc(labels[..i], labels[i]);
      assert labels[..i + 1] == labels[..i] + [labels[i]];
    }
    assert labels[..|labels|] == labels;
    if total > MAX_NAME_LENGTH {
      return Err;
    }
    var name: Bytes := [];
    for i := 0 to |labels|
      invariant if i == 0 then name == [] else name + [DOT] == Dotted(labels[..i])
    {
      DottedSnoc(labels[..i], labels[i]);
      assert labels[..i + 1] == labels[..i] + [labels[i]];
      if i > 0 {
        name := name + [DOT];
      }
      name := name + labels[i];
      assert i == 0 ==> Dotted(labels[..i]) == [];
      assert name + [DOT] == Dotted(labels[..i]) + (labels[i] + [DOT]);
    }
    return Ok(name + [DOT]);
  }

  lemma LengthSnocStart(labels: Labels)
    ensures WireLength(labels[..0]) == 1
  {
  }

  lemma {:induction false} LengthSnoc(labels: Labels, l: Bytes)
    ensures WireLength(labels + [l]) == WireLength(labels) + |l| + 1
  {
    if labels == [] {
      assert (labels + [l])[1..] == [];
    } else {
      assert (labels + [l])[1..] == labels[1..] + [l];
      LengthSnoc(labels[1..], l);
    }
  }

  lemma {:induction false} DottedSnoc(labels: Labels, l: Bytes)
    ensures Dotted(labels + [l]) == Dotted(labels) + (l + [DOT])
  {
    if labels == [] {
      assert (labels + [l])[1..] == [];
    } else {
      assert (labels + [l])[1..] == labels[1..] + [l];
      DottedSnoc(labels[1..], l);
    }
  }

  /** decodeName: the loop over labels and pointers, with its visited set and its two limits. */
  method DecodeName(p: Bytes, off: nat) returns (r: Result<Name>)
    ensures r == ReadName(p, off)
  {
    hide JoinLabels, PointerAt, IsPointer, IsLabel;
    if off >= |p| {
      return Err;
    }
    var labels: Labels := [];
    var visited: set<nat> := {};
    var curr: nat, next: Option<nat>, jumps: nat := off, None, 0;
    while true
      invariant |labels| <= MAX_LABELS && jumps <= MAX_LABELS
      invariant Walk(p, off, None, [], {}, 0) == Walk(p, curr, next, labels, visited, jumps)
      decreases 2 * MAX_LABELS - |labels| - jumps
    {
      if curr >= |p| {
        return Err;
      }
      var b := p[curr];
      if IsPointer(b) {
        if curr + 1 >= |p| {
          return Err;
        }
        var ptr := PointerAt(p, curr);
        if ptr >= |p| || ptr in visited {
          return Err;
        }
        visited := visited + {ptr};
        if next.None? {
          next := Some(curr + 2);
        }
        curr := ptr;
        jumps := jumps + 1;
        if jumps > MAX_LABELS {
          return Err;
        }
      } else if b == 0 {
        if next.None? {
          next := Some(curr + 1);
        }
        var text := JoinLabelText(labels);
        if text.Err? {
          return Err;
        }
        return Ok(Name(text.value, next.value));
      } else if IsLabel(b) {
        var start := curr + 1;
        if start + b > |p| {
          return Err;
        }
        labels := labels + [p[start..start + b]];
        if |labels| > MAX_LABELS {
          return Err;
        }
        curr := start + b;
      } else {
        return Err;
      }
    }
  }

  /** The cursor loop of the TXT case. */
  method DecodeTexts(p: Bytes, off: nat, end: nat) returns (r: Result<seq<Bytes>>)
    requires end <= |p|
    ensures r == ReadTexts(p, off, end)
  {
    var texts: seq<Bytes> := [];
    var cur := off;
    PrependNothing(ReadTexts(p, off, end));
    while cur < end
      invariant ReadTexts(p, off, end) == Prepend(texts, ReadTexts(p, cur, end))
      decreases end - cur
    {
      var size := p[cur];
      ghost var at := cur;
      cur := cur + 1;
      if cur + size > end {
        return Err;
      }
      ghost var rest := ReadTexts(p, cur + size, end);
      PrependTwice(texts, p[cur..cur + size], rest);
      texts := texts + [p[cur..cur + size]];
      cur := cur + size;
    }
    PrependNothing(Ok(texts));
    return Ok(texts);
  }

  function Prepend<T>(x: seq<T>, r: Result<seq<T>>): Result<seq<T>> {
    match r
    case Ok(y) => Ok(x + y)
    case Err => Err
  }

  lemma PrependNothing<T>(r: Result<seq<T>>)
    ensures Prepend([], r) == r
    ensures r.Ok? ==> Prepend(r.value, Ok([])) == r
  {
    if r.Ok? {
      assert [] + r.value == r.value == r.value + [];
    }
  }

  lemma PrependTwice<T>(x: seq<T>, t: T, r: Result<seq<T>>)
    ensures Prepend(x + [t], r) == Prepend(x, Prepend([t], r))
  {
    if r.Ok? {
      assert x + [t] + r.value == x + ([t] + r.value);
    }
  }

  method DecodeQuestion(p: Bytes, off: nat) returns (r: Result<Read<Question>>)
    ensures r == ReadQuestion(p, off)
  {
    hide ReadName;
    var name := DecodeName(p, off);
    if name.Err? {
      return Err;
    }
    var n := name.value.next;
    if n + 4 > |p| {
      return Err;
    }
    return Ok(Read(Question(name.value.text, ReadU16(p, n), ReadU16(p, n + 2)), n + 4));
  }

  /** decodeResourceRecord: a record whose RDATA does not parse is kept without Data. */
  method DecodeResourceRecord(p: Bytes, off: nat) returns (r: Result<Read<ResourceRecord>>)
    ensures r == ReadRecord(p, off)
  {
    hide ReadName, ParseRData;
    var name := DecodeName(p, off);
    if name.Err? {
      return Err;
    }
    var n := name.value.next;
    if n + 10 > |p| {
      return Err;
    }
    var typ, class_, ttl := ReadU16(p, n), ReadU16(p, n + 2), ReadU32(p, n + 4);
    var rdStart := n + 10;
    var rdEnd := rdStart + ReadU16(p, n + 8);
    if rdEnd > |p| {
      return Err;
    }
    var rr := ResourceRecord(name.value.text, typ, class_, ttl, None, p[rdStart..rdEnd]);
    if typ == TYPE_OPT {
      rr := rr.(data := Some(OptFromHeader(class_, ttl, p[rdStart..rdEnd])));
      return Ok(Read(rr, rdEnd));
    }
    var rdata := ParseRData(p, rdStart, rdEnd - rdStart, typ);
    if rdata.Ok? {
      rr := rr.(data := Some(rdata.value));
    }
    return Ok(Read(rr, rdEnd));
  }

  method DecodeQuestions(p: Bytes, off: nat, n: nat) returns (r: Result<Read<seq<Question>>>)
    ensures r == ReadQuestions(p, off, n)
  {
    hide ReadQuestion;
    var qs: seq<Question> := [];
    var at := off;
    for i := 0 to n
      invariant ReadQuestions(p, off, i) == Ok(Read(qs, at))
    {
      var q := DecodeQuestion(p, at);
      if q.Err? {
        ReadQuestionsFail(p, off, i + 1, n);
        return Err;
      }
      qs := qs + [q.value.value];
      at := q.value.next;
    }
    return Ok(Read(qs, at));
  }

  lemma {:induction false} ReadQuestionsFail(p: Bytes, off: nat, i: nat, n: nat)
    requires i <= n && ReadQuestions(p, off, i).Err?
    ensures ReadQuestions(p, off, n).Err?
    decreases n
  {
    hide ReadQuestion;
    if i < n {
      ReadQuestionsFail(p, off, i, n - 1);
    }
  }

  method DecodeRecords(p: Bytes, off: nat, n: nat) returns (r: Result<Read<seq<ResourceRecord>>>)
    ensures r == ReadRecords(p, off, n)
  {
    hide ReadRecord;
    var rrs: seq<ResourceRecord> := [];
    var at := off;
    for i := 0 to n
      invariant ReadRecords(p, off, i) == Ok(Read(rrs, at))
    {
      var rr := DecodeResourceRecord(p, at);
      if rr.Err? {
        ReadRecordsFail(p, off, i + 1, n);
        return Err;
      }
      rrs := rrs + [rr.value.value];
      at := rr.value.next;
    }
    return Ok(Read(rrs, at));
  }

  lemma {:induction false} ReadRecordsFail(p: Bytes, off: nat, i: nat, n: nat)
    requires i <= n && ReadRecords(p, off, i).Err?
    ensures ReadRecords(p, off, n).Err?
    decreases n
  {
    hide ReadRecord;
    if i < n {
      ReadRecordsFail(p, off, i, n - 1);
    }
  }

  /** Decode: header, then the four sections as many records long as the header says. */
  method DecodeMessage(p: Bytes) returns (r: Result<Message>)
    ensures r == Decode(p)
    ensures r.Ok? ==> SectionsFit(r.value) && r.value == NormalizeCounts(r.value)
  {
    hide ReadQuestions, ReadRecords, DecodeHeader;
    if |p| < HEADER_SIZE || |p| > MAX_PACKET {
      return Err;
    }
    var h := DecodeHeader(p);
    var q := DecodeQuestions(p, HEADER_SIZE, h.qdCount);
    if q.Err? {
      return Err;
    }
    var an := DecodeRecords(p, q.value.next, h.anCount);
    if an.Err? {
      return Err;
    }
    var ns := DecodeRecords(p, an.value.next, h.nsCount);
    if ns.Err? {
      return Err;
    }
    var ar := DecodeRecords(p, ns.value.next, h.arCount);
    if ar.Err? {
      return Err;
    }
    if ar.value.next > |p| {
      return Err;
    }
    r := Ok(Message(h, q.value.value, an.value.value, ns.value.value, ar.value.value));
    DecodeFits(p);
  }
}
