/**
 The wire format, octet by octet (sections 4.1.1 to 4.1.4 of RFC 1035 and the RDATA layouts of
 RFC 1035, 2782, 3596, 4034, 5155, 6891 and 8659): where every field stands in a packet that
 decodes. Nothing here speaks of how a message is written or parsed; type codes and weights are
 written out.
 */
module Format {
  import opened Octets
  import opened Names
  import opened NameWire
  import opened Records
  import opened RecordWire
  import opened MessageWire

  /** Two octets as a number, the most significant first. */
  function W2(p: Bytes, i: nat): int
    requires i + 2 <= |p|
  {
    256 * p[i] as int + p[i + 1]
  }

  /** Four octets as a number, the most significant first. */
  function W4(p: Bytes, i: nat): int
    requires i + 4 <= |p|
  {
    16777216 * p[i] as int + 65536 * p[i + 1] as int + 256 * p[i + 2] as int + p[i + 3]
  }

  /** Numbers are written with the most significant octet first, and read so. */
  lemma BigEndian(v: uint16, w: uint32)
    ensures |U16(v)| == 2 && W2(U16(v), 0) == v && ReadU16(U16(v), 0) == v
    ensures |U32(w)| == 4 && W4(U32(w), 0) == w && ReadU32(U32(w), 0) == w
  {
    FourDigits(w);
  }

  lemma ReadsWeights(p: Bytes)
    ensures forall i: nat :: i + 2 <= |p| ==> ReadU16(p, i) == W2(p, i)
    ensures forall i: nat :: i + 4 <= |p| ==> ReadU32(p, i) == W4(p, i)
  {
  }

  // ---- names ----

  /**
   `labels` are met from `off` on through exactly `jumps` pointers: an octet of 192 or more and
   the next one point elsewhere by their last fourteen bits, an octet from 1 to 63 counts the
   octets of a label, and a zero ends the name.
   */
  ghost predicate Chain(p: Bytes, off: nat, labels: Labels, jumps: nat)
    decreases |labels|, jumps
  {
    && off < |p|
    && if p[off] >= 192 then
         off + 1 < |p| && jumps > 0 && Chain(p, (p[off] as int - 192) * 256 + p[off + 1], labels, jumps - 1)
       else if p[off] == 0 then labels == [] && jumps == 0
       else
         && p[off] <= 63 && labels != []
         && off + 1 + p[off] <= |p| && p[off + 1..off + 1 + p[off]] == labels[0]
         && Chain(p, off + 1 + p[off], labels[1..], jumps)
  }

  /** A name that may be read at `off`: at most 127 labels and 127 pointers, and 255 octets in all. */
  ghost predicate NameAs(p: Bytes, off: nat, text: Bytes) {
    exists labels, jumps ::
      && Chain(p, off, labels, jumps) && jumps <= 127 && |labels| <= 127
      && (labels == [] || WireLength(labels) <= 255) && text == NameText(labels)
  }

  /** Where the octets after a name begin: behind its first pointer, or its zero. */
  function After(p: Bytes, off: nat): nat {
    if SkipName(p, off).Some? then SkipName(p, off).value else 0
  }

  lemma AfterIs(p: Bytes, off: nat)
    requires off < |p|
    ensures p[off] == 0 ==> After(p, off) == off + 1
    ensures p[off] >= 192 && off + 1 < |p| ==> After(p, off) == off + 2
    ensures 1 <= p[off] <= 63 ==> After(p, off) == After(p, off + 1 + p[off])
  {
  }

  lemma {:induction false} ChainSkips(p: Bytes, off: nat, labels: Labels, jumps: nat)
    requires Chain(p, off, labels, jumps)
    ensures SkipName(p, off).Some?
    decreases |labels|, jumps
  {
    if p[off] < 192 && p[off] != 0 {
      ChainSkips(p, off + 1 + p[off], labels[1..], jumps);
    }
  }

  lemma {:induction false} ChainUnique(p: Bytes, off: nat, a: Labels, i: nat, b: Labels, j: nat)
    requires Chain(p, off, a, i) && Chain(p, off, b, j)
    ensures a == b && i == j
    decreases |a|, i
  {
    if p[off] >= 192 {
      ChainUnique(p, (p[off] as int - 192) * 256 + p[off + 1], a, i - 1, b, j - 1);
    } else if p[off] != 0 {
      ChainUnique(p, off + 1 + p[off], a[1..], i, b[1..], j);
      assert a == [a[0]] + a[1..] && b == [b[0]] + b[1..];
    }
  }

  lemma PointerWeight(p: Bytes, off: nat)
    requires off + 2 <= |p| && IsPointer(p[off])
    ensures PointerAt(p, off) == (p[off] as int - 192) * 256 + p[off + 1]
  {
  }

  /** Whatever decodeName reads follows a chain. */
  lemma {:induction false} WalkChains(p: Bytes, curr: nat, next: Option<nat>, acc: Labels, visited: set<nat>, jumps: nat)
      returns (labels: Labels, more: nat)
    requires |acc| <= MAX_LABELS && jumps <= MAX_LABELS
    requires Walk(p, curr, next, acc, visited, jumps).Ok?
    ensures Chain(p, curr, labels, more) && jumps + more <= MAX_LABELS && |acc + labels| <= MAX_LABELS
    ensures JoinLabels(acc + labels) == Ok(Walk(p, curr, next, acc, visited, jumps).value.text)
    decreases 2 * MAX_LABELS - |acc| - jumps
  {
    hide JoinLabels, ReadU16, PointerAt;
    if IsPointer(p[curr]) {
      PointerWeight(p, curr);
      var ptr := PointerAt(p, curr);
      labels, more := WalkChains(p, ptr, if next.None? then Some(curr + 2) else next, acc, visited + {ptr}, jumps + 1);
      more := more + 1;
    } else if p[curr] == 0 {
      labels, more := [], 0;
      assert acc + labels == acc;
    } else {
      var end := curr + 1 + p[curr];
      var l := p[curr + 1..end];
      var rest;
      rest, more := WalkChains(p, end, next, acc + [l], visited, jumps);
      labels := [l] + rest;
      assert acc + [l] + rest == acc + labels;
      assert labels[1..] == rest;
    }
  }

  lemma WalkPointer(p: Bytes, curr: nat, next: Option<nat>, acc: Labels, visited: set<nat>, jumps: nat)
    requires |acc| <= MAX_LABELS && jumps < MAX_LABELS
    requires curr + 1 < |p| && IsPointer(p[curr]) && PointerAt(p, curr) < |p| && PointerAt(p, curr) !in visited
    ensures var ptr := PointerAt(p, curr);
            Walk(p, curr, next, acc, visited, jumps)
            == Walk(p, ptr, if next.None? then Some(curr + 2) else next, acc, visited + {ptr}, jumps + 1)
  {
    hide PointerAt;
  }

  lemma WalkZero(p: Bytes, curr: nat, next: Option<nat>, acc: Labels, visited: set<nat>, jumps: nat)
    requires |acc| <= MAX_LABELS && jumps <= MAX_LABELS && curr < |p| && p[curr] == 0 && JoinLabels(acc).Ok?
    ensures Walk(p, curr, next, acc, visited, jumps) == Ok(Name(JoinLabels(acc).value, if next.None? then curr + 1 else next.value))
  {
    hide JoinLabels;
  }

  lemma WalkLabel(p: Bytes, curr: nat, next: Option<nat>, acc: Labels, visited: set<nat>, jumps: nat)
    requires |acc| < MAX_LABELS && jumps <= MAX_LABELS
    requires curr < |p| && IsLabel(p[curr]) && curr + 1 + p[curr] <= |p|
    ensures var end := curr + 1 + p[curr];
            Walk(p, curr, next, acc, visited, jumps) == Walk(p, end, next, acc + [p[curr + 1..end]], visited, jumps)
  {
  }

  /** Every chain within the limits is read: a chain that ends never comes by the same place twice. */
  lemma {:induction false} ChainWalks(p: Bytes, curr: nat, next: Option<nat>, acc: Labels, seen: map<nat, (Labels, nat)>, jumps: nat,
                                      labels: Labels, more: nat)
    requires Chain(p, curr, labels, more)
    requires jumps + more <= MAX_LABELS && |acc + labels| <= MAX_LABELS
    requires JoinLabels(acc + labels).Ok?
    requires forall v :: v in seen ==> Chain(p, v, seen[v].0, seen[v].1) && seen[v].1 >= more
    ensures var r := Walk(p, curr, next, acc, seen.Keys, jumps);
            r.Ok? && Ok(r.value.text) == JoinLabels(acc + labels)
    decreases |labels|, more
  {
    hide JoinLabels, PointerAt, Walk;
    if IsPointer(p[curr]) {
      PointerWeight(p, curr);
      var ptr := PointerAt(p, curr);
      assert Chain(p, ptr, labels, more - 1);
      if ptr in seen {
        ChainUnique(p, ptr, labels, more - 1, seen[ptr].0, seen[ptr].1);
      }
      ChainInside(p, ptr, labels, more - 1);
      var seen' := seen[ptr := (labels, more - 1)];
      assert seen'.Keys == seen.Keys + {ptr};
      WalkPointer(p, curr, next, acc, seen.Keys, jumps);
      hide Chain;
      ChainWalks(p, ptr, if next.None? then Some(curr + 2) else next, acc, seen', jumps + 1, labels, more - 1);
    } else if p[curr] == 0 {
      assert acc + labels == acc;
      WalkZero(p, curr, next, acc, seen.Keys, jumps);
    } else {
      var end := curr + 1 + p[curr];
      assert acc + [labels[0]] + labels[1..] == acc + labels;
      WalkLabel(p, curr, next, acc, seen.Keys, jumps);
      ChainWalks(p, end, next, acc + [labels[0]], seen, jumps, labels[1..], more);
    }
  }

  lemma ChainInside(p: Bytes, off: nat, labels: Labels, jumps: nat)
    requires Chain(p, off, labels, jumps)
    ensures off < |p|
  {
  }

  /** decodeName reads exactly what the format says. */
  lemma NameExactly(p: Bytes, off: nat, text: Bytes, next: nat)
    ensures ReadName(p, off) == Ok(Name(text, next)) <==> NameAs(p, off, text) && next == After(p, off)
  {
    hide Walk, WireLength;
    if ReadName(p, off) == Ok(Name(text, next)) {
      WalkNext(p, off, None, [], {}, 0);
      var labels, more := WalkChains(p, off, None, [], {}, 0);
      assert [] + labels == labels;
    }
    if NameAs(p, off, text) {
      var labels, jumps :| Chain(p, off, labels, jumps) && jumps <= 127 && |labels| <= 127
                           && (labels == [] || WireLength(labels) <= 255) && text == NameText(labels);
      var seen: map<nat, (Labels, nat)> := map[];
      assert [] + labels == labels && seen.Keys == {};
      ChainInside(p, off, labels, jumps);
      ChainSkips(p, off, labels, jumps);
      ChainWalks(p, off, None, [], seen, 0, labels, jumps);
      WalkNext(p, off, None, [], {}, 0);
    }
  }

  // ---- RDATA ----

  /** Character strings, each behind its length octet, from `cur` to exactly `end`. */
  ghost predicate Strings(p: Bytes, cur: nat, end: nat, texts: seq<Bytes>)
    requires end <= |p|
    decreases |texts|
  {
    if texts == [] then cur >= end
    else
      && cur < end && |texts[0]| == p[cur] && cur + 1 + |texts[0]| <= end
      && p[cur + 1..cur + 1 + |texts[0]|] == texts[0]
      && Strings(p, cur + 1 + |texts[0]|, end, texts[1..])
  }

  /** The names of a SOA record and its five numbers, twenty octets after them. */
  ghost predicate SOAFormat(p: Bytes, off: nat, end: nat, d: RData)
    requires end <= |p|
  {
    && d.SOAData? && NameAs(p, off, d.mname) && NameAs(p, After(p, off), d.rname)
    && var k := After(p, After(p, off));
    && k + 20 <= end
    && d.serial == W4(p, k) && d.refresh == W4(p, k + 4) && d.retry == W4(p, k + 8) && d.expire == W4(p, k + 12)
    && d.minimum == W4(p, k + 16)
  }

  ghost predicate CAAFormat(p: Bytes, off: nat, end: nat, d: RData)
    requires off <= end <= |p|
  {
    && d.CAAData? && off + 2 <= end && off + 2 + |d.tag| <= end
    && d.caaFlags == p[off] && |d.tag| == p[off + 1] && d.tag == p[off + 2..off + 2 + |d.tag|]
    && d.value == p[off + 2 + |d.tag|..end]
  }

  ghost predicate RRSIGFormat(p: Bytes, off: nat, end: nat, d: RData)
    requires off <= end <= |p|
  {
    && d.RRSIGData? && off + 18 <= end
    && d.typeCovered == W2(p, off) && d.algorithm == p[off + 2] && d.labelCount == p[off + 3]
    && d.originalTTL == W4(p, off + 4) && d.expiration == W4(p, off + 8) && d.inception == W4(p, off + 12)
    && d.keyTag == W2(p, off + 16)
    && NameAs(p, off + 18, d.signerName) && After(p, off + 18) <= end && d.signature == p[After(p, off + 18)..end]
  }

  ghost predicate NSEC3Format(p: Bytes, off: nat, end: nat, d: RData)
    requires off <= end <= |p|
  {
    && d.NSEC3Data? && off + 5 <= end
    && d.hashAlgorithm == p[off] && d.nsec3Flags == p[off + 1] && d.iterations == W2(p, off + 2)
    && |d.salt| == p[off + 4] && var h := off + 5 + |d.salt|;
    && h < end && d.salt == p[off + 5..h]
    && |d.nextHashed| == p[h] && h + 1 + |d.nextHashed| <= end && d.nextHashed == p[h + 1..h + 1 + |d.nextHashed|]
    && d.typeBitmap3 == p[h + 1 + |d.nextHashed|..end]
  }

  /** The RDATA in the octets from `off` to `end` of a record of this type is `d`; type 41 (OPT) is not covered. */
  ghost predicate RDataFormat(p: Bytes, off: nat, end: nat, typ: int, d: RData)
    requires off <= end <= |p|
  {
    if typ == 1 then d.AData? && end == off + 4 && d.address4 == p[off..end]
    else if typ == 28 then d.AAAAData? && end == off + 16 && d.address16 == p[off..end]
    else if typ == 5 then d.CNAMEData? && NameAs(p, off, d.cname) && After(p, off) <= end
    else if typ == 2 then d.NSData? && NameAs(p, off, d.nsName)
    else if typ == 12 then d.PTRData? && NameAs(p, off, d.ptrName)
    else if typ == 15 then
      d.MXData? && off + 3 <= end && d.preference == W2(p, off) && NameAs(p, off + 2, d.exchange)
    else if typ == 6 then SOAFormat(p, off, end, d)
    else if typ == 16 then d.TXTData? && Strings(p, off, end, d.texts)
    else if typ == 33 then
      && d.SRVData? && off + 7 <= end
      && d.priority == W2(p, off) && d.weight == W2(p, off + 2) && d.port == W2(p, off + 4)
      && NameAs(p, off + 6, d.target)
    else if typ == 257 then CAAFormat(p, off, end, d)
    else if typ == 46 then RRSIGFormat(p, off, end, d)
    else if typ == 48 then
      && d.DNSKEYData? && off + 4 <= end
      && d.keyFlags == W2(p, off) && d.protocol == p[off + 2] && d.keyAlgorithm == p[off + 3] && d.publicKey == p[off + 4..end]
    else if typ == 43 then
      && d.DSData? && off + 4 <= end
      && d.dsKeyTag == W2(p, off) && d.dsAlgorithm == p[off + 2] && d.digestType == p[off + 3] && d.digest == p[off + 4..end]
    else if typ == 47 then
      d.NSECData? && NameAs(p, off, d.nextDomain) && After(p, off) <= end && d.typeBitmap == p[After(p, off)..end]
    else if typ == 50 then NSEC3Format(p, off, end, d)
    else d.UnknownData? && d.unknownType == typ && d.data == p[off..end]
  }

  /** One name, given as what ReadName returns. */
  lemma NameFound(p: Bytes, off: nat)
    ensures forall text, next :: ReadName(p, off) == Ok(Name(text, next)) <==> NameAs(p, off, text) && next == After(p, off)
  {
    hide ReadName, NameAs;
    forall text, next
      ensures ReadName(p, off) == Ok(Name(text, next)) <==> NameAs(p, off, text) && next == After(p, off)
    {
      NameExactly(p, off, text, next);
    }
  }

  /** CNAME, NS, PTR and NSEC: a name first. */
  lemma NameFirstParsed(p: Bytes, off: nat, len: nat, typ: uint16, d: RData)
    requires off + len <= |p| && typ in {2, 5, 12, 47}
    ensures ParseRData(p, off, len, typ) == Ok(d) <==> RDataFormat(p, off, off + len, typ, d)
  {
    hide ReadName, NameAs, After, ReadTexts, Strings;
    hide ParseSOA, ParseCAA, ParseRRSIG, ParseNSEC3, SOAFormat, CAAFormat, RRSIGFormat, NSEC3Format;
    NameFound(p, off);
    SomeName(p, off);
  }

  /** decodeName at `off`, both ways at once. */
  lemma SomeName(p: Bytes, off: nat)
    ensures ReadName(p, off).Ok? ==> NameAs(p, off, ReadName(p, off).value.text) && ReadName(p, off).value.next == After(p, off)
    ensures forall text :: NameAs(p, off, text) ==> ReadName(p, off) == Ok(Name(text, After(p, off)))
  {
    hide ReadName, NameAs, After;
    NameFound(p, off);
    if ReadName(p, off).Ok? {
      var n := ReadName(p, off).value;
      assert ReadName(p, off) == Ok(Name(n.text, n.next));
    }
    forall text | NameAs(p, off, text)
      ensures ReadName(p, off) == Ok(Name(text, After(p, off)))
    {
      NameExactly(p, off, text, After(p, off));
    }
  }

  /** MX and SRV: numbers, then a name. */
  lemma NameLaterParsed(p: Bytes, off: nat, len: nat, typ: uint16, d: RData)
    requires off + len <= |p| && typ in {15, 33}
    ensures ParseRData(p, off, len, typ) == Ok(d) <==> RDataFormat(p, off, off + len, typ, d)
  {
    hide ReadName, NameAs, After, ReadTexts, Strings;
    hide ParseSOA, ParseCAA, ParseRRSIG, ParseNSEC3, SOAFormat, CAAFormat, RRSIGFormat, NSEC3Format;
    SomeName(p, off + 2);
    SomeName(p, off + 6);
  }

  lemma SOAParsed(p: Bytes, off: nat, end: nat, d: RData)
    requires end <= |p|
    ensures ParseSOA(p, off, end) == Ok(d) <==> SOAFormat(p, off, end, d)
  {
    hide ReadName, NameAs, After;
    SomeName(p, off);
    SomeName(p, After(p, off));
  }

  lemma CAAParsed(p: Bytes, off: nat, end: nat, d: RData)
    requires off + 2 <= end <= |p|
    ensures ParseCAA(p, off, end) == Ok(d) <==> CAAFormat(p, off, end, d)
  {
  }

  lemma RRSIGParsed(p: Bytes, off: nat, end: nat, d: RData)
    requires off + 18 <= end <= |p|
    ensures ParseRRSIG(p, off, end) == Ok(d) <==> RRSIGFormat(p, off, end, d)
  {
    hide ReadName, NameAs, After;
    SomeName(p, off + 18);
  }

  lemma NSEC3Parsed(p: Bytes, off: nat, end: nat, d: RData)
    requires off + 5 <= end <= |p|
    ensures ParseNSEC3(p, off, end) == Ok(d) <==> NSEC3Format(p, off, end, d)
  {
  }

  lemma {:induction false} TextsParsed(p: Bytes, cur: nat, end: nat, texts: seq<Bytes>)
    requires end <= |p|
    ensures ReadTexts(p, cur, end) == Ok(texts) <==> Strings(p, cur, end, texts)
    decreases end - cur
  {
    if cur < end {
      var next := cur + 1 + p[cur];
      if next <= end && texts != [] {
        TextsParsed(p, next, end, texts[1..]);
        assert texts == [texts[0]] + texts[1..];
      }
    }
  }

  // The kinds with a parser of their own.

  lemma SOAKind(p: Bytes, off: nat, len: nat, d: RData)
    requires off + len <= |p|
    ensures ParseRData(p, off, len, 6) == Ok(d) <==> RDataFormat(p, off, off + len, 6, d)
  {
    hide ReadName, NameAs, After, ReadTexts, Strings;
    hide ParseSOA, ParseCAA, ParseRRSIG, ParseNSEC3, SOAFormat, CAAFormat, RRSIGFormat, NSEC3Format;
    SOAParsed(p, off, off + len, d);
  }

  lemma TXTKind(p: Bytes, off: nat, len: nat, d: RData)
    requires off + len <= |p|
    ensures ParseRData(p, off, len, 16) == Ok(d) <==> RDataFormat(p, off, off + len, 16, d)
  {
    hide ReadName, NameAs, After, ReadTexts, Strings;
    hide ParseSOA, ParseCAA, ParseRRSIG, ParseNSEC3, SOAFormat, CAAFormat, RRSIGFormat, NSEC3Format;
    if d.TXTData? {
      TextsParsed(p, off, off + len, d.texts);
    }
  }

  lemma CAAKind(p: Bytes, off: nat, len: nat, d: RData)
    requires off + len <= |p|
    ensures ParseRData(p, off, len, 257) == Ok(d) <==> RDataFormat(p, off, off + len, 257, d)
  {
    hide ReadName, NameAs, After, ReadTexts, Strings;
    hide ParseSOA, ParseCAA, ParseRRSIG, ParseNSEC3, SOAFormat, CAAFormat, RRSIGFormat, NSEC3Format;
    if len >= 2 {
      CAAParsed(p, off, off + len, d);
    } else {
      ShortCAA(p, off, off + len, d);
    }
  }

  lemma RRSIGKind(p: Bytes, off: nat, len: nat, d: RData)
    requires off + len <= |p|
    ensures ParseRData(p, off, len, 46) == Ok(d) <==> RDataFormat(p, off, off + len, 46, d)
  {
    hide ReadName, NameAs, After, ReadTexts, Strings;
    hide ParseSOA, ParseCAA, ParseRRSIG, ParseNSEC3, SOAFormat, CAAFormat, RRSIGFormat, NSEC3Format;
    if len >= 18 {
      RRSIGParsed(p, off, off + len, d);
    } else {
      ShortRRSIG(p, off, off + len, d);
    }
  }

  lemma NSEC3Kind(p: Bytes, off: nat, len: nat, d: RData)
    requires off + len <= |p|
    ensures ParseRData(p, off, len, 50) == Ok(d) <==> RDataFormat(p, off, off + len, 50, d)
  {
    hide ReadName, NameAs, After, ReadTexts, Strings;
    hide ParseSOA, ParseCAA, ParseRRSIG, ParseNSEC3, SOAFormat, CAAFormat, RRSIGFormat, NSEC3Format;
    if len >= 5 {
      NSEC3Parsed(p, off, off + len, d);
    } else {
      ShortNSEC3(p, off, off + len, d);
    }
  }

  lemma ShortCAA(p: Bytes, off: nat, end: nat, d: RData)
    requires off <= end <= |p| && end < off + 2
    ensures !CAAFormat(p, off, end, d)
  {
  }

  lemma ShortRRSIG(p: Bytes, off: nat, end: nat, d: RData)
    requires off <= end <= |p| && end < off + 18
    ensures !RRSIGFormat(p, off, end, d)
  {
  }

  lemma ShortNSEC3(p: Bytes, off: nat, end: nat, d: RData)
    requires off <= end <= |p| && end < off + 5
    ensures !NSEC3Format(p, off, end, d)
  {
  }

  /** The kinds made of numbers and octets alone. */
  lemma OctetsParsed(p: Bytes, off: nat, len: nat, typ: uint16, d: RData)
    requires off + len <= |p| && typ != 41 && typ !in {2, 5, 12, 47, 15, 33, 6, 16, 257, 46, 50}
    ensures ParseRData(p, off, len, typ) == Ok(d) <==> RDataFormat(p, off, off + len, typ, d)
  {
    hide ReadName, NameAs, After, ReadTexts, Strings;
    hide ParseSOA, ParseCAA, ParseRRSIG, ParseNSEC3, SOAFormat, CAAFormat, RRSIGFormat, NSEC3Format;
  }

  /** parseRData accepts exactly the octets that have the format of the type, and reads each field where it stands. */
  lemma RDataExactly(p: Bytes, off: nat, len: nat, typ: uint16, d: RData)
    requires off + len <= |p| && typ != 41
    ensures ParseRData(p, off, len, typ) == Ok(d) <==> RDataFormat(p, off, off + len, typ, d)
  {
    hide ParseRData, RDataFormat;
    if typ in {2, 5, 12, 47} {
      NameFirstParsed(p, off, len, typ, d);
    } else if typ in {15, 33} {
      NameLaterParsed(p, off, len, typ, d);
    } else if typ == 6 {
      SOAKind(p, off, len, d);
    } else if typ == 16 {
      TXTKind(p, off, len, d);
    } else if typ == 257 {
      CAAKind(p, off, len, d);
    } else if typ == 46 {
      RRSIGKind(p, off, len, d);
    } else if typ == 50 {
      NSEC3Kind(p, off, len, d);
    } else {
      OctetsParsed(p, off, len, typ, d);
    }
  }

  // ---- records and questions ----

  /** A record from `off` to `next`: name, type, class, TTL, length and RDATA. OPT keeps three values in class and TTL. */
  ghost predicate RecordFormat(p: Bytes, off: nat, e: ResourceRecord, next: nat) {
    var n := After(p, off);
    && NameAs(p, off, e.name) && n + 10 <= |p|
    && e.typ == W2(p, n) && e.class_ == W2(p, n + 2) && e.ttl == W4(p, n + 4)
    && next == n + 10 + W2(p, n + 8) && next <= |p| && e.raw == p[n + 10..next]
    && if e.typ == 41 then e.data == Some(OPTData(W2(p, n + 2), p[n + 4], p[n + 5], W2(p, n + 6), p[n + 10..next]))
       else forall d :: e.data == Some(d) <==> RDataFormat(p, n + 10, next, e.typ, d)
  }

  ghost predicate QuestionFormat(p: Bytes, off: nat, q: Question, next: nat) {
    var n := After(p, off);
    && NameAs(p, off, q.name) && n + 4 <= |p|
    && q.typ == W2(p, n) && q.class_ == W2(p, n + 2) && next == n + 4
  }

  lemma QuestionExactly(p: Bytes, off: nat, q: Question, next: nat)
    ensures ReadQuestion(p, off) == Ok(Read(q, next)) <==> QuestionFormat(p, off, q, next)
  {
    hide ReadName, NameAs, After;
    SomeName(p, off);
  }

  /** What ReadRecord makes of the octets after a name. */
  lemma RecordHeadRead(p: Bytes, off: nat, e: ResourceRecord, next: nat)
    ensures var n := After(p, off);
            ReadRecord(p, off) == Ok(Read(e, next)) <==>
              && NameAs(p, off, e.name) && n + 10 <= |p|
              && e.typ == W2(p, n) && e.class_ == W2(p, n + 2) && e.ttl == W4(p, n + 4)
              && next == n + 10 + W2(p, n + 8) && next <= |p| && e.raw == p[n + 10..next]
              && e.data == (if e.typ == 41 then Some(OptFromHeader(e.class_, e.ttl, e.raw)) else DataOf(p, n + 10, next, e.typ))
  {
    hide ReadName, NameAs, After, ParseRData, OptFromHeader;
    SomeName(p, off);
  }

  /** The RDATA parseRData finds, if any. */
  function DataOf(p: Bytes, off: nat, end: nat, typ: uint16): Option<RData>
    requires off <= end <= |p|
  {
    match ParseRData(p, off, end - off, typ) case Ok(d) => Some(d) case Err => None
  }

  lemma DataOfExactly(p: Bytes, off: nat, end: nat, typ: uint16, data: Option<RData>)
    requires off <= end <= |p| && typ != 41
    ensures data == DataOf(p, off, end, typ) <==> forall d :: data == Some(d) <==> RDataFormat(p, off, end, typ, d)
  {
    hide ParseRData, RDataFormat;
    forall d
      ensures DataOf(p, off, end, typ) == Some(d) <==> RDataFormat(p, off, end, typ, d)
    {
      RDataExactly(p, off, end - off, typ, d);
    }
    if forall d :: data == Some(d) <==> RDataFormat(p, off, end, typ, d) {
      if data.Some? {
        assert RDataFormat(p, off, end, typ, data.value);
      }
    }
  }

  /** The three values of an OPT record, in the octets of class and TTL. */
  lemma OptWeights(p: Bytes, n: nat, options: Bytes)
    requires n + 10 <= |p|
    ensures OptFromHeader(W2(p, n + 2), W4(p, n + 4), options) == OPTData(W2(p, n + 2), p[n + 4], p[n + 5], W2(p, n + 6), options)
  {
    TTLParts(p[n + 4], p[n + 5], p[n + 6], p[n + 7]);
  }

  lemma TTLParts(a: byte, b: byte, c: byte, d: byte)
    ensures var t := 16777216 * a as int + 65536 * b as int + 256 * c as int + d;
            0 <= t < 0x1_0000_0000 && t / 0x100_0000 == a && t / 0x1_0000 % 256 == b && t % 0x1_0000 == 256 * c as int + d
  {
    var t := 16777216 * a as int + 65536 * b as int + 256 * c as int + d;
    assert t / 0x1_0000 == 256 * a as int + b;
  }

  /** decodeResourceRecord accepts exactly the records that have the format. */
  lemma RecordExactly(p: Bytes, off: nat, e: ResourceRecord, next: nat)
    ensures ReadRecord(p, off) == Ok(Read(e, next)) <==> RecordFormat(p, off, e, next)
  {
    hide ReadRecord, NameAs, After, RDataFormat, DataOf, OptFromHeader;
    RecordHeadRead(p, off, e, next);
    var n := After(p, off);
    if n + 10 <= |p| && n + 10 <= next <= |p| {
      if e.typ == 41 {
        OptWeights(p, n, p[n + 10..next]);
      } else {
        DataOfExactly(p, n + 10, next, e.typ, e.data);
      }
    }
  }

  // ---- whole messages ----

  /** The twelve octets of the header, bit by bit. */
  ghost predicate HeaderFormat(p: Bytes, h: Header)
    requires |p| >= 12
  {
    && h.id == W2(p, 0)
    && (h.qr <==> p[2] / 128 == 1) && h.opcode == p[2] / 8 % 16
    && (h.aa <==> p[2] / 4 % 2 == 1) && (h.tc <==> p[2] / 2 % 2 == 1) && (h.rd <==> p[2] % 2 == 1)
    && (h.ra <==> p[3] / 128 == 1) && h.z == p[3] / 16 % 8 && h.rcode == p[3] % 16
    && h.qdCount == W2(p, 4) && h.anCount == W2(p, 6) && h.nsCount == W2(p, 8) && h.arCount == W2(p, 10)
  }

  lemma HighBits(a: byte, b: byte)
    ensures var f := 256 * a as int + b;
            f / 0x8000 % 2 == a / 128 && f / 0x800 % 16 == a / 8 % 16 && f / 0x400 % 2 == a / 4 % 2
            && f / 0x200 % 2 == a / 2 % 2 && f / 0x100 % 2 == a % 2
  {
    var f := 256 * a as int + b;
    assert f / 256 == a;
    assert f / 0x200 == a / 2 && f / 0x400 == a / 4 && f / 0x800 == a / 8 && f / 0x8000 == a / 128;
  }

  lemma LowBits(a: byte, b: byte)
    ensures var f := 256 * a as int + b;
            f / 0x80 % 2 == b / 128 && f / 16 % 8 == b / 16 % 8 && f % 16 == b % 16
  {
    var f := 256 * a as int + b;
    assert f / 0x80 == 2 * a as int + b / 128;
    assert f / 16 == 16 * a as int + b / 16;
    Remainder(b / 128, a, 2);
    Remainder(b / 16, 2 * a as int, 8);
    Remainder(b, 16 * a as int, 16);
  }

  lemma Remainder(x: int, k: int, m: nat)
    requires m in {2, 8, 16}
    ensures (m * k + x) % m == x % m
  {
  }

  lemma HeaderExactly(p: Bytes, h: Header)
    requires |p| >= 12
    ensures DecodeHeader(p) == h <==> HeaderFormat(p, h)
  {
    HighBits(p[2], p[3]);
    LowBits(p[2], p[3]);
  }

  ghost predicate QuestionsFormat(p: Bytes, off: nat, qs: seq<Question>, next: nat)
    decreases |qs|
  {
    if qs == [] then next == off
    else
      var n := |qs| - 1;
      exists mid: nat :: QuestionsFormat(p, off, qs[..n], mid) && QuestionFormat(p, mid, qs[n], next)
  }

  ghost predicate RecordsFormat(p: Bytes, off: nat, es: seq<ResourceRecord>, next: nat)
    decreases |es|
  {
    if es == [] then next == off
    else
      var n := |es| - 1;
      exists mid: nat :: RecordsFormat(p, off, es[..n], mid) && RecordFormat(p, mid, es[n], next)
  }

  lemma {:induction false} QuestionsExactly(p: Bytes, off: nat, qs: seq<Question>, next: nat)
    ensures ReadQuestions(p, off, |qs|) == Ok(Read(qs, next)) <==> QuestionsFormat(p, off, qs, next)
    decreases |qs|
  {
    hide ReadQuestion, QuestionFormat;
    if qs != [] {
      var n := |qs| - 1;
      assert qs == qs[..n] + [qs[n]];
      if ReadQuestions(p, off, |qs|) == Ok(Read(qs, next)) {
        var init := ReadQuestions(p, off, n).value;
        assert init.value == qs[..n];
        QuestionsExactly(p, off, qs[..n], init.next);
        QuestionExactly(p, init.next, qs[n], next);
      }
      if mid: nat :| QuestionsFormat(p, off, qs[..n], mid) && QuestionFormat(p, mid, qs[n], next) {
        QuestionsExactly(p, off, qs[..n], mid);
        QuestionExactly(p, mid, qs[n], next);
      }
    }
  }

  lemma {:induction false} RecordsExactly(p: Bytes, off: nat, es: seq<ResourceRecord>, next: nat)
    ensures ReadRecords(p, off, |es|) == Ok(Read(es, next)) <==> RecordsFormat(p, off, es, next)
    decreases |es|
  {
    hide ReadRecord, RecordFormat;
    if es != [] {
      var n := |es| - 1;
      assert es == es[..n] + [es[n]];
      if ReadRecords(p, off, |es|) == Ok(Read(es, next)) {
        var init := ReadRecords(p, off, n).value;
        assert init.value == es[..n];
        RecordsExactly(p, off, es[..n], init.next);
        RecordExactly(p, init.next, es[n], next);
      }
      if mid: nat :| RecordsFormat(p, off, es[..n], mid) && RecordFormat(p, mid, es[n], next) {
        RecordsExactly(p, off, es[..n], mid);
        RecordExactly(p, mid, es[n], next);
      }
    }
  }

  /** The sections, in the order of the header's counts, one right behind the other, within the packet. */
  ghost predicate SectionsFormat(p: Bytes, m: Message) {
    exists a: nat, b: nat, c: nat, d: nat ::
      && QuestionsFormat(p, 12, m.questions, a) && RecordsFormat(p, a, m.answers, b)
      && RecordsFormat(p, b, m.authorities, c) && RecordsFormat(p, c, m.additionals, d) && d <= |p|
  }

  /** The packet is a message of at most 65535 octets, and this is what it says. */
  ghost predicate MessageFormat(p: Bytes, m: Message) {
    && 12 <= |p| <= 65535 && HeaderFormat(p, m.header)
    && |m.questions| == W2(p, 4) && |m.answers| == W2(p, 6) && |m.authorities| == W2(p, 8) && |m.additionals| == W2(p, 10)
    && SectionsFormat(p, m)
  }

  /** Decode accepts exactly the packets that have the format, and finds exactly what they say. */
  lemma DecodeExactly(p: Bytes, m: Message)
    ensures Decode(p) == Ok(m) <==> MessageFormat(p, m)
  {
    hide ReadQuestions, ReadRecords, QuestionsFormat, RecordsFormat, DecodeHeader, HeaderFormat;
    if |p| >= 12 {
      HeaderExactly(p, m.header);
      CountsRead(p, DecodeHeader(p));
      if Decode(p) == Ok(m) {
        DecodedFormat(p, m);
      }
      if MessageFormat(p, m) {
        FormatDecoded(p, m);
      }
    }
  }

  lemma CountsRead(p: Bytes, h: Header)
    requires |p| >= 12 && h == DecodeHeader(p)
    ensures h.qdCount == W2(p, 4) && h.anCount == W2(p, 6) && h.nsCount == W2(p, 8) && h.arCount == W2(p, 10)
  {
  }

  lemma DecodedFormat(p: Bytes, m: Message)
    requires |p| >= 12 && Decode(p) == Ok(m)
    ensures SectionsFormat(p, m)
  {
    hide ReadQuestions, ReadRecords, QuestionsFormat, RecordsFormat, DecodeHeader;
    var h := DecodeHeader(p);
    var q := ReadQuestions(p, 12, h.qdCount).value;
    var an := ReadRecords(p, q.next, h.anCount).value;
    var ns := ReadRecords(p, an.next, h.nsCount).value;
    var ar := ReadRecords(p, ns.next, h.arCount).value;
    QuestionsExactly(p, 12, m.questions, q.next);
    RecordsExactly(p, q.next, m.answers, an.next);
    RecordsExactly(p, an.next, m.authorities, ns.next);
    RecordsExactly(p, ns.next, m.additionals, ar.next);
  }

  lemma FormatDecoded(p: Bytes, m: Message)
    requires MessageFormat(p, m) && DecodeHeader(p) == m.header
    requires var h := m.header; h.qdCount == W2(p, 4) && h.anCount == W2(p, 6) && h.nsCount == W2(p, 8) && h.arCount == W2(p, 10)
    ensures Decode(p) == Ok(m)
  {
    hide ReadQuestions, ReadRecords, QuestionsFormat, RecordsFormat, DecodeHeader, HeaderFormat;
    var a: nat, b: nat, c: nat, d: nat :|
      && QuestionsFormat(p, 12, m.questions, a) && RecordsFormat(p, a, m.answers, b)
      && RecordsFormat(p, b, m.authorities, c) && RecordsFormat(p, c, m.additionals, d) && d <= |p|;
    QuestionsExactly(p, 12, m.questions, a);
    RecordsExactly(p, a, m.answers, b);
    RecordsExactly(p, b, m.authorities, c);
    RecordsExactly(p, c, m.additionals, d);
  }

  /** What Encode produces has the format, and says the message: every field stands in its octets. */
  lemma EncodeFormat(m: Message)
    requires Encode(m).Ok?
    ensures exists e :: MessageFormat(Encode(m).value, e) && SameMessage(m, e, false)
  {
    hide Encode, Decode, MessageFormat, SameMessage;
    RoundTrip(m, false);
    var p := Encode(m).value;
    DecodeExactly(p, Decode(p).value);
  }
}
