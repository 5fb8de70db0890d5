/**
 Names on the wire (section 4.1.4 of RFC 1035): what writeName appends, what decodeName
 reads, and the invariant of the compression table that makes one undo the other.

 Writing a name looks only at the length of the buffer and at the table, so it is
 specified by the position it starts at. The lemmas speak of the finished packet `p`
 with `At(p, pos, x)`: whatever is appended or patched elsewhere later is covered.
 */
module NameWire {
  import opened Octets
  import opened Names

  const MAX_POINTER := 0x3FFF

  type Table = map<Bytes, nat>

  // ---- writing ----

  datatype Written = Written(bytes: Bytes, table: Table)

  /** The compression key of a name: its dotted text in lower case. */
  function Key(labels: Labels): Bytes {
    if labels == [] then [] else ToLower(labels[0]) + [DOT] + Key(labels[1..])
  }

  lemma {:induction false} KeyIsLowerText(labels: Labels)
    ensures Key(labels) == ToLower(Dotted(labels))
  {
    if labels != [] {
      KeyIsLowerText(labels[1..]);
      ToLowerConcat(labels[0] + [DOT], Dotted(labels[1..]));
      ToLowerConcat(labels[0], [DOT]);
      assert ToLower([DOT]) == [DOT];
    }
  }

  function PutLabels(pos: nat, labels: Labels, table: Table): (r: Result<Written>)
    requires PlainLabels(labels)
    decreases |labels|
  {
    if labels == [] then Ok(Written([0], table))
    else if Key(labels) in table then
      var ptr := table[Key(labels)];
      if ptr > MAX_POINTER then Err else Ok(Written(U16(0xC000 + ptr), table))
    else
      var l := labels[0];
      var rest :- PutLabels(pos + 1 + |l|, labels[1..], table[Key(labels) := pos]);
      Ok(Written([|l|] + l + rest.bytes, rest.table))
  }

  function PutName(pos: nat, raw: Bytes, table: Table): Result<Written> {
    var labels :- SplitQName(raw);
    PutLabels(pos, labels, table)
  }

  // ---- reading ----

  predicate IsPointer(b: byte) { b / 64 == 3 }

  predicate IsLabel(b: byte) { 1 <= b < 64 }

  function PointerAt(p: Bytes, off: nat): nat
    requires off + 2 <= |p|
  {
    ReadU16(p, off) % 0x4000
  }

  datatype Name = Name(text: Bytes, next: nat)

  function JoinLabels(labels: Labels): Result<Bytes> {
    if labels != [] && WireLength(labels) > MAX_NAME_LENGTH then Err else Ok(NameText(labels))
  }

  /**
   The loop of decodeName from a given state of its variables. `next` is None until the
   first pointer is followed.
   */
  function Walk(p: Bytes, curr: nat, next: Option<nat>, labels: Labels, visited: set<nat>, jumps: nat): Result<Name>
    requires |labels| <= MAX_LABELS && jumps <= MAX_LABELS
    decreases 2 * MAX_LABELS - |labels| - jumps
  {
    if curr >= |p| then Err
    else if IsPointer(p[curr]) then
      if curr + 1 >= |p| then Err
      else
        var ptr := PointerAt(p, curr);
        if ptr >= |p| || ptr in visited || jumps + 1 > MAX_LABELS then Err
        else Walk(p, ptr, if next.None? then Some(curr + 2) else next, labels, visited + {ptr}, jumps + 1)
    else if p[curr] == 0 then
      var text :- JoinLabels(labels);
      Ok(Name(text, if next.None? then curr + 1 else next.value))
    else if IsLabel(p[curr]) then
      var end := curr + 1 + p[curr];
      if end > |p| || |labels| + 1 > MAX_LABELS then Err
      else Walk(p, end, next, labels + [p[curr + 1..end]], visited, jumps)
    else Err
  }

  function ReadName(p: Bytes, off: nat): Result<Name> {
    if off >= |p| then Err else Walk(p, off, None, [], {}, 0)
  }

  /** Where the record goes on after a name: found without following any pointer. */
  function SkipName(p: Bytes, off: nat): (r: Option<nat>)
    ensures r.Some? ==> off < r.value <= |p|
    decreases |p| - off
  {
    if off >= |p| then None
    else if IsPointer(p[off]) then if off + 1 < |p| then Some(off + 2) else None
    else if p[off] == 0 then Some(off + 1)
    else if IsLabel(p[off]) then SkipName(p, off + 1 + p[off])
    else None
  }

  lemma {:induction false} WalkNext(p: Bytes, curr: nat, next: Option<nat>, labels: Labels, visited: set<nat>, jumps: nat)
    requires |labels| <= MAX_LABELS && jumps <= MAX_LABELS
    requires Walk(p, curr, next, labels, visited, jumps).Ok?
    ensures var n := Walk(p, curr, next, labels, visited, jumps).value.next;
            if next.Some? then n == next.value else SkipName(p, curr) == Some(n)
    decreases 2 * MAX_LABELS - |labels| - jumps
  {
    if IsPointer(p[curr]) {
      var ptr := PointerAt(p, curr);
      WalkNext(p, ptr, if next.None? then Some(curr + 2) else next, labels, visited + {ptr}, jumps + 1);
    } else if p[curr] != 0 {
      var end := curr + 1 + p[curr];
      WalkNext(p, end, next, labels + [p[curr + 1..end]], visited, jumps);
    }
  }

  /** Two packets that agree between `off` and the end of the name skip alike. */
  lemma {:induction false} SkipLocal(p: Bytes, q: Bytes, off: nat)
    requires SkipName(p, off).Some?
    requires SkipName(p, off).value <= |q|
    requires forall i :: off <= i < SkipName(p, off).value ==> p[i] == q[i]
    ensures SkipName(q, off) == SkipName(p, off)
    decreases |p| - off
  {
    if !IsPointer(p[off]) && p[off] != 0 {
      SkipLocal(p, q, off + 1 + p[off]);
    }
  }

  /**
   decodeName moves forward inside the packet, and where it stops depends only on the
   octets it passes over, never on those at pointer targets.
   */
  lemma ReadNameNext(p: Bytes, q: Bytes, off: nat)
    requires ReadName(p, off).Ok?
    ensures off < ReadName(p, off).value.next <= |p|
    ensures ReadName(p, off).value.next <= |q|
              && (forall i :: off <= i < ReadName(p, off).value.next ==> p[i] == q[i])
              && ReadName(q, off).Ok?
            ==> ReadName(q, off).value.next == ReadName(p, off).value.next
  {
    WalkNext(p, off, None, [], {}, 0);
    var n := ReadName(p, off).value.next;
    if n <= |q| && (forall i :: off <= i < n ==> p[i] == q[i]) && ReadName(q, off).Ok? {
      SkipLocal(p, q, off);
      WalkNext(q, off, None, [], {}, 0);
    }
  }

  // ---- the table invariant ----

  /**
   `labels` can be read at `off` by following labels forward and pointers strictly
   backward, each pointer landing on the start of a label.
   */
  ghost predicate NameAt(p: Bytes, off: nat, labels: Labels)
    decreases |labels|, off
  {
    && off < |p|
    && if IsPointer(p[off]) then
         && off + 1 < |p|
         && labels != []
         && PointerAt(p, off) < off
         && IsLabel(p[PointerAt(p, off)])
         && NameAt(p, PointerAt(p, off), labels)
       else if labels == [] then p[off] == 0
       else
         && IsLabel(p[off])
         && |labels[0]| == p[off]
         && At(p, off + 1, labels[0])
         && NameAt(p, off + 1 + p[off], labels[1..])
  }

  lemma {:induction false} NameAtUnique(p: Bytes, off: nat, a: Labels, b: Labels)
    requires NameAt(p, off, a) && NameAt(p, off, b)
    ensures a == b
    decreases |a|, off
  {
    if IsPointer(p[off]) {
      NameAtUnique(p, PointerAt(p, off), a, b);
    } else if a != [] && b != [] {
      NameAtUnique(p, off + 1 + p[off], a[1..], b[1..]);
      AtSlice(p, off + 1, a[0]);
      AtSlice(p, off + 1, b[0]);
      assert a == [a[0]] + a[1..] && b == [b[0]] + b[1..];
    }
  }

  /** Longer packets keep every name they held. */
  lemma {:induction false} NameAtAppend(p: Bytes, x: Bytes, off: nat, labels: Labels)
    requires NameAt(p, off, labels)
    ensures NameAt(p + x, off, labels)
    decreases |labels|, off
  {
    if IsPointer(p[off]) {
      NameAtAppend(p, x, PointerAt(p, off), labels);
    } else if labels != [] {
      AtAppend(p, x, off + 1, labels[0]);
      NameAtAppend(p, x, off + 1 + p[off], labels[1..]);
    }
  }

  ghost predicate Lowered(labels: Labels) {
    forall i :: 0 <= i < |labels| ==> ToLower(labels[i]) == labels[i]
  }

  /**
   `labels` stand at `off`, are plain, and `key` is their compression key. With `lc`, for
   messages written in lower case throughout, they are in lower case too.
   */
  ghost predicate Holds(p: Bytes, off: nat, labels: Labels, key: Bytes, lc: bool) {
    && NameAt(p, off, labels)
    && IsLabel(p[off])
    && PlainLabels(labels)
    && Key(labels) == key
    && |key| < MAX_NAME_LENGTH
    && (lc ==> Lowered(labels))
  }

  /** The entry `key` -> `off` names a label start where that very name is found. */
  ghost predicate EntryOk(p: Bytes, key: Bytes, off: nat, lc: bool) {
    off < |p| && exists labels :: Holds(p, off, labels, key, lc)
  }

  /** Every entry with a key of at most `n` octets is right and lies before `limit`. */
  ghost predicate ShortOk(p: Bytes, limit: nat, table: Table, n: nat, lc: bool) {
    forall k {:trigger k in table} :: k in table && |k| <= n ==> table[k] < limit && EntryOk(p, k, table[k], lc)
  }

  ghost predicate TableOk(p: Bytes, limit: nat, table: Table, lc: bool) {
    forall k :: k in table ==> table[k] < limit && EntryOk(p, k, table[k], lc)
  }

  /** `after` extends `before`, and what it adds is right and lies before `limit`. */
  ghost predicate Extends(p: Bytes, limit: nat, before: Table, after: Table, lc: bool) {
    && (forall k :: k in before ==> k in after && after[k] == before[k])
    && (forall k :: k in after && k !in before ==> after[k] < limit && EntryOk(p, k, after[k], lc))
  }

  lemma TableOkAppend(p: Bytes, x: Bytes, limit: nat, more: nat, table: Table, lc: bool)
    requires TableOk(p, limit, table, lc) && limit <= more
    ensures TableOk(p + x, more, table, lc)
  {
    forall k | k in table
      ensures table[k] < more && EntryOk(p + x, k, table[k], lc)
    {
      var labels :| Holds(p, table[k], labels, k, lc);
      NameAtAppend(p, x, table[k], labels);
      assert Holds(p + x, table[k], labels, k, lc);
    }
  }

  /** `found` stands at `pos` up to `end`, and is `labels` up to case. */
  ghost predicate ReadsAs(p: Bytes, pos: nat, labels: Labels, found: Labels, end: nat, lc: bool) {
    && NameAt(p, pos, found)
    && PlainLabels(found)
    && Key(found) == Key(labels)
    && (lc ==> Lowered(found))
    && SkipName(p, pos).Some? && SkipName(p, pos).value == end
  }

  /**
   The heart of compression: once the octets writeName produced stand in a packet whose
   table entries are right, the name can be read back there up to case, the entries it
   adds are right as well, and the name ends where those octets end. While the rest of a
   name is being written its own entry cannot be followed: it is longer than any suffix.
   */
  lemma {:induction false} PutLabelsReads(p: Bytes, pos: nat, labels: Labels, table: Table, w: Written, lc: bool)
      returns (found: Labels)
    requires PlainLabels(labels) && (lc ==> Lowered(labels)) && |Key(labels)| < MAX_NAME_LENGTH
    requires PutLabels(pos, labels, table) == Ok(w) && At(p, pos, w.bytes)
    requires ShortOk(p, pos, table, |Key(labels)|, lc)
    ensures ReadsAs(p, pos, labels, found, pos + |w.bytes|, lc)
    ensures Extends(p, pos + |w.bytes|, table, w.table, lc)
    decreases |labels|
  {
    if labels == [] {
      AtByte(p, pos, 0);
      found := [];
    } else if Key(labels) in table {
      found := FollowEntry(p, pos, labels, table, w, lc);
    } else {
      var rest := UnfoldPut(p, pos, labels, table, w, lc);
      var tail := PutLabelsReads(p, pos + 1 + |labels[0]|, labels[1..], table[Key(labels) := pos], rest, lc);
      found := PrependLabel(p, pos, labels, table, w, rest, tail, lc);
    }
  }

  /** One round of writeName's loop, seen from the finished packet. */
  lemma UnfoldPut(p: Bytes, pos: nat, labels: Labels, table: Table, w: Written, lc: bool) returns (rest: Written)
    requires labels != [] && PlainLabels(labels) && Key(labels) !in table
    requires PutLabels(pos, labels, table) == Ok(w) && At(p, pos, w.bytes)
    requires ShortOk(p, pos, table, |Key(labels)|, lc)
    ensures PutLabels(pos + 1 + |labels[0]|, labels[1..], table[Key(labels) := pos]) == Ok(rest)
    ensures w == Written([|labels[0]|] + labels[0] + rest.bytes, rest.table)
    ensures At(p, pos + 1 + |labels[0]|, rest.bytes)
    ensures ShortOk(p, pos + 1 + |labels[0]|, table[Key(labels) := pos], |Key(labels[1..])|, lc)
  {
    rest := PutLabels(pos + 1 + |labels[0]|, labels[1..], table[Key(labels) := pos]).value;
    AtSplit(p, pos, [|labels[0]|] + labels[0], rest.bytes);
    assert |Key(labels[1..])| < |Key(labels)|;
  }

  lemma FollowEntry(p: Bytes, pos: nat, labels: Labels, table: Table, w: Written, lc: bool) returns (found: Labels)
    requires labels != [] && PlainLabels(labels) && Key(labels) in table
    requires PutLabels(pos, labels, table) == Ok(w) && At(p, pos, w.bytes)
    requires ShortOk(p, pos, table, |Key(labels)|, lc)
    ensures ReadsAs(p, pos, labels, found, pos + |w.bytes|, lc)
    ensures Extends(p, pos + |w.bytes|, table, w.table, lc)
  {
    var ptr := table[Key(labels)];
    assert w == Written(U16(0xC000 + ptr), table);
    AtU16(p, pos, 0xC000 + ptr);
    assert IsPointer(p[pos]) && PointerAt(p, pos) == ptr;
    found :| Holds(p, ptr, found, Key(labels), lc);
  }

  /** A label in front of a name that reads well: its entry is right from now on. */
  lemma PrependLabel(p: Bytes, pos: nat, labels: Labels, table: Table, w: Written, rest: Written, tail: Labels, lc: bool)
      returns (found: Labels)
    requires labels != [] && PlainLabels(labels) && (lc ==> Lowered(labels)) && Key(labels) !in table
    requires |Key(labels)| < MAX_NAME_LENGTH
    requires w == Written([|labels[0]|] + labels[0] + rest.bytes, rest.table) && At(p, pos, w.bytes)
    requires ReadsAs(p, pos + 1 + |labels[0]|, labels[1..], tail, pos + 1 + |labels[0]| + |rest.bytes|, lc)
    requires Extends(p, pos + 1 + |labels[0]| + |rest.bytes|, table[Key(labels) := pos], rest.table, lc)
    ensures ReadsAs(p, pos, labels, found, pos + |w.bytes|, lc)
    ensures Extends(p, pos + |w.bytes|, table, w.table, lc)
  {
    var l := labels[0];
    AtSplit(p, pos, [|l|] + l, rest.bytes);
    AtSplit(p, pos, [|l|], l);
    found := [l] + tail;
    assert found[1..] == tail;
    assert Holds(p, pos, found, Key(labels), lc);
    assert w.table[Key(labels)] == pos;
  }

  /** decodeName finds every name that stands in the packet in the sense of NameAt. */
  lemma {:induction false} WalkFinds(p: Bytes, curr: nat, next: Option<nat>, acc: Labels, seen: map<nat, Labels>, jumps: nat, labels: Labels)
    requires NameAt(p, curr, labels)
    requires WireLength(acc + labels) <= MAX_NAME_LENGTH && |acc + labels| <= MAX_LABELS
    requires jumps + |labels| <= if IsPointer(p[curr]) then MAX_LABELS else MAX_LABELS + 1
    requires jumps <= MAX_LABELS
    requires forall v :: v in seen ==> NameAt(p, v, seen[v]) && |labels| <= |seen[v]|
    requires IsPointer(p[curr]) ==> forall v :: v in seen ==> |labels| < |seen[v]|
    ensures var r := Walk(p, curr, next, acc, seen.Keys, jumps);
            r.Ok? && r.value.text == NameText(acc + labels)
    decreases |labels|, curr
  {
    hide ReadU16, At, NameText, WireLength;
    if IsPointer(p[curr]) {
      var ptr := PointerAt(p, curr);
      if ptr in seen {
        NameAtUnique(p, ptr, labels, seen[ptr]);
      }
      var seen' := seen[ptr := labels];
      assert seen'.Keys == seen.Keys + {ptr};
      WalkFinds(p, ptr, if next.None? then Some(curr + 2) else next, acc, seen', jumps + 1, labels);
    } else if labels == [] {
      assert acc + labels == acc;
    } else {
      var end := curr + 1 + p[curr];
      AtSlice(p, curr + 1, labels[0]);
      var acc' := acc + [labels[0]];
      assert acc' + labels[1..] == acc + labels;
      WalkFinds(p, end, next, acc', seen, jumps, labels[1..]);
    }
  }

  lemma ReadNameFinds(p: Bytes, off: nat, labels: Labels)
    requires NameAt(p, off, labels) && WireLength(labels) <= MAX_NAME_LENGTH && |labels| <= MAX_LABELS
    requires SkipName(p, off).Some?
    ensures ReadName(p, off) == Ok(Name(NameText(labels), SkipName(p, off).value))
  {
    assert [] + labels == labels;
    var seen: map<nat, Labels> := map[];
    WalkFinds(p, off, None, [], seen, 0, labels);
    assert seen.Keys == {};
    WalkNext(p, off, None, [], {}, 0);
  }

  /** A name that stands in the packet can be passed over. */
  lemma {:induction false} NameAtSkips(p: Bytes, off: nat, labels: Labels)
    requires NameAt(p, off, labels)
    ensures SkipName(p, off).Some?
    decreases |labels|, off
  {
    if !IsPointer(p[off]) && labels != [] {
      NameAtSkips(p, off + 1 + p[off], labels[1..]);
    }
  }

  /** decodeName succeeds at `off` with a name whose compression key is `key`. */
  ghost predicate EntryDecodes(p: Bytes, key: Bytes, off: nat) {
    ReadName(p, off).Ok? && ToLower(ReadName(p, off).value.text) == key
  }

  ghost predicate EntriesDecode(p: Bytes, table: Table) {
    forall k :: k in table ==> EntryDecodes(p, k, table[k])
  }

  /** Every entry of a right table decodes to its key. */
  lemma TableDecodes(p: Bytes, limit: nat, table: Table, lc: bool)
    requires TableOk(p, limit, table, lc)
    ensures EntriesDecode(p, table)
  {
    forall k | k in table
      ensures EntryDecodes(p, k, table[k])
    {
      var labels :| Holds(p, table[k], labels, k, lc);
      EntryFound(p, table[k], labels, k, lc);
    }
  }

  lemma EntryFound(p: Bytes, off: nat, labels: Labels, key: Bytes, lc: bool)
    requires Holds(p, off, labels, key, lc)
    ensures EntryDecodes(p, key, off)
  {
    hide Walk;
    NameAtSkips(p, off, labels);
    KeyIsLowerText(labels);
    DottedLength(labels);
    FewLabels(labels);
    ReadNameFinds(p, off, labels);
  }

  lemma {:induction false} LoweredKey(labels: Labels)
    requires Lowered(labels)
    ensures Key(labels) == Dotted(labels)
  {
    if labels != [] {
      LoweredKey(labels[1..]);
    }
  }

  /** `text` is a name the codec can reproduce; it is `raw` up to case, or exactly with `lc`. */
  ghost predicate SameName(raw: Bytes, text: Bytes, lc: bool) {
    && SplitQName(text).Ok? && CanonicalName(text) == text
    && ToLower(text) == ToLower(CanonicalName(raw))
    && (lc ==> text == CanonicalName(raw))
  }

  /** `raw` is written in lower case. */
  ghost predicate IsLower(raw: Bytes) {
    SplitQName(raw).Ok? ==> Lowered(SplitQName(raw).value)
  }

  lemma SameLabels(raw: Bytes, labels: Labels, found: Labels, lc: bool)
    requires SplitQName(raw) == Ok(labels)
    requires PlainLabels(found) && Key(found) == Key(labels)
    requires lc ==> Lowered(labels) && Lowered(found)
    ensures WireLength(found) == WireLength(labels)
    ensures SameName(raw, NameText(found), lc)
  {
    KeyIsLowerText(labels);
    KeyIsLowerText(found);
    DottedLength(labels);
    DottedLength(found);
    if found != [] {
      FirstNotSpace(raw, labels);
      assert Key(found)[0] == LowerByte(found[0][0]) && Key(labels)[0] == LowerByte(labels[0][0]);
    }
    CanonicalFixed(found);
    if lc {
      LoweredKey(found);
      LoweredKey(labels);
    }
  }

  /** The invariant for the caller: after writeName, decodeName reads the name back. */
  lemma PutNameReads(p: Bytes, pos: nat, raw: Bytes, table: Table, w: Written, lc: bool)
    requires PutName(pos, raw, table) == Ok(w) && At(p, pos, w.bytes)
    requires lc ==> IsLower(raw)
    requires TableOk(p, pos, table, lc)
    ensures TableOk(p, pos + |w.bytes|, w.table, lc)
    ensures ReadName(p, pos).Ok? && ReadName(p, pos).value.next == pos + |w.bytes|
    ensures SameName(raw, ReadName(p, pos).value.text, lc)
  {
    var labels := SplitQName(raw).value;
    KeyIsLowerText(labels);
    DottedLength(labels);
    var found := PutLabelsReads(p, pos, labels, table, w, lc);
    SameLabels(raw, labels, found, lc);
    FewLabels(found);
    ReadNameFinds(p, pos, found);
  }
}
