/**
 Domain names as Go strings: case folding, trimming, splitting at dots and joining,
 as the codec (internal/protocol) and the resolver (internal/resolver) use them.
 `ToLower` and `TrimSpace` are the ASCII part of the Go functions of those names.
 */
module Names {
  import opened Octets

  const DOT: byte := 46
  const MAX_LABEL_LENGTH := 63
  const MAX_LABELS := 127
  const MAX_NAME_LENGTH := 255

  type Labels = seq<Bytes>

  function LowerByte(b: byte): byte {
    if 65 <= b <= 90 then b + 32 else b
  }

  function ToLower(s: Bytes): (r: Bytes)
    ensures |r| == |s|
  {
    if s == [] then [] else [LowerByte(s[0])] + ToLower(s[1..])
  }

  lemma {:induction false} ToLowerConcat(a: Bytes, b: Bytes)
    ensures ToLower(a + b) == ToLower(a) + ToLower(b)
  {
    if a == [] {
      assert a + b == b;
    } else {
      assert (a + b)[1..] == a[1..] + b;
      ToLowerConcat(a[1..], b);
    }
  }

  lemma {:induction false} ToLowerIdempotent(s: Bytes)
    ensures ToLower(ToLower(s)) == ToLower(s)
  {
    if s != [] {
      assert ToLower(s)[1..] == ToLower(s[1..]);
      ToLowerIdempotent(s[1..]);
    }
  }

  predicate IsSpace(b: byte) {
    b == 32 || 9 <= b <= 13
  }

  function TrimLeft(s: Bytes): Bytes {
    if s != [] && IsSpace(s[0]) then TrimLeft(s[1..]) else s
  }

  function TrimRight(s: Bytes): Bytes {
    if s != [] && IsSpace(s[|s| - 1]) then TrimRight(s[..|s| - 1]) else s
  }

  function TrimSpace(s: Bytes): Bytes {
    TrimRight(TrimLeft(s))
  }

  function HasSuffix(s: Bytes, t: Bytes): bool {
    |t| <= |s| && s[|s| - |t|..] == t
  }

  /** strings.TrimSuffix(s, "."). */
  function TrimDot(s: Bytes): Bytes {
    if HasSuffix(s, [DOT]) then s[..|s| - 1] else s
  }

  /** The index of the first `c` in `s`, or |s| when there is none. */
  function IndexByte(s: Bytes, c: byte): (k: nat)
    ensures k <= |s|
    ensures c !in s[..k]
    ensures k < |s| ==> s[k] == c
  {
    if s == [] || s[0] == c then 0
    else
      var k := IndexByte(s[1..], c) + 1;
      assert s[..k] == [s[0]] + s[1..][..k - 1];
      k
  }

  /** strings.Split(s, "."). */
  function SplitDots(s: Bytes): (r: Labels)
    ensures r != []
    ensures forall i :: 0 <= i < |r| ==> DOT !in r[i]
    decreases |s|
  {
    var k := IndexByte(s, DOT);
    if k == |s| then
      assert s[..k] == s;
      [s]
    else [s[..k]] + SplitDots(s[k + 1..])
  }

  /** strings.Join(labels, ".") + "." when there is a label. */
  function Dotted(labels: Labels): (r: Bytes)
    ensures labels == [] ==> r == []
    ensures labels != [] ==> r != [] && r[|r| - 1] == DOT
  {
    if labels == [] then [] else labels[0] + [DOT] + Dotted(labels[1..])
  }

  /** The octets a name takes on the wire, terminating zero included. */
  function WireLength(labels: Labels): nat {
    if labels == [] then 1 else 1 + |labels[0]| + WireLength(labels[1..])
  }

  ghost predicate PlainLabels(labels: Labels) {
    forall i :: 0 <= i < |labels| ==> 1 <= |labels[i]| <= MAX_LABEL_LENGTH && DOT !in labels[i]
  }

  lemma {:induction false} DottedLength(labels: Labels)
    ensures |Dotted(labels)| + 1 == WireLength(labels)
  {
    if labels != [] {
      DottedLength(labels[1..]);
    }
  }

  lemma {:induction false} FewLabels(labels: Labels)
    requires PlainLabels(labels)
    ensures 2 * |labels| + 1 <= WireLength(labels)
  {
    if labels != [] {
      FewLabels(labels[1..]);
    }
  }

  /** Splitting undoes joining: the labels of a dotted name are found again. */
  lemma {:induction false} SplitOfDotted(labels: Labels)
    requires labels != [] && PlainLabels(labels)
    ensures SplitDots(TrimDot(Dotted(labels))) == labels
  {
    var t := TrimDot(Dotted(labels));
    var l := labels[0];
    if |labels| == 1 {
      assert t == l;
      IndexAbsent(l);
      assert labels == [l];
    } else {
      var rest := TrimDot(Dotted(labels[1..]));
      assert t == l + ([DOT] + rest);
      IndexAt(l, [DOT] + rest);
      SplitOnce(t, l, rest);
      SplitOfDotted(labels[1..]);
      assert labels == [l] + labels[1..];
    }
  }

  lemma SplitOnce(t: Bytes, l: Bytes, rest: Bytes)
    requires t == l + ([DOT] + rest) && IndexByte(t, DOT) == |l|
    ensures SplitDots(t) == [l] + SplitDots(rest)
  {
    assert t[..|l|] == l && t[|l| + 1..] == rest;
  }

  lemma {:induction false} IndexAt(a: Bytes, b: Bytes)
    requires DOT !in a && b != [] && b[0] == DOT
    ensures IndexByte(a + b, DOT) == |a|
  {
    if a == [] {
      assert a + b == b;
    } else {
      assert (a + b)[1..] == a[1..] + b;
      assert a[0] in a;
      IndexAt(a[1..], b);
    }
  }

  lemma {:induction false} IndexAbsent(a: Bytes)
    requires DOT !in a
    ensures IndexByte(a, DOT) == |a|
  {
  }

  /** Joining undoes splitting. */
  lemma {:induction false} DottedOfSplit(s: Bytes)
    ensures Dotted(SplitDots(s)) == s + [DOT]
    decreases |s|
  {
    hide Dotted, SplitDots, IndexByte;
    SplitUnfolds(s);
    var k := IndexByte(s, DOT);
    if k == |s| {
      DottedCons(s, []);
      DottedNothing();
      assert [s] + [] == [s];
    } else {
      var rest := s[k + 1..];
      DottedCons(s[..k], SplitDots(rest));
      DottedOfSplit(rest);
      assert s == s[..k] + [DOT] + rest;
      assert s[..k] + [DOT] + (rest + [DOT]) == s + [DOT];
    }
  }

  lemma SplitUnfolds(s: Bytes)
    ensures var k := IndexByte(s, DOT);
            SplitDots(s) == if k == |s| then [s] else [s[..k]] + SplitDots(s[k + 1..])
  {
    hide IndexByte;
  }

  lemma DottedNothing()
    ensures Dotted([]) == []
  {
  }

  lemma DottedCons(l: Bytes, rest: Labels)
    ensures Dotted([l] + rest) == l + [DOT] + Dotted(rest)
  {
    assert ([l] + rest)[1..] == rest;
  }

  // ---- splitQName (internal/protocol/encoder.go) ----

  /** The checks of splitQName on the labels it has cut out. */
  predicate LabelsFit(labels: Labels) {
    && |labels| <= MAX_LABELS
    && (forall i :: 0 <= i < |labels| ==> 1 <= |labels[i]| <= MAX_LABEL_LENGTH)
    && WireLength(labels) <= MAX_NAME_LENGTH
  }

  function SplitQName(raw: Bytes): (r: Result<Labels>)
    ensures r.Ok? ==> PlainLabels(r.value) && WireLength(r.value) <= MAX_NAME_LENGTH
  {
    var name := TrimSpace(raw);
    if name == [] || name == [DOT] then Ok([])
    else
      var labels := SplitDots(TrimDot(name));
      if LabelsFit(labels) then Ok(labels) else Err
  }

  /** joinLabels without its length test: the text form of a label list. */
  function NameText(labels: Labels): Bytes {
    if labels == [] then [DOT] else Dotted(labels)
  }

  /** The text a name should come back as: trimmed and fully qualified. */
  function CanonicalName(raw: Bytes): Bytes {
    match SplitQName(raw)
    case Ok(labels) => NameText(labels)
    case Err => raw
  }

  lemma TrimFixed(s: Bytes)
    requires s != [] && !IsSpace(s[0]) && s[|s| - 1] == DOT
    ensures TrimSpace(s) == s
  {
    assert TrimLeft(s) == s;
  }

  /** Names whose text already is "." or dotted plain labels are canonical. */
  lemma CanonicalFixed(labels: Labels)
    requires PlainLabels(labels) && WireLength(labels) <= MAX_NAME_LENGTH
    requires labels != [] ==> !IsSpace(labels[0][0])
    ensures SplitQName(NameText(labels)) == Ok(labels)
    ensures CanonicalName(NameText(labels)) == NameText(labels)
  {
    hide Dotted, SplitDots, TrimSpace, TrimDot, WireLength;
    if labels != [] {
      assert labels[0][0] in labels[0];
      DottedStart(labels);
      SplitOfDotted(labels);
      FewLabels(labels);
    }
    TrimFixed(NameText(labels));
  }

  lemma DottedStart(labels: Labels)
    requires labels != [] && |labels[0]| >= 1
    ensures Dotted(labels)[0] == labels[0][0]
  {
    assert Dotted(labels) == labels[0] + ([DOT] + Dotted(labels[1..]));
  }

  /** splitQName trims, so the first label of its result does not start with a space. */
  lemma FirstNotSpace(raw: Bytes, labels: Labels)
    requires SplitQName(raw) == Ok(labels) && labels != []
    ensures !IsSpace(labels[0][0])
  {
    var name := TrimSpace(raw);
    var t := TrimDot(name);
    TrimLeftStart(raw);
    TrimRightPrefix(TrimLeft(raw));
    DottedOfSplit(t);
    hide Dotted, TrimLeft, TrimRight, IndexByte;
    DottedStart(labels);
    assert labels[0][0] == (t + [DOT])[0];
    if t == [] {
      SplitNothing();
    }
  }

  lemma SplitNothing()
    ensures SplitDots([]) == [[]]
  {
  }

  /**
   Exactly which names survive as text, among all that can stand on the wire: those without a
   dot inside a label, and without a space at the very start.
   */
  lemma CanonicalExactly(labels: Labels)
    requires forall i :: 0 <= i < |labels| ==> 1 <= |labels[i]| <= MAX_LABEL_LENGTH
    requires WireLength(labels) <= MAX_NAME_LENGTH
    ensures SplitQName(NameText(labels)) == Ok(labels)
            <==> (forall i :: 0 <= i < |labels| ==> DOT !in labels[i]) && (labels != [] ==> !IsSpace(labels[0][0]))
  {
    hide SplitQName, NameText, WireLength;
    if SplitQName(NameText(labels)) == Ok(labels) {
      if labels != [] {
        FirstNotSpace(NameText(labels), labels);
      }
    } else if (forall i :: 0 <= i < |labels| ==> DOT !in labels[i]) && (labels != [] ==> !IsSpace(labels[0][0])) {
      CanonicalFixed(labels);
    }
  }

  lemma {:induction false} TrimLeftStart(s: Bytes)
    ensures TrimLeft(s) != [] ==> !IsSpace(TrimLeft(s)[0])
  {
    if s != [] && IsSpace(s[0]) {
      TrimLeftStart(s[1..]);
    }
  }

  lemma {:induction false} TrimRightPrefix(s: Bytes)
    ensures TrimRight(s) <= s
  {
    if s != [] && IsSpace(s[|s| - 1]) {
      TrimRightPrefix(s[..|s| - 1]);
    }
  }

  // ---- trimming and splitting, in terms of the text ----

  ghost predicate Spaces(s: Bytes) {
    forall i :: 0 <= i < |s| ==> s[i] == 32 || 9 <= s[i] <= 13
  }

  /** No space at either end. */
  ghost predicate Trimmed(s: Bytes) {
    s != [] ==> !Spaces(s[..1]) && !Spaces(s[|s| - 1..])
  }

  lemma {:induction false} TrimSpaceIs(pre: Bytes, core: Bytes, post: Bytes)
    requires Spaces(pre) && Spaces(post) && Trimmed(core)
    ensures TrimSpace(pre + core + post) == core
    decreases |pre|
  {
    if pre == [] {
      assert pre + core + post == core + post;
      if core == [] {
        assert core + post == post;
        TrimLeftAll(post);
      } else {
        assert (core + post)[0] == core[0];
        TrimRightIs(core, post);
      }
    } else {
      assert (pre + core + post)[1..] == pre[1..] + core + post;
      TrimSpaceIs(pre[1..], core, post);
    }
  }

  lemma {:induction false} TrimLeftAll(s: Bytes)
    requires Spaces(s)
    ensures TrimSpace(s) == []
  {
    if s != [] {
      TrimLeftAll(s[1..]);
    }
  }

  lemma {:induction false} TrimRightIs(core: Bytes, post: Bytes)
    requires Spaces(post) && Trimmed(core) && core != []
    ensures TrimRight(core + post) == core
  {
    if post == [] {
      assert core + post == core;
    } else {
      assert (core + post)[..|core + post| - 1] == core + post[..|post| - 1];
      TrimRightIs(core, post[..|post| - 1]);
    }
  }

  /** Labels that can stand on the wire: of 1 to 63 octets, 255 in all, and here without dots. */
  ghost predicate LegalLabels(labels: Labels) {
    && (forall i :: 0 <= i < |labels| ==> 1 <= |labels[i]| <= 63 && 46 !in labels[i])
    && |Dotted(labels)| <= 254
  }

  /**
   What splitQName makes of a text, spaces around it or not: the root for nothing or a dot alone,
   and otherwise the one list of legal labels that, joined, is the text with its final dot; no
   list exactly when there is none.
   */
  lemma SplitExactly(pre: Bytes, core: Bytes, post: Bytes, labels: Labels)
    requires Spaces(pre) && Spaces(post) && Trimmed(core)
    ensures SplitQName(pre + core + post) == Ok(labels)
            <==> if labels == [] then core == [] || core == [46]
                 else LegalLabels(labels) && (Dotted(labels) == core || Dotted(labels) == core + [46])
  {
    hide TrimSpace, SplitDots, Dotted, WireLength, IndexByte;
    TrimSpaceIs(pre, core, post);
    if labels != [] {
      if SplitQName(pre + core + post) == Ok(labels) {
        DottedOfSplit(TrimDot(core));
        DottedLength(labels);
        assert HasSuffix(core, [DOT]) ==> TrimDot(core) + [DOT] == core;
      } else if LegalLabels(labels) && (Dotted(labels) == core || Dotted(labels) == core + [46]) {
        LegalSplits(labels, core);
      }
    }
  }

  lemma LegalSplits(labels: Labels, core: Bytes)
    requires labels != [] && LegalLabels(labels)
    requires Dotted(labels) == core || Dotted(labels) == core + [DOT]
    ensures core != [] && core != [DOT] && SplitDots(TrimDot(core)) == labels && LabelsFit(labels)
  {
    hide SplitDots, Dotted, WireLength;
    SplitOfDotted(labels);
    DottedLength(labels);
    FewLabels(labels);
    DottedEnd(labels);
    if Dotted(labels) == core + [DOT] {
      assert TrimDot(Dotted(labels)) == core;
    }
  }

  lemma {:induction false} DottedEnd(labels: Labels)
    requires labels != [] && PlainLabels(labels)
    ensures |Dotted(labels)| >= 2 && Dotted(labels)[|Dotted(labels)| - 2] != DOT
  {
    var l := labels[0];
    if |labels| == 1 {
      assert l[|l| - 1] in l;
    } else {
      DottedEnd(labels[1..]);
    }
  }
}
