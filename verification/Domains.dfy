/**
 Names in the resolver: normalizeFQDN and InBailiwick (internal/resolver/bailiwick.go) and
 query-name minimisation (internal/resolver/qname_minimization.go).
 */
module Domains {
  import opened Octets
  import opened Names

  /** normalizeFQDN. */
  function Normalize(name: Bytes): (r: Bytes)
    ensures r != [] && r[|r| - 1] == DOT
  {
    var n := TrimSpace(ToLower(name));
    if n == [] || n == [DOT] then [DOT]
    else if HasSuffix(n, [DOT]) then n else n + [DOT]
  }

  lemma {:induction false} ToLowerAt(s: Bytes, i: nat)
    requires i < |s|
    ensures ToLower(s)[i] == LowerByte(s[i])
  {
    if i > 0 {
      ToLowerAt(s[1..], i - 1);
    }
  }

  ghost predicate AllLower(s: Bytes) {
    forall i :: 0 <= i < |s| ==> LowerByte(s[i]) == s[i]
  }

  lemma {:induction false} LowerFixed(s: Bytes)
    requires AllLower(s)
    ensures ToLower(s) == s
  {
    if s != [] {
      LowerFixed(s[1..]);
    }
  }

  lemma {:induction false} TrimLeftSuffix(s: Bytes)
    ensures exists k: nat :: k <= |s| && TrimLeft(s) == s[k..]
  {
    if s != [] && IsSpace(s[0]) {
      TrimLeftSuffix(s[1..]);
      var k: nat :| k <= |s[1..]| && TrimLeft(s[1..]) == s[1..][k..];
      assert s[1..][k..] == s[k + 1..];
    } else {
      assert TrimLeft(s) == s[0..];
    }
  }

  lemma TrimSlice(s: Bytes) returns (i: nat, j: nat)
    ensures i <= j <= |s| && TrimSpace(s) == s[i..j]
    ensures TrimSpace(s) != [] ==> !IsSpace(TrimSpace(s)[0])
  {
    hide TrimLeft, TrimRight;
    TrimLeftSuffix(s);
    TrimLeftStart(s);
    var t := TrimLeft(s);
    TrimRightPrefix(t);
    i :| i <= |s| && t == s[i..];
    j := i + |TrimRight(t)|;
    assert TrimRight(t) == t[..j - i];
  }

  /** A normalised name is lower case, without spaces around it, and ends in a dot. */
  lemma NormalizeShape(name: Bytes)
    ensures AllLower(Normalize(name)) && !IsSpace(Normalize(name)[0])
  {
    hide TrimSpace, ToLower;
    var l := ToLower(name);
    forall i | 0 <= i < |l|
      ensures LowerByte(l[i]) == l[i]
    {
      ToLowerAt(name, i);
    }
    var i, j := TrimSlice(l);
  }

  /** Such a name is left as it is. */
  lemma NormalFixed(n: Bytes)
    requires n != [] && AllLower(n) && !IsSpace(n[0]) && n[|n| - 1] == DOT
    ensures Normalize(n) == n
  {
    LowerFixed(n);
    TrimFixed(n);
    assert n[|n| - 1..] == [DOT];
  }

  lemma NormalizeTwice(name: Bytes)
    ensures Normalize(Normalize(name)) == Normalize(name)
  {
    hide Normalize;
    NormalizeShape(name);
    NormalFixed(Normalize(name));
  }

  /** Normalising drops the spaces around a name, folds its case and adds the dot it lacks. */
  lemma NormalizeExactly(pre: Bytes, core: Bytes, post: Bytes)
    requires Spaces(pre) && Spaces(post) && Trimmed(core)
    ensures var n := Normalize(pre + core + post);
            if core == [] || core == [46] then n == [46]
            else
              && |n| == |core| + (if core[|core| - 1] == 46 then 0 else 1) && n[|n| - 1] == 46
              && forall i :: 0 <= i < |core| ==> n[i] == (if 65 <= core[i] <= 90 then core[i] + 32 else core[i])
  {
    hide ToLower, TrimSpace, Spaces, Trimmed;
    LowerAround(pre, core, post);
    var l := ToLower(core);
    TrimSpaceIs(pre, l, post);
    assert l != [] ==> l[|l| - 1..] == [l[|l| - 1]];
    assert |core| == 1 ==> core == [core[0]] && l == [l[0]];
  }

  lemma LowerAround(pre: Bytes, core: Bytes, post: Bytes)
    requires Spaces(pre) && Spaces(post) && Trimmed(core)
    ensures ToLower(pre + core + post) == pre + ToLower(core) + post && Trimmed(ToLower(core))
    ensures forall i :: 0 <= i < |core| ==> ToLower(core)[i] == (if 65 <= core[i] <= 90 then core[i] + 32 else core[i])
  {
    hide ToLower;
    ToLowerConcat(pre + core, post);
    ToLowerConcat(pre, core);
    LowerSpaces(pre);
    LowerSpaces(post);
    forall i | 0 <= i < |core|
      ensures ToLower(core)[i] == (if 65 <= core[i] <= 90 then core[i] + 32 else core[i])
    {
      ToLowerAt(core, i);
    }
  }

  lemma LowerSpaces(s: Bytes)
    requires Spaces(s)
    ensures ToLower(s) == s
  {
    assert AllLower(s);
    LowerFixed(s);
  }

  /** InBailiwick: a test on the text of the names, not on their labels. */
  predicate InBailiwick(name: Bytes, zone: Bytes) {
    var n, z := Normalize(name), Normalize(zone);
    z == [DOT] || n == z || HasSuffix(n, [DOT] + TrimDot(z) + [DOT]) || HasSuffix(n, z)
  }

  /** All four tests come to one: the name's text ends in the zone's, on a label boundary or not. */
  lemma BailiwickIsTextual(name: Bytes, zone: Bytes)
    ensures InBailiwick(name, zone) <==> Normalize(zone) == [DOT] || HasSuffix(Normalize(name), Normalize(zone))
  {
    hide Normalize;
    var n, z := Normalize(name), Normalize(zone);
    assert z[|z| - 1..] == [DOT];
    var longer := [DOT] + TrimDot(z) + [DOT];
    assert TrimDot(z) + [DOT] == z && longer == [DOT] + z;
    if HasSuffix(n, longer) {
      assert n[|n| - |z|..] == n[|n| - |longer|..][1..];
    }
  }

  // ---- minimisation ----

  /** The labels of a normalised name; the root has none. */
  function LabelsOf(qname: Bytes): Labels {
    var full := Normalize(qname);
    if full == [DOT] then [] else SplitDots(TrimDot(full))
  }

  lemma LabelsJoined(qname: Bytes)
    ensures LabelsOf(qname) != [] ==> Dotted(LabelsOf(qname)) == Normalize(qname)
  {
    hide Normalize, SplitDots, Dotted;
    var full := Normalize(qname);
    DottedOfSplit(TrimDot(full));
    assert full[|full| - 1..] == [DOT];
  }

  lemma RootLabels(qname: Bytes)
    ensures LabelsOf(qname) == [] <==> Normalize(qname) == [DOT]
  {
    hide Normalize;
  }

  /** Spec of QNAMEMinimizationSteps: the names made of the last 1, 2, ... labels. */
  function Steps(qname: Bytes): seq<Bytes> {
    var labels := LabelsOf(qname);
    if labels == [] then [[DOT]]
    else seq(|labels|, i requires 0 <= i < |labels| => Dotted(labels[|labels| - 1 - i..]))
  }

  method QNAMEMinimizationSteps(qname: Bytes) returns (out: seq<Bytes>)
    ensures out == Steps(qname)
  {
    hide Normalize, Dotted, SplitDots, TrimDot;
    var full := Normalize(qname);
    if full == [DOT] {
      return [[DOT]];
    }
    var labels := SplitDots(TrimDot(full));
    out := [];
    var i := |labels| - 1;
    while i >= 0
      invariant -1 <= i < |labels| && |out| == |labels| - 1 - i
      invariant forall k :: 0 <= k < |out| ==> out[k] == Dotted(labels[|labels| - 1 - k..])
    {
      out := out + [Dotted(labels[i..])];
      i := i - 1;
    }
  }

  /** MinimizedQNameForHop. */
  function MinimizedName(qname: Bytes, hop: int): Bytes {
    var steps := Steps(qname);
    var h := if hop < 0 then 0 else hop;
    if h >= |steps| then Normalize(qname) else steps[h]
  }

  lemma {:induction false} DottedConcat(a: Labels, b: Labels)
    ensures Dotted(a + b) == Dotted(a) + Dotted(b)
  {
    if a == [] {
      assert a + b == b;
    } else {
      assert (a + b)[1..] == a[1..] + b;
      DottedConcat(a[1..], b);
    }
  }

  lemma {:induction false} DottedGrows(a: Labels)
    ensures |Dotted(a)| >= |a|
  {
    if a != [] {
      DottedGrows(a[1..]);
    }
  }

  /**
   The name for hop h is the last h + 1 whole labels of the name, and the whole name from the
   last hop on; only then is it the whole name.
   */
  lemma MinimizedIs(qname: Bytes, hop: nat)
    ensures var labels, name := LabelsOf(qname), MinimizedName(qname, hop);
            && (hop < |labels| ==>
                  name == Dotted(labels[|labels| - 1 - hop..])
                  && Normalize(qname) == Dotted(labels[..|labels| - 1 - hop]) + name)
            && (name == Normalize(qname) <==> hop + 1 >= |labels|)
  {
    hide Normalize, Dotted, LabelsOf;
    var labels := LabelsOf(qname);
    LabelsJoined(qname);
    RootLabels(qname);
    if hop < |labels| {
      var k := |labels| - 1 - hop;
      assert labels == labels[..k] + labels[k..];
      DottedConcat(labels[..k], labels[k..]);
      DottedGrows(labels[..k]);
    }
  }

  /** From one hop to the next the name grows by one label. */
  lemma MinimizedGrows(qname: Bytes, hop: nat)
    requires hop + 1 < |LabelsOf(qname)|
    ensures var labels := LabelsOf(qname);
            MinimizedName(qname, hop + 1) == labels[|labels| - 2 - hop] + [DOT] + MinimizedName(qname, hop)
  {
    hide LabelsOf, MinimizedName, Normalize, Dotted;
    var labels := LabelsOf(qname);
    MinimizedIs(qname, hop);
    MinimizedIs(qname, hop + 1);
    DottedStep(labels, |labels| - 2 - hop);
  }

  lemma DottedStep(labels: Labels, k: nat)
    requires k < |labels|
    ensures Dotted(labels[k..]) == labels[k] + [DOT] + Dotted(labels[k + 1..])
  {
    assert labels[k..][1..] == labels[k + 1..];
  }

  // ---- text and labels ----

  /** The labels of the zone end those of the name: what being below a zone means (section 3.1 of RFC 1034). */
  predicate LabelSuffix(name: Bytes, zone: Bytes) {
    var n, z := LabelsOf(name), LabelsOf(zone);
    |z| <= |n| && n[|n| - |z|..] == z
  }

  lemma {:induction false} SplitConcat(x: Bytes, y: Bytes)
    ensures SplitDots(x + [DOT] + y) == SplitDots(x) + SplitDots(y)
    decreases |x|
  {
    var k := IndexByte(x, DOT);
    var t := x + [DOT] + y;
    if k == |x| {
      assert DOT !in x[..k] && x[..k] == x;
      assert t == x + ([DOT] + y);
      IndexAt(x, [DOT] + y);
      SplitOnce(t, x, y);
    } else {
      var l, rest := x[..k], x[k + 1..];
      assert x == l + [DOT] + rest;
      assert t == l + ([DOT] + (rest + [DOT] + y));
      IndexAt(l, [DOT] + (rest + [DOT] + y));
      SplitOnce(t, l, rest + [DOT] + y);
      SplitConcat(rest, y);
    }
  }

  /** In terms of the text: the zone is the root, or the name, or follows a dot at the end of the name. */
  lemma LabelSuffixText(name: Bytes, zone: Bytes)
    ensures var n, z := Normalize(name), Normalize(zone);
            LabelSuffix(name, zone) <==> z == [DOT] || n == z || HasSuffix(n, [DOT] + z)
  {
    hide Normalize;
    var n, z := Normalize(name), Normalize(zone);
    if z != [DOT] && LabelSuffix(name, zone) {
      SuffixInText(name, zone);
    }
    if z != [DOT] && n != z && HasSuffix(n, [DOT] + z) {
      TextInLabels(name, zone);
    }
  }

  lemma SuffixInText(name: Bytes, zone: Bytes)
    requires LabelSuffix(name, zone) && Normalize(zone) != [DOT]
    ensures Normalize(name) == Normalize(zone) || HasSuffix(Normalize(name), [DOT] + Normalize(zone))
  {
    hide Normalize, LabelsOf;
    RootLabels(zone);
    LabelsJoined(name);
    LabelsJoined(zone);
    var l, m := LabelsOf(name), LabelsOf(zone);
    var pre := l[..|l| - |m|];
    assert l == pre + m;
    DottedConcat(pre, m);
    var x, z := Dotted(pre), Normalize(zone);
    if pre != [] {
      assert x == x[..|x| - 1] + [DOT];
      assert x + z == x[..|x| - 1] + ([DOT] + z);
    }
  }

  lemma TextInLabels(name: Bytes, zone: Bytes)
    requires Normalize(zone) != [DOT] && HasSuffix(Normalize(name), [DOT] + Normalize(zone))
    ensures LabelSuffix(name, zone)
  {
    hide Normalize, SplitDots;
    var n, z := Normalize(name), Normalize(zone);
    var x := n[..|n| - |z| - 1];
    assert n == x + [DOT] + z;
    assert z[|z| - 1..] == [DOT] && n[|n| - 1..] == [DOT];
    assert TrimDot(n) == x + [DOT] + TrimDot(z);
    SplitConcat(x, TrimDot(z));
  }

  /**
   InBailiwick means what it should exactly when the zone is the root or the name itself, the
   name's text does not end in the zone's, or it does so after a dot.
   */
  lemma BailiwickExactly(name: Bytes, zone: Bytes)
    ensures var n, z := Normalize(name), Normalize(zone);
            (InBailiwick(name, zone) <==> LabelSuffix(name, zone))
            <==> z == [DOT] || n == z || !HasSuffix(n, z) || n[|n| - |z| - 1] == DOT
  {
    hide Normalize, LabelSuffix;
    BailiwickIsTextual(name, zone);
    LabelSuffixText(name, zone);
    DotBefore(Normalize(name), Normalize(zone));
  }

  lemma DotBefore(n: Bytes, z: Bytes)
    ensures HasSuffix(n, [DOT] + z) <==> |z| < |n| && HasSuffix(n, z) && n[|n| - |z| - 1] == DOT
  {
    if |z| < |n| {
      assert n[|n| - |z| - 1..] == [n[|n| - |z| - 1]] + n[|n| - |z|..];
    }
  }

  /** Every zone but the root has a name in bailiwick that is not below it: an x in front of the zone's own text. */
  lemma BailiwickTooWide(zone: Bytes)
    requires Normalize(zone) == zone && zone != [DOT]
    ensures var name: Bytes := [120] + zone; InBailiwick(name, zone) && !LabelSuffix(name, zone)
  {
    var name: Bytes := [120] + zone;
    NormalizeShape(zone);
    NormalFixed(name);
    hide Normalize, LabelSuffix, InBailiwick;
    assert name[1..] == zone;
    BailiwickIsTextual(name, zone);
    LabelSuffixText(name, zone);
    DotBefore(name, zone);
  }

  // ---- counting dots ----

  function Dots(s: Bytes): nat {
    if s == [] then 0 else Dots(s[1..]) + (if s[0] == DOT then 1 else 0)
  }

  lemma {:induction false} DotsConcat(a: Bytes, b: Bytes)
    ensures Dots(a + b) == Dots(a) + Dots(b)
  {
    if a == [] {
      assert a + b == b;
    } else {
      assert (a + b)[1..] == a[1..] + b;
      DotsConcat(a[1..], b);
    }
  }

  lemma {:induction false} DotsLower(s: Bytes)
    ensures Dots(ToLower(s)) == Dots(s)
  {
    if s != [] {
      assert ToLower(s)[1..] == ToLower(s[1..]);
      DotsLower(s[1..]);
    }
  }

  lemma {:induction false} DotsNone(s: Bytes)
    requires DOT !in s
    ensures Dots(s) == 0
  {
    if s != [] {
      DotsNone(s[1..]);
    }
  }

  lemma {:induction false} DotsTrimLeft(s: Bytes)
    ensures Dots(TrimLeft(s)) == Dots(s)
  {
    if s != [] && IsSpace(s[0]) {
      DotsTrimLeft(s[1..]);
    }
  }

  lemma {:induction false} DotsDotted(labels: Labels)
    requires forall i :: 0 <= i < |labels| ==> DOT !in labels[i]
    ensures Dots(Dotted(labels)) == |labels|
  {
    if labels != [] {
      DotsDotted(labels[1..]);
      DotsNone(labels[0]);
      DotsConcat(labels[0] + [DOT], Dotted(labels[1..]));
      DotsConcat(labels[0], [DOT]);
      assert Dots([DOT]) == 1;
    }
  }

  /** Normalising a fully qualified name keeps its dots. */
  lemma DotsNormal(s: Bytes)
    requires s != [] && s[|s| - 1] == DOT
    ensures Dots(Normalize(s)) == Dots(s)
  {
    hide ToLower, TrimSpace, Dots, Normalize;
    var l := ToLower(s);
    DotsLower(s);
    ToLowerAt(s, |s| - 1);
    DotsTrim(l);
    NormalizeQualified(s);
  }

  lemma NormalizeQualified(s: Bytes)
    requires var t := TrimSpace(ToLower(s)); t != [] && t[|t| - 1] == DOT
    ensures Normalize(s) == TrimSpace(ToLower(s))
  {
    hide ToLower, TrimSpace;
    var t := TrimSpace(ToLower(s));
    assert t[|t| - 1..] == [DOT];
  }

  lemma NoDots()
    ensures Dots([]) == 0
  {
  }

  lemma SomeDot(l: Bytes)
    requires l != [] && l[|l| - 1] == DOT
    ensures Dots(l) >= 1
  {
    DotsConcat(l[..|l| - 1], [DOT]);
    assert l == l[..|l| - 1] + [DOT];
    assert Dots([DOT]) == 1;
  }

  lemma DotsTrim(l: Bytes)
    requires l != [] && l[|l| - 1] == DOT
    ensures var t := TrimSpace(l); t != [] && t[|t| - 1] == DOT && Dots(t) == Dots(l)
  {
    hide Dots, TrimLeft, TrimRight;
    SomeDot(l);
    NoDots();
    DotsTrimLeft(l);
    TrimLeftEnd(l);
    TrimRightNothing(TrimLeft(l));
  }

  lemma TrimLeftEnd(l: Bytes)
    ensures TrimLeft(l) != [] ==> l != [] && TrimLeft(l)[|TrimLeft(l)| - 1] == l[|l| - 1]
  {
    hide TrimLeft;
    TrimLeftSuffix(l);
    var k: nat :| k <= |l| && TrimLeft(l) == l[k..];
  }

  lemma TrimRightNothing(t: Bytes)
    requires t != [] && t[|t| - 1] == DOT
    ensures TrimRight(t) == t
  {
  }

  /** The dots of a minimised name tell its labels, but for the root, whose name is one dot. */
  lemma MinimizedDots(qname: Bytes, hop: nat)
    ensures var n := |LabelsOf(qname)|;
            Dots(Normalize(MinimizedName(qname, hop))) == if n <= 1 then 1 else if hop + 1 < n then hop + 1 else n
  {
    hide LabelsOf, Normalize, MinimizedName, Dotted, Dots;
    if LabelsOf(qname) == [] {
      RootDots(qname, hop);
    } else if hop + 1 < |LabelsOf(qname)| {
      LabelsPlain(qname);
      MinimizedIs(qname, hop);
      SuffixDots(LabelsOf(qname), |LabelsOf(qname)| - 1 - hop);
    } else {
      WholeDots(qname, hop);
    }
  }

  lemma WholeDots(qname: Bytes, hop: nat)
    requires 1 <= |LabelsOf(qname)| <= hop + 1
    ensures Dots(Normalize(MinimizedName(qname, hop))) == |LabelsOf(qname)|
  {
    MinimizedIs(qname, hop);
    hide LabelsOf, Normalize, MinimizedName, Dotted, Dots;
    LabelsJoined(qname);
    LabelsPlain(qname);
    NormalizeTwice(qname);
    DotsDotted(LabelsOf(qname));
  }

  lemma SuffixDots(labels: Labels, k: nat)
    requires k < |labels| && forall i :: 0 <= i < |labels| ==> DOT !in labels[i]
    ensures Dots(Normalize(Dotted(labels[k..]))) == |labels| - k
  {
    hide Normalize, Dots, Dotted;
    DotsDotted(labels[k..]);
    DotsNormal(Dotted(labels[k..]));
  }

  lemma LabelsPlain(qname: Bytes)
    ensures forall i :: 0 <= i < |LabelsOf(qname)| ==> DOT !in LabelsOf(qname)[i]
  {
    hide Normalize;
  }

  lemma RootDots(qname: Bytes, hop: nat)
    requires LabelsOf(qname) == []
    ensures Dots(Normalize(MinimizedName(qname, hop))) == 1
  {
    assert MinimizedName(qname, hop) == [DOT];
    assert Dots([DOT]) == 1;
    DotsNormal([DOT]);
  }
}
