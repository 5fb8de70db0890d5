/**
 The keys the resolver makes of a question: TypeToString (internal/protocol/types.go), cacheKey
 (internal/resolver/resolver.go) and referralStateKey (internal/resolver/recursive.go).
 */
module Keys {
  import opened Octets
  import opened Names
  import opened Records
  import opened Domains
  import opened Sorting

  const BAR: byte := 124
  const COMMA: byte := 44

  function Decimal(n: nat): (r: Bytes)
    ensures r != []
  {
    if n < 10 then [48 + n] else Decimal(n / 10) + [48 + n % 10]
  }

  function Value(d: Bytes): int {
    if d == [] then 0 else Value(d[..|d| - 1]) * 10 + d[|d| - 1] - 48
  }

  lemma {:induction false} DecimalValue(n: nat)
    ensures Value(Decimal(n)) == n
    ensures forall c :: c in Decimal(n) ==> 48 <= c <= 57
  {
    if n < 10 {
      assert Decimal(n)[..0] == [];
    } else {
      DecimalValue(n / 10);
      assert Decimal(n)[..|Decimal(n)| - 1] == Decimal(n / 10);
    }
  }

  /** TypeToString: the mnemonics as octets, and TYPE followed by the number for other types. */
  function TypeToString(t: uint16): Bytes {
    if t == TYPE_A then [65]
    else if t == TYPE_NS then [78, 83]
    else if t == TYPE_CNAME then [67, 78, 65, 77, 69]
    else if t == TYPE_SOA then [83, 79, 65]
    else if t == TYPE_PTR then [80, 84, 82]
    else if t == TYPE_MX then [77, 88]
    else if t == TYPE_TXT then [84, 88, 84]
    else if t == TYPE_AAAA then [65, 65, 65, 65]
    else if t == TYPE_SRV then [83, 82, 86]
    else if t == TYPE_OPT then [79, 80, 84]
    else if t == TYPE_DS then [68, 83]
    else if t == TYPE_RRSIG then [82, 82, 83, 73, 71]
    else if t == TYPE_NSEC then [78, 83, 69, 67]
    else if t == TYPE_DNSKEY then [68, 78, 83, 75, 69, 89]
    else if t == TYPE_NSEC3 then [78, 83, 69, 67, 51]
    else if t == TYPE_CAA then [67, 65, 65]
    else if t == TYPE_ANY then [65, 78, 89]
    else [84, 89, 80, 69] + Decimal(t)
  }

  /** A number that tells the mnemonics apart. */
  function Digest(s: Bytes): int
    requires s != []
  {
    |s| * 3 + (s[0] as int) * 7 + (s[|s| - 1] as int) * 41 + (s[|s| / 2] as int) * 1009
  }

  function DigestOf(t: uint16): int {
    if t == TYPE_A then 68708
    else if t == TYPE_NS then 87702
    else if t == TYPE_CNAME then 68898
    else if t == TYPE_SOA then 82966
    else if t == TYPE_PTR then 88687
    else if t == TYPE_MX then 92945
    else if t == TYPE_TXT then 92833
    else if t == TYPE_AAAA then 68717
    else if t == TYPE_SRV then 86854
    else if t == TYPE_OPT then 84726
    else if t == TYPE_DS then 87632
    else if t == TYPE_RRSIG then 87247
    else if t == TYPE_NSEC then 72926
    else if t == TYPE_DNSKEY then 79818
    else if t == TYPE_NSEC3 then 72273
    else if t == TYPE_CAA then 68728
    else if t == TYPE_ANY then 82815
    else 0
  }

  /** The types with a mnemonic of their own. */
  predicate HasMnemonic(t: uint16) {
    DigestOf(t) != 0
  }

  lemma MnemonicDigest(t: uint16)
    ensures TypeToString(t) != []
    ensures HasMnemonic(t) ==> Digest(TypeToString(t)) == DigestOf(t)
  {
  }

  /** Only the types without a mnemonic have a Y in second place. */
  lemma MnemonicSecond(t: uint16)
    ensures HasMnemonic(t) <==> |TypeToString(t)| < 2 || TypeToString(t)[1] != 89
  {
  }

  lemma DigestsDiffer(t: uint16, u: uint16)
    requires HasMnemonic(t) && HasMnemonic(u) && DigestOf(t) == DigestOf(u)
    ensures t == u
  {
  }

  lemma TypeInjective(t: uint16, u: uint16)
    ensures TypeToString(t) == TypeToString(u) <==> t == u
  {
    MnemonicDigest(t);
    MnemonicDigest(u);
    MnemonicSecond(t);
    MnemonicSecond(u);
    if HasMnemonic(t) && HasMnemonic(u) {
      hide TypeToString, Digest, DigestOf;
      if DigestOf(t) == DigestOf(u) {
        DigestsDiffer(t, u);
      }
    } else if !HasMnemonic(t) && !HasMnemonic(u) {
      NumberedType(t);
      NumberedType(u);
    }
  }

  lemma NumberedType(t: uint16)
    requires !HasMnemonic(t)
    ensures |TypeToString(t)| >= 4 && Value(TypeToString(t)[4..]) == t
  {
    DecimalValue(t);
    assert TypeToString(t)[4..] == Decimal(t);
  }

  lemma NoBar(t: uint16)
    ensures BAR !in TypeToString(t)
  {
    if HasMnemonic(t) {
      MnemonicOctets(t);
    } else {
      hide DigestOf;
      NumberedText(t);
      DecimalValue(t);
    }
  }

  /** Mnemonics are made of capitals and digits. */
  lemma MnemonicOctets(t: uint16)
    requires HasMnemonic(t)
    ensures forall i :: 0 <= i < |TypeToString(t)| ==> TypeToString(t)[i] <= 90
  {
  }

  lemma NumberedText(t: uint16)
    requires !HasMnemonic(t)
    ensures TypeToString(t) == [84, 89, 80, 69] + Decimal(t)
  {
  }

  /** Two texts that end in a bar and a part without bars agree part by part. */
  lemma SplitAtBar(a: Bytes, t: Bytes, b: Bytes, u: Bytes)
    requires BAR !in t && BAR !in u && a + [BAR] + t == b + [BAR] + u
    ensures a == b && t == u
  {
    var x, y := a + [BAR] + t, b + [BAR] + u;
    assert x[|a|] == BAR && y[|b|] == BAR;
    if |t| == |u| {
      assert x[..|a|] == a && y[..|a|] == b;
      assert x[|a| + 1..] == t && y[|a| + 1..] == u;
    }
  }

  /** cacheKey. */
  function CacheKey(qname: Bytes, qtype: uint16): Bytes {
    ToLower(Normalize(qname)) + [BAR] + TypeToString(qtype)
  }

  /** Two questions share a cache key when and only when they normalise to the same name and have the same type. */
  lemma CacheKeyInjective(p: Bytes, t: uint16, q: Bytes, u: uint16)
    ensures CacheKey(p, t) == CacheKey(q, u) <==> Normalize(p) == Normalize(q) && t == u
    ensures CacheKey(p, t) != []
  {
    hide TypeToString, Normalize;
    NormalizeShape(p);
    NormalizeShape(q);
    LowerFixed(Normalize(p));
    LowerFixed(Normalize(q));
    NoBar(t);
    NoBar(u);
    TypeInjective(t, u);
    if CacheKey(p, t) == CacheKey(q, u) {
      SplitAtBar(ToLower(Normalize(p)), TypeToString(t), ToLower(Normalize(q)), TypeToString(u));
    }
  }

  /** strings.Join(parts, ","). */
  function Join(parts: seq<Bytes>): Bytes {
    if parts == [] then [] else if |parts| == 1 then parts[0] else parts[0] + [COMMA] + Join(parts[1..])
  }

  /** referralStateKey. */
  function StateKey(qname: Bytes, qtype: uint16, servers: seq<Bytes>): Bytes {
    Normalize(qname) + [BAR] + TypeToString(qtype) + [BAR] + Join(SortStrings(servers))
  }

  /** Text of an IP address: it has neither the bar nor the comma that the key is built with. */
  ghost predicate Plain(s: Bytes) {
    s != [] && BAR !in s && COMMA !in s
  }

  lemma {:induction false} JoinPlain(parts: seq<Bytes>)
    requires forall i :: 0 <= i < |parts| ==> Plain(parts[i])
    ensures BAR !in Join(parts) && (parts != [] ==> Join(parts) != [])
  {
    if |parts| > 1 {
      JoinPlain(parts[1..]);
    }
  }

  lemma FirstComma(a: Bytes, b: Bytes, x: Bytes, y: Bytes)
    requires COMMA !in a && COMMA !in b
    requires x == [] || x[0] == COMMA
    requires y == [] || y[0] == COMMA
    requires a + x == b + y
    ensures a == b && x == y
  {
    var l, r := a + x, b + y;
    assert x != [] ==> l[|a|] == COMMA;
    assert y != [] ==> r[|b|] == COMMA;
    if |a| == |b| {
      assert l[..|a|] == a && r[..|a|] == b;
      assert l[|a|..] == x && r[|a|..] == y;
    }
  }

  /** What Join puts after the first part. */
  function JoinRest(parts: seq<Bytes>): Bytes
    requires parts != []
  {
    if |parts| == 1 then [] else [COMMA] + Join(parts[1..])
  }

  lemma JoinUnfolds(parts: seq<Bytes>)
    requires parts != []
    ensures Join(parts) == parts[0] + JoinRest(parts)
    ensures |parts| > 1 <==> JoinRest(parts) != []
    ensures |parts| > 1 ==> JoinRest(parts)[0] == COMMA && JoinRest(parts)[1..] == Join(parts[1..])
  {
    if |parts| == 1 {
      assert parts[0] + [] == parts[0];
    }
  }

  lemma {:induction false} JoinInjective(p: seq<Bytes>, q: seq<Bytes>)
    requires forall i :: 0 <= i < |p| ==> Plain(p[i])
    requires forall i :: 0 <= i < |q| ==> Plain(q[i])
    requires Join(p) == Join(q)
    ensures p == q
  {
    JoinPlain(p);
    JoinPlain(q);
    if p != [] && q != [] {
      assert COMMA !in p[0] && COMMA !in q[0];
      hide Plain;
      JoinUnfolds(p);
      JoinUnfolds(q);
      hide Join, JoinRest;
      FirstComma(p[0], q[0], JoinRest(p), JoinRest(q));
      if |p| > 1 && |q| > 1 {
        JoinInjective(p[1..], q[1..]);
      }
      assert p == [p[0]] + p[1..] && q == [q[0]] + q[1..];
    }
  }

  lemma SortedPlain(s: seq<Bytes>)
    requires forall x :: x in s ==> Plain(x)
    ensures forall i :: 0 <= i < |SortStrings(s)| ==> Plain(SortStrings(s)[i])
  {
    hide Plain;
    SortSorts(s);
    forall i | 0 <= i < |SortStrings(s)|
      ensures Plain(SortStrings(s)[i])
    {
      assert SortStrings(s)[i] in multiset(s);
    }
  }

  /**
   Two states share a key exactly when name, type and servers agree, the servers in any order.
   From right to left no assumption is needed; the other way the servers must be IP texts.
   */
  lemma StateKeyExact(p: Bytes, t: uint16, a: seq<Bytes>, q: Bytes, u: uint16, b: seq<Bytes>)
    ensures Normalize(p) == Normalize(q) && t == u && multiset(a) == multiset(b) ==> StateKey(p, t, a) == StateKey(q, u, b)
    ensures (forall x :: x in a || x in b ==> Plain(x)) && StateKey(p, t, a) == StateKey(q, u, b) ==>
              Normalize(p) == Normalize(q) && t == u && multiset(a) == multiset(b)
  {
    hide TypeToString, Normalize, Plain;
    SortCanonical(a, b);
    if (forall x :: x in a || x in b ==> Plain(x)) && StateKey(p, t, a) == StateKey(q, u, b) {
      SortedPlain(a);
      SortedPlain(b);
      JoinPlain(SortStrings(a));
      JoinPlain(SortStrings(b));
      SplitAtBar(Normalize(p) + [BAR] + TypeToString(t), Join(SortStrings(a)),
                 Normalize(q) + [BAR] + TypeToString(u), Join(SortStrings(b)));
      NoBar(t);
      NoBar(u);
      SplitAtBar(Normalize(p), TypeToString(t), Normalize(q), TypeToString(u));
      TypeInjective(t, u);
      JoinInjective(SortStrings(a), SortStrings(b));
    }
  }
}
