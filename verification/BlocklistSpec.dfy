/** Which domains a blocklist text blocks (internal/resolver/blocklist.go). */
module BlocklistSpec {
  import opened Octets
  import opened Names
  import opened Domains
  import opened Sorting

  const HASH: byte := 35
  const STAR: byte := 42

  // ---- reading a line ----

  function WordEnd(s: Bytes): (k: nat)
    ensures k <= |s| && (forall i :: 0 <= i < k ==> !IsSpace(s[i])) && (k < |s| ==> IsSpace(s[k]))
  {
    if s == [] || IsSpace(s[0]) then 0
    else
      var k := WordEnd(s[1..]);
      assert forall i :: 1 <= i < |s| ==> s[i] == s[1..][i - 1];
      k + 1
  }

  /** strings.Fields. */
  function Fields(s: Bytes): seq<Bytes>
    decreases |s|
  {
    if s == [] then []
    else if IsSpace(s[0]) then Fields(s[1..])
    else [s[..WordEnd(s)]] + Fields(s[WordEnd(s)..])
  }

  predicate IsNumber(s: Bytes) {
    s != [] && forall i :: 0 <= i < |s| ==> 48 <= s[i] <= 57
  }

  /** isIPv4Like: four dotted numbers. */
  predicate IsIPv4Like(s: Bytes) {
    var parts := SplitDots(s);
    |parts| == 4 && forall i :: 0 <= i < 4 ==> IsNumber(parts[i])
  }

  /** "::1" and "0:0:0:0:0:0:0:1". */
  const LOOPBACK: Bytes := [58, 58, 49]
  const LONG_LOOPBACK: Bytes := [48, 58, 48, 58, 48, 58, 48, 58, 48, 58, 48, 58, 48, 58, 49]

  function StripComment(line: Bytes): Bytes {
    var t := TrimSpace(line);
    var k := IndexByte(t, HASH);
    if t == [] || t[0] == HASH then [] else if k < |t| then TrimSpace(t[..k]) else t
  }

  /** tokensFromBlocklistLine: the words of the line, less the comment and the address of a hosts line. */
  function Tokens(line: Bytes): seq<Bytes> {
    var fields := Fields(StripComment(line));
    if fields == [] then []
    else if IsIPv4Like(fields[0]) || fields[0] == LOOPBACK || fields[0] == LONG_LOOPBACK then fields[1..]
    else fields
  }

  function AllTokens(lines: seq<Bytes>): seq<Bytes> {
    if lines == [] then [] else AllTokens(lines[..|lines| - 1]) + Tokens(lines[|lines| - 1])
  }

  // ---- what a list blocks ----

  /** A token of the form "*.suffix", once normalised. */
  predicate IsWildcard(norm: Bytes) {
    |norm| >= 2 && norm[0] == STAR && norm[1] == DOT
  }

  /** The token, normalised, names exactly this domain. */
  predicate Spells(token: Bytes, norm: Bytes) {
    Normalize(token) == norm && norm != [DOT] && !IsWildcard(norm)
  }

  /** The token is a wildcard and the domain properly ends with its suffix: a test on the text. */
  predicate Covers(token: Bytes, norm: Bytes) {
    var t := Normalize(token);
    t != [DOT] && IsWildcard(t) && norm != t[2..] && HasSuffix(norm, t[2..])
  }

  /** The domain is blocked by some token of the text. */
  ghost predicate Blocked(tokens: seq<Bytes>, domain: Bytes) {
    var norm := Normalize(domain);
    norm != [DOT] && exists t :: t in tokens && (Spells(t, norm) || Covers(t, norm))
  }

  // ---- dedupe ----

  /** dedupeStrings: repetitions of the element just before are dropped. */
  function Dedupe(s: seq<Bytes>): seq<Bytes> {
    if |s| <= 1 then s
    else
      var n := |s| - 1;
      Dedupe(s[..n]) + (if s[n] != s[n - 1] then [s[n]] else [])
  }

  /** In a sorted list that drops every repetition and nothing else. */
  lemma {:induction false} DedupeSorted(s: seq<Bytes>)
    requires Sorted(s)
    ensures |Dedupe(s)| <= |s|
    ensures forall x :: x in Dedupe(s) <==> x in s
    ensures s != [] ==> Dedupe(s) != [] && Dedupe(s)[|Dedupe(s)| - 1] == s[|s| - 1]
    ensures forall i, j :: 0 <= i < j < |Dedupe(s)| ==> Dedupe(s)[i] != Dedupe(s)[j]
  {
    hide Leq;
    if |s| > 1 {
      var n := |s| - 1;
      DedupeSorted(s[..n]);
      assert s == s[..n] + [s[n]];
      var init := Dedupe(s[..n]);
      if s[n] != s[n - 1] {
        forall i | 0 <= i < |init|
          ensures init[i] != s[n]
        {
          assert init[i] in init;
          var k :| 0 <= k < n && s[k] == init[i];
          if init[i] == s[n] {
            LeqAntisymmetric(s[n - 1], s[n]);
          }
        }
      }
    }
  }

  // ---- writing the list out and reading it back ----

  /** The line Domains writes for a wildcard. */
  function WildcardLine(suffix: Bytes): Bytes {
    [STAR, DOT] + TrimDot(suffix)
  }

  ghost predicate Word(s: Bytes) {
    s != [] && forall i :: 0 <= i < |s| ==> !IsSpace(s[i]) && s[i] != HASH
  }

  lemma WordTrimmed(s: Bytes)
    requires Word(s)
    ensures TrimSpace(s) == s && StripComment(s) == s && Fields(s) == [s]
  {
    assert TrimLeft(s) == s;
    var k := IndexByte(s, HASH);
    assert k == |s|;
    assert WordEnd(s) == |s|;
    assert s[..|s|] == s && s[|s|..] == [];
  }

  /** A word that ends in a dot, or starts with a star, is not taken for the address of a hosts line. */
  lemma NotAnAddress(s: Bytes)
    requires Word(s) && (s[|s| - 1] == DOT || s[0] == STAR)
    ensures Tokens(s) == [s]
  {
    WordTrimmed(s);
    if IsIPv4Like(s) {
      DottedOfSplit(s);
      var parts := SplitDots(s);
      if s[|s| - 1] == DOT {
        LastPart(s);
      } else {
        FirstPart(s);
      }
    }
  }

  lemma {:induction false} LastPart(s: Bytes)
    requires s != [] && s[|s| - 1] == DOT
    ensures SplitDots(s)[|SplitDots(s)| - 1] == []
    decreases |s|
  {
    var k := IndexByte(s, DOT);
    assert k < |s|;
    var rest := s[k + 1..];
    if rest == [] {
      assert SplitDots(rest) == [[]];
    } else {
      assert rest[|rest| - 1] == s[|s| - 1];
      LastPart(rest);
    }
  }

  lemma FirstPart(s: Bytes)
    requires s != [] && s[0] == STAR
    ensures SplitDots(s)[0] != [] && SplitDots(s)[0][0] == STAR
  {
    var k := IndexByte(s, DOT);
    assert k > 0;
  }

  // ---- tokens are words ----

  lemma {:induction false} FieldsClean(s: Bytes)
    ensures forall f :: f in Fields(s) ==> f != [] && (forall i :: 0 <= i < |f| ==> !IsSpace(f[i]) && f[i] in s)
    decreases |s|
  {
    if s != [] {
      if IsSpace(s[0]) {
        FieldsClean(s[1..]);
      } else {
        FieldsClean(s[WordEnd(s)..]);
      }
    }
  }

  lemma StripNoHash(line: Bytes)
    ensures HASH !in StripComment(line)
  {
    hide TrimSpace;
    var t := TrimSpace(line);
    var k := IndexByte(t, HASH);
    if t != [] && t[0] != HASH {
      if k < |t| {
        var i, j := TrimSlice(t[..k]);
      } else {
        assert t[..k] == t;
      }
    }
  }

  lemma {:induction false} TokensAreWords(lines: seq<Bytes>)
    ensures forall t :: t in AllTokens(lines) ==> Word(t)
  {
    hide Fields, StripComment, IsIPv4Like;
    if lines != [] {
      var n := |lines| - 1;
      TokensAreWords(lines[..n]);
      StripNoHash(lines[n]);
      FieldsClean(StripComment(lines[n]));
    }
  }

  // ---- what a line yields ----

  /** The text is spaces, and between them these words: each stands alone and in order. */
  ghost predicate Spread(s: Bytes, words: seq<Bytes>)
    decreases |words|
  {
    if words == [] then forall i :: 0 <= i < |s| ==> IsSpace(s[i])
    else exists a: nat, b: nat :: a <= b <= |s| && WordAt(s, a, b) && s[a..b] == words[0] && Spread(s[b..], words[1..])
  }

  /** The first word of the text is at a..b. */
  ghost predicate WordAt(s: Bytes, a: nat, b: nat) {
    && a < b <= |s|
    && (forall i :: 0 <= i < a ==> IsSpace(s[i]))
    && (forall i :: a <= i < b ==> !IsSpace(s[i]))
    && (b < |s| ==> IsSpace(s[b]))
  }

  /** Four runs of digits with a dot between them, at these places. */
  ghost predicate DottedQuad(w: Bytes, i: int, j: int, k: int) {
    && 0 < i && i + 1 < j && j + 1 < k && k + 1 < |w|
    && w[i] == w[j] == w[k] == 46
    && forall n :: 0 <= n < |w| && n != i && n != j && n != k ==> 48 <= w[n] <= 57
  }

  /** The word is an address a hosts line may start with: four dotted numbers, "::1" or "0:0:0:0:0:0:0:1". */
  ghost predicate IsHostsAddress(w: Bytes) {
    || (exists i, j, k :: DottedQuad(w, i, j, k))
    || w == [58, 58, 49]
    || w == [48, 58, 48, 58, 48, 58, 48, 58, 48, 58, 48, 58, 48, 58, 49]
  }

  /** A text yields what its lines yield. */
  lemma {:induction false} AllTokensExactly(lines: seq<Bytes>, t: Bytes)
    ensures t in AllTokens(lines) <==> exists i :: 0 <= i < |lines| && t in Tokens(lines[i])
  {
    hide Tokens;
    if lines != [] {
      var n := |lines| - 1;
      AllTokensExactly(lines[..n], t);
      assert forall i :: 0 <= i < n ==> lines[..n][i] == lines[i];
    }
  }

  /**
   A line yields the words before its first comment sign, whatever the spaces around them, less
   the first when that is an address. So "address name name # comment" yields the two names, the
   address alone nothing, and a comment or spaces nothing.
   */
  lemma TokensExactly(text: Bytes, comment: Bytes, words: seq<Bytes>)
    requires HASH !in text && (comment == [] || comment[0] == 35)
    requires Spread(text, words)
    ensures Tokens(text + comment) == if words != [] && IsHostsAddress(words[0]) then words[1..] else words
  {
    hide StripComment, Fields, IsIPv4Like, IsHostsAddress, Spread;
    StripFields(text, comment);
    SpreadFields(text, words);
    if words != [] {
      AddressExactly(words[0]);
    }
  }

  /** Every text is spread out in this way, and in no other. */
  lemma {:induction false} SpreadOnce(s: Bytes, words: seq<Bytes>)
    ensures Spread(s, words) <==> Fields(s) == words
  {
    hide Fields, Spread;
    FieldsSpread(s);
    if Spread(s, words) {
      SpreadFields(s, words);
    }
  }

  lemma {:induction false} FieldsSpread(s: Bytes)
    ensures Spread(s, Fields(s))
    decreases |s|
  {
    hide Fields, WordEnd, IsSpace;
    if s == [] {
      FieldsNone();
    } else {
      var a := Blanks(s);
      FieldsSkip(s, a);
      var t := s[a..];
      if t == [] {
        FieldsNone();
      } else {
        var n := WordEnd(t);
        WordHere(s, a, n);
        FieldsWord(t);
        FieldsSpread(t[n..]);
        assert Fields(s)[1..] == Fields(t[n..]);
        assert s[a..a + n] == Fields(s)[0];
      }
    }
  }

  lemma WordHere(s: Bytes, a: nat, n: nat)
    requires a < |s| && (forall i :: 0 <= i < a ==> IsSpace(s[i])) && !IsSpace(s[a])
    requires n == WordEnd(s[a..])
    ensures WordAt(s, a, a + n) && s[a..a + n] == s[a..][..n] && s[a + n..] == s[a..][n..]
  {
    var t := s[a..];
    assert forall i :: a <= i < |s| ==> s[i] == t[i - a];
  }

  /** How many spaces stand in front. */
  function Blanks(s: Bytes): (a: nat)
    ensures a <= |s| && (forall i :: 0 <= i < a ==> IsSpace(s[i])) && (a < |s| ==> !IsSpace(s[a]))
  {
    if s == [] || !IsSpace(s[0]) then 0
    else
      var a := Blanks(s[1..]);
      assert forall i :: 1 <= i < |s| ==> s[i] == s[1..][i - 1];
      a + 1
  }

  lemma {:induction false} FieldsSkip(s: Bytes, a: nat)
    requires a <= |s| && forall i :: 0 <= i < a ==> IsSpace(s[i])
    ensures Fields(s) == Fields(s[a..])
    decreases a
  {
    if a == 0 {
      assert s[0..] == s;
    } else {
      assert s[1..][a - 1..] == s[a..];
      FieldsSkip(s[1..], a - 1);
    }
  }

  lemma {:induction false} SpreadFields(s: Bytes, words: seq<Bytes>)
    requires Spread(s, words)
    ensures Fields(s) == words
    decreases |words|
  {
    hide Fields, IsSpace, WordAt;
    if words == [] {
      FieldsSkip(s, |s|);
      FieldsNone();
      assert s[|s|..] == [];
    } else {
      var a: nat, b: nat :| a <= b <= |s| && WordAt(s, a, b) && s[a..b] == words[0] && Spread(s[b..], words[1..]);
      FirstWord(s, a, b);
      SpreadFields(s[b..], words[1..]);
      assert words == [words[0]] + words[1..];
    }
  }

  lemma FirstWord(s: Bytes, a: nat, b: nat)
    requires WordAt(s, a, b)
    ensures b <= |s| && Fields(s) == [s[a..b]] + Fields(s[b..])
  {
    hide *;
    SpacesSkipped(s, a, b);
    WordEndAt(s, a, b);
    FieldsWordIs(s[a..], b - a, s[a..b], s[b..]);
  }

  lemma FieldsWordIs(t: Bytes, n: nat, word: Bytes, rest: Bytes)
    requires t != [] && !IsSpace(t[0]) && n == WordEnd(t) && t[..n] == word && t[n..] == rest
    ensures Fields(t) == [word] + Fields(rest)
  {
    hide IsSpace, WordEnd;
  }

  lemma SpacesSkipped(s: Bytes, a: nat, b: nat)
    requires WordAt(s, a, b)
    ensures a < b <= |s| && Fields(s) == Fields(s[a..]) && !IsSpace(s[a])
  {
    hide Fields, IsSpace;
    FieldsSkip(s, a);
  }

  lemma WordEndAt(s: Bytes, a: nat, b: nat)
    requires WordAt(s, a, b)
    ensures a < b <= |s| && WordEnd(s[a..]) == b - a
    ensures s[a..][..b - a] == s[a..b] && s[a..][b - a..] == s[b..]
  {
    hide WordEnd, IsSpace;
    WordEndIs(s[a..], b - a);
  }

  lemma FieldsNone()
    ensures Fields([]) == []
  {
  }

  lemma FieldsWord(t: Bytes)
    requires t != [] && !IsSpace(t[0])
    ensures Fields(t) == [t[..WordEnd(t)]] + Fields(t[WordEnd(t)..])
  {
  }

  lemma WordEndIs(t: Bytes, n: nat)
    requires n <= |t| && (forall i :: 0 <= i < n ==> !IsSpace(t[i])) && (n < |t| ==> IsSpace(t[n]))
    ensures WordEnd(t) == n
  {
    var k := WordEnd(t);
    assert !(k < n) && !(n < k);
  }

  /** Stripping the comment and trimming change nothing in the words before the comment sign. */
  lemma StripFields(text: Bytes, comment: Bytes)
    requires HASH !in text && (comment == [] || comment[0] == HASH)
    ensures Fields(StripComment(text + comment)) == Fields(text)
  {
    hide Fields, TrimLeft, TrimRight, IndexByte;
    TrimLeftFields(text);
    var l := TrimLeft(text);
    if comment == [] {
      assert text + comment == text;
      TrimRightPrefix(l);
      var t := TrimSpace(text);
      assert HASH !in t;
      IndexIs(t, HASH, |t|);
      TrimRightFields(l);
    } else {
      TrimLeftBefore(text, comment);
      TrimRightBehind(l, comment);
      var c := TrimRight(comment);
      var t := TrimSpace(text + comment);
      assert t == l + c && t[0] == (if l == [] then HASH else l[0]);
      if l != [] {
        assert forall i :: 0 <= i < |l| ==> t[i] in l;
        IndexIs(t, HASH, |l|);
        assert t[..|l|] == l;
        TrimLeftTwice(text);
        TrimRightFields(l);
        assert l[0] in text;
      }
    }
  }

  lemma {:induction false} IndexIs(s: Bytes, c: byte, n: nat)
    requires n <= |s| && (forall i :: 0 <= i < n ==> s[i] != c) && (n < |s| ==> s[n] == c)
    ensures IndexByte(s, c) == n
  {
    if n > 0 {
      IndexIs(s[1..], c, n - 1);
    }
  }

  lemma {:induction false} TrimLeftFields(s: Bytes)
    ensures Fields(TrimLeft(s)) == Fields(s)
    ensures forall b :: b in TrimLeft(s) ==> b in s
  {
    if s != [] && IsSpace(s[0]) {
      TrimLeftFields(s[1..]);
    }
  }

  lemma TrimLeftTwice(s: Bytes)
    ensures TrimLeft(TrimLeft(s)) == TrimLeft(s)
  {
    TrimLeftStart(s);
  }

  lemma {:induction false} TrimRightFields(s: Bytes)
    ensures Fields(TrimRight(s)) == Fields(s)
  {
    if s != [] && IsSpace(s[|s| - 1]) {
      var n := |s| - 1;
      TrimRightFields(s[..n]);
      FieldsMoreSpace(s[..n], s[n]);
      assert s == s[..n] + [s[n]];
    }
  }

  lemma {:induction false} FieldsMoreSpace(s: Bytes, b: byte)
    requires IsSpace(b)
    ensures Fields(s + [b]) == Fields(s)
    decreases |s|
  {
    if s == [] {
      assert s + [b] == [b];
    } else if IsSpace(s[0]) {
      assert (s + [b])[1..] == s[1..] + [b];
      FieldsMoreSpace(s[1..], b);
    } else {
      var n := WordEnd(s);
      assert forall i :: 0 <= i < n ==> (s + [b])[i] == s[i];
      WordEndIs(s + [b], n);
      assert (s + [b])[..n] == s[..n] && (s + [b])[n..] == s[n..] + [b];
      FieldsMoreSpace(s[n..], b);
    }
  }

  lemma {:induction false} TrimLeftBefore(s: Bytes, c: Bytes)
    requires c != [] && !IsSpace(c[0])
    ensures TrimLeft(s + c) == TrimLeft(s) + c
  {
    if s == [] {
      assert s + c == c;
    } else {
      assert (s + c)[1..] == s[1..] + c;
      TrimLeftBefore(s[1..], c);
    }
  }

  lemma {:induction false} TrimRightBehind(s: Bytes, c: Bytes)
    requires c != [] && !IsSpace(c[0])
    ensures TrimRight(s + c) == s + TrimRight(c) && TrimRight(c) != [] && TrimRight(c)[0] == c[0]
    decreases |c|
  {
    var n := |c| - 1;
    assert (s + c)[|s + c| - 1] == c[n];
    if IsSpace(c[n]) {
      assert (s + c)[..|s + c| - 1] == s + c[..n];
      TrimRightBehind(s, c[..n]);
    }
  }

  /** isIPv4Like and the two loopback texts, by position. */
  lemma AddressExactly(w: Bytes)
    ensures IsIPv4Like(w) || w == LOOPBACK || w == LONG_LOOPBACK <==> IsHostsAddress(w)
  {
    hide IsIPv4Like;
    if IsIPv4Like(w) {
      QuadOfParts(w);
    }
    if exists i, j, k :: DottedQuad(w, i, j, k) {
      var i, j, k :| DottedQuad(w, i, j, k);
      PartsOfQuad(w, i, j, k);
    }
  }

  lemma QuadOfParts(w: Bytes)
    requires IsIPv4Like(w)
    ensures exists i, j, k :: DottedQuad(w, i, j, k)
  {
    hide SplitDots, IndexByte, Dotted;
    var parts := SplitDots(w);
    DottedOfSplit(w);
    var a, b, c, d := parts[0], parts[1], parts[2], parts[3];
    assert parts == [a] + ([b] + ([c] + ([d] + [])));
    DottedCons(a, [b] + ([c] + ([d] + [])));
    DottedCons(b, [c] + ([d] + []));
    DottedCons(c, [d] + []);
    DottedCons(d, []);
    DottedNothing();
    QuadPlaces(w, a, b, c, d);
  }

  lemma QuadPlaces(w: Bytes, a: Bytes, b: Bytes, c: Bytes, d: Bytes)
    requires IsNumber(a) && IsNumber(b) && IsNumber(c) && IsNumber(d)
    requires w + [DOT] == a + [DOT] + (b + [DOT] + (c + [DOT] + (d + [DOT] + [])))
    ensures DottedQuad(w, |a|, |a| + 1 + |b|, |a| + 2 + |b| + |c|)
  {
    var i, j, k := |a|, |a| + 1 + |b|, |a| + 2 + |b| + |c|;
    assert |w| == k + 1 + |d|;
    var x := w + [DOT];
    forall n | 0 <= n < |w|
      ensures w[n] == (if n < i then a[n] else if n == i then 46 else if n < j then b[n - i - 1] else if n == j then 46
                       else if n < k then c[n - j - 1] else if n == k then 46 else d[n - k - 1])
    {
      assert w[n] == x[n];
    }
  }

  /** The text starts with n digits, and then ends or goes on with a dot. */
  ghost predicate NumberInFront(s: Bytes, n: int) {
    0 < n <= |s| && (forall i :: 0 <= i < n ==> 48 <= s[i] <= 57) && (n < |s| ==> s[n] == 46)
  }

  lemma PartsOfQuad(w: Bytes, i: int, j: int, k: int)
    requires DottedQuad(w, i, j, k)
    ensures IsIPv4Like(w)
  {
    hide SplitDots, IsIPv4Like, IsNumber, NumberInFront, DottedQuad;
    QuadNumbers(w, i, j, k);
    var s1, s2, s3 := w[i + 1..], w[j + 1..], w[k + 1..];
    var a := FirstNumber(w, i);
    var b := FirstNumber(s1, j - i - 1);
    var c := FirstNumber(s2, k - j - 1);
    var d := LastNumber(s3);
    FourNumbers(w, a, b, c, d);
  }

  lemma QuadNumbers(w: Bytes, i: int, j: int, k: int)
    requires DottedQuad(w, i, j, k)
    ensures 0 < i < j < k < |w| - 1 && NumberInFront(w, i) && NumberInFront(w[k + 1..], |w| - k - 1)
    ensures var s := w[i + 1..]; NumberInFront(s, j - i - 1) && j - i - 1 < |s| && s[j - i..] == w[j + 1..]
    ensures var s := w[j + 1..]; NumberInFront(s, k - j - 1) && k - j - 1 < |s| && s[k - j..] == w[k + 1..]
  {
  }

  lemma FourNumbers(w: Bytes, a: Bytes, b: Bytes, c: Bytes, d: Bytes)
    requires IsNumber(a) && IsNumber(b) && IsNumber(c) && IsNumber(d)
    requires SplitDots(w) == [a] + ([b] + ([c] + [d]))
    ensures IsIPv4Like(w)
  {
    hide SplitDots, IsNumber;
  }

  /** A number in front of a dot is the first part. */
  lemma FirstNumber(s: Bytes, n: int) returns (x: Bytes)
    requires NumberInFront(s, n) && n < |s|
    ensures IsNumber(x) && SplitDots(s) == [x] + SplitDots(s[n + 1..])
  {
    hide IndexByte;
    x := s[..n];
    SplitUnfolds(s);
    IndexIs(s, DOT, n);
  }

  /** A number alone is the only part. */
  lemma LastNumber(s: Bytes) returns (x: Bytes)
    requires NumberInFront(s, |s|)
    ensures IsNumber(x) && SplitDots(s) == [x]
  {
    hide IndexByte;
    x := s;
    SplitUnfolds(s);
    IndexIs(s, DOT, |s|);
  }

  lemma NormalOfLower(l: Bytes)
    requires Word(l) && AllLower(l)
    ensures Normalize(l) == (if l[|l| - 1] == DOT then l else l + [DOT])
  {
    hide ToLower, TrimSpace, StripComment, Fields, IsSpace;
    LowerFixed(l);
    WordTrimmed(l);
    assert l[|l| - 1..] == [l[|l| - 1]];
  }

  lemma LowerWord(t: Bytes)
    requires Word(t)
    ensures Word(ToLower(t)) && AllLower(ToLower(t))
  {
    hide ToLower;
    forall i | 0 <= i < |t|
      ensures var c := ToLower(t)[i]; !IsSpace(c) && c != HASH && LowerByte(c) == c
    {
      ToLowerAt(t, i);
    }
  }

  lemma NormalWord(t: Bytes)
    requires Word(t)
    ensures Word(Normalize(t)) && AllLower(Normalize(t)) && Normalize(t)[|Normalize(t)| - 1] == DOT
  {
    LowerWord(t);
    NormalOfLower(ToLower(t));
    ToLowerIdempotent(t);
    assert Normalize(ToLower(t)) == Normalize(t);
    NormalizeShape(t);
    hide Normalize, ToLower, TrimSpace;
  }

  // ---- the round trip of Domains and Replace ----

  /** The lines list every token once normalised, wildcards as Domains writes them, in any order. */
  ghost predicate Listing(tokens: seq<Bytes>, lines: seq<Bytes>) {
    forall l :: l in lines <==> exists t :: t in tokens && LineOf(t) == Some(l)
  }

  /** The line for a token; none for the root. */
  function LineOf(t: Bytes): Option<Bytes> {
    var n := Normalize(t);
    if n == [DOT] then None else if IsWildcard(n) then Some(WildcardLine(n[2..])) else Some(n)
  }

  /** A wildcard whose suffix has an empty label at its end. */
  predicate EndsInEmptyLabel(t: Bytes) {
    var n := Normalize(t);
    IsWildcard(n) && |n| >= 4 && n[|n| - 2] == DOT
  }

  /** The suffix that is read back from the line of a wildcard. */
  function SuffixBack(w: Bytes): Bytes {
    if |w| <= 1 then [] else if w[|w| - 2] == DOT then w[..|w| - 1] else w
  }

  lemma LineBack(t: Bytes)
    requires Word(t) && LineOf(t).Some?
    ensures var l, n := LineOf(t).value, Normalize(t);
            && Word(l) && Tokens(l) == [l]
            && Normalize(l) == (if IsWildcard(n) then [STAR, DOT] + SuffixBack(n[2..]) else n)
  {
    hide Tokens, Normalize, Word, AllLower;
    var l, n := LineOf(t).value, Normalize(t);
    NormalWord(t);
    if IsWildcard(n) {
      WildcardBack(n);
      NormalOfLower(l);
    } else {
      NormalizeTwice(t);
    }
    NotAnAddress(l);
  }

  lemma WildcardBack(n: Bytes)
    requires Word(n) && AllLower(n) && n[|n| - 1] == DOT && IsWildcard(n)
    ensures var l, x := WildcardLine(n[2..]), SuffixBack(n[2..]);
            && Word(l) && AllLower(l) && l[0] == STAR
            && [STAR, DOT] + x == (if l[|l| - 1] == DOT then l else l + [DOT])
  {
    var w := n[2..];
    var l := WildcardLine(w);
    assert w != [] ==> w[|w| - 1] == DOT && w[|w| - 1..] == [DOT];
    assert TrimDot(w) == if w == [] then [] else w[..|w| - 1];
    assert forall i :: 0 <= i < |l| ==> l[i] == n[i];
  }

  lemma {:induction false} TokensOfLines(lines: seq<Bytes>)
    requires forall i :: 0 <= i < |lines| ==> Tokens(lines[i]) == [lines[i]]
    ensures AllTokens(lines) == lines
  {
    hide Tokens;
    if lines != [] {
      TokensOfLines(lines[..|lines| - 1]);
      assert lines == lines[..|lines| - 1] + [lines[|lines| - 1]];
    }
  }

  /** One token decides as its line does, unless its suffix ends in an empty label. */
  lemma SameCover(t: Bytes, norm: Bytes)
    requires Word(t) && LineOf(t).Some? && !EndsInEmptyLabel(t)
    requires norm != [] && norm[|norm| - 1] == DOT && norm != [DOT]
    ensures var l := LineOf(t).value;
            (Spells(l, norm) || Covers(l, norm)) <==> (Spells(t, norm) || Covers(t, norm))
  {
    hide Normalize, Tokens, Word, AllLower, HasSuffix, SuffixBack, WildcardLine;
    LineBack(t);
    var n := Normalize(t);
    if IsWildcard(n) {
      var w := n[2..];
      NormalWord(t);
      CoverBack(w, norm);
      var m := [STAR, DOT] + SuffixBack(w);
      assert m[2..] == SuffixBack(w) && IsWildcard(m) && m != [DOT];
    }
  }

  /** The suffix read back covers the same domains. */
  lemma CoverBack(w: Bytes, norm: Bytes)
    requires w != [] ==> w[|w| - 1] == DOT
    requires |w| >= 2 ==> w[|w| - 2] != DOT
    requires norm != [] && norm[|norm| - 1] == DOT && norm != [DOT]
    ensures norm != SuffixBack(w) && HasSuffix(norm, SuffixBack(w)) <==> norm != w && HasSuffix(norm, w)
  {
    if |w| == 1 {
      assert w == [DOT];
      assert norm[|norm| - 1..] == [DOT];
    }
  }

  /**
   Writing the list out and reading it back decides every domain as before, unless some
   wildcard's suffix ends in an empty label.
   */
  lemma DomainsRoundTrip(tokens: seq<Bytes>, lines: seq<Bytes>, domain: Bytes)
    requires (forall t :: t in tokens ==> Word(t)) && Listing(tokens, lines)
    requires forall t :: t in tokens ==> !EndsInEmptyLabel(t)
    ensures Blocked(AllTokens(lines), domain) <==> Blocked(tokens, domain)
  {
    hide Normalize, Tokens, Spells, Covers, EndsInEmptyLabel, LineOf, Word, AllTokens, Listing;
    LinesBack(tokens, lines);
    NormalizeTwice(domain);
    var norm := Normalize(domain);
    if norm != [DOT] {
      if t :| t in tokens && (Spells(t, norm) || Covers(t, norm)) {
        LineDecides(tokens, lines, t, norm);
      }
      if l :| l in lines && (Spells(l, norm) || Covers(l, norm)) {
        TokenDecides(tokens, lines, l, norm);
      }
    }
  }

  lemma LinesBack(tokens: seq<Bytes>, lines: seq<Bytes>)
    requires (forall t :: t in tokens ==> Word(t)) && Listing(tokens, lines)
    ensures AllTokens(lines) == lines
  {
    hide Normalize, Tokens, LineOf, Word, AllTokens;
    forall i | 0 <= i < |lines|
      ensures Tokens(lines[i]) == [lines[i]]
    {
      assert lines[i] in lines;
      var t :| t in tokens && LineOf(t) == Some(lines[i]);
      LineBack(t);
    }
    TokensOfLines(lines);
  }

  /** What a token decides, its line decides. */
  lemma LineDecides(tokens: seq<Bytes>, lines: seq<Bytes>, t: Bytes, norm: Bytes)
    requires t in tokens && Word(t) && !EndsInEmptyLabel(t) && Listing(tokens, lines)
    requires norm == Normalize(norm) && norm != [DOT] && (Spells(t, norm) || Covers(t, norm))
    ensures exists l :: l in lines && (Spells(l, norm) || Covers(l, norm))
  {
    hide Normalize, Spells, Covers, EndsInEmptyLabel, LineOf, Word;
    if LineOf(t).None? {
      RootDecidesNothing(t, norm);
    } else {
      SameCover(t, norm);
      assert LineOf(t).value in lines;
    }
  }

  /** And what a line decides, a token does. */
  lemma TokenDecides(tokens: seq<Bytes>, lines: seq<Bytes>, l: Bytes, norm: Bytes)
    requires l in lines && Listing(tokens, lines) && norm == Normalize(norm) && norm != [DOT]
    requires forall t :: t in tokens ==> Word(t) && !EndsInEmptyLabel(t)
    requires Spells(l, norm) || Covers(l, norm)
    ensures exists t :: t in tokens && (Spells(t, norm) || Covers(t, norm))
  {
    hide Normalize, Spells, Covers, EndsInEmptyLabel, LineOf, Word;
    var t :| t in tokens && LineOf(t) == Some(l);
    SameCover(t, norm);
  }

  lemma RootDecidesNothing(t: Bytes, norm: Bytes)
    requires LineOf(t).None?
    ensures !Spells(t, norm) && !Covers(t, norm)
  {
    hide Normalize;
  }

  /** A list of one wildcard survives exactly when its suffix does not end in an empty label. */
  lemma WildcardRoundTripExactly(t: Bytes)
    requires Word(t) && IsWildcard(Normalize(t))
    ensures !EndsInEmptyLabel(t)
            <==> forall domain :: Blocked(AllTokens([LineOf(t).value]), domain) <==> Blocked([t], domain)
  {
    hide Normalize, Tokens, AllTokens;
    var l := LineOf(t).value;
    if !EndsInEmptyLabel(t) {
      forall domain
        ensures Blocked(AllTokens([l]), domain) <==> Blocked([t], domain)
      {
        DomainsRoundTrip([t], [l], domain);
      }
    } else {
      var d := LostDomain(t);
    }
  }

  /** A domain that is blocked only after the list has been written out and read back. */
  lemma LostDomain(t: Bytes) returns (d: Bytes)
    requires Word(t) && EndsInEmptyLabel(t)
    ensures Blocked(AllTokens([LineOf(t).value]), d) && !Blocked([t], d)
  {
    hide Tokens, Normalize, AllTokens, Word, AllLower, HasSuffix;
    var l, n := LineOf(t).value, Normalize(t);
    var x := SuffixBack(n[2..]);
    hide SuffixBack, WildcardLine;
    LineBack(t);
    NormalWord(t);
    d := [97] + x;
    LostIs(n, x, d);
    NormalOfLower(d);
    TokensOfLines([l]);
    assert l in [l];
  }

  lemma LostIs(n: Bytes, x: Bytes, d: Bytes)
    requires Word(n) && AllLower(n) && IsWildcard(n) && |n| >= 4 && n[|n| - 2] == DOT && x == SuffixBack(n[2..]) && d == [97] + x
    ensures Word(d) && AllLower(d) && d[|d| - 1] == DOT && d != [DOT]
    ensures IsWildcard([STAR, DOT] + x) && ([STAR, DOT] + x)[2..] == x && HasSuffix(d, x) && d != x
    ensures !(d != n[2..] && HasSuffix(d, n[2..])) && !IsWildcard(d) && d != n
  {
    var w := n[2..];
    assert x == w[..|w| - 1];
    assert forall i :: 0 <= i < |x| ==> x[i] == n[i + 2];
    assert forall i :: 1 <= i < |d| ==> d[i] == n[i + 1];
    assert d[1..] == x;
    if HasSuffix(d, w) {
      assert d[|d| - |w|..] == d;
    }
  }

  // ---- wildcards and labels ----

  /** The domain is properly below the wildcard's suffix, label by label. */
  predicate Below(norm: Bytes, suffix: Bytes) {
    LabelSuffix(norm, suffix) && norm != Normalize(suffix)
  }

  /**
   A wildcard token covers what it should exactly when its suffix is empty or the root, is the
   domain itself, does not end the domain's text, or does so after a dot.
   */
  lemma CoversExactly(t: Bytes, norm: Bytes)
    requires Word(t) && IsWildcard(Normalize(t)) && Normalize(norm) == norm && norm != [DOT]
    ensures var w := Normalize(t)[2..];
            (Covers(t, norm) <==> Below(norm, w))
            <==> |w| <= 1 || norm == w || !HasSuffix(norm, w) || norm[|norm| - |w| - 1] == DOT
  {
    hide Normalize, LabelSuffix, Word, AllLower;
    var w := Normalize(t)[2..];
    NormalWord(t);
    SuffixNormal(Normalize(t));
    assert |w| == 0 ==> w == [];
    LabelSuffixText(norm, w);
    DotBefore(norm, w);
    ShortSuffix(norm);
  }

  lemma ShortSuffix(norm: Bytes)
    requires norm != [] && norm[|norm| - 1] == DOT
    ensures HasSuffix(norm, []) && HasSuffix(norm, [DOT])
  {
    assert norm[|norm| - 1..] == [DOT];
  }

  /** The suffix of a wildcard token is normalised, or empty. */
  lemma SuffixNormal(n: Bytes)
    requires Word(n) && AllLower(n) && n[|n| - 1] == DOT && IsWildcard(n)
    ensures var w := n[2..];
            && (w == [] ==> Normalize(w) == [DOT]) && (w != [] ==> Normalize(w) == w) && (|w| == 1 ==> w == [DOT])
  {
    var w := n[2..];
    if w != [] {
      assert w[0] == n[2] && w[|w| - 1] == DOT;
      NormalFixed(w);
    }
  }

  /** Every wildcard with a suffix covers a domain that is not below it. */
  lemma CoversTooWide(t: Bytes)
    requires Word(t) && IsWildcard(Normalize(t)) && |Normalize(t)| > 3
    ensures var w := Normalize(t)[2..];
            var d: Bytes := [120] + w;
            Normalize(d) == d && Covers(t, d) && !Below(d, w)
  {
    hide Normalize, LabelSuffix, Word;
    NormalWord(t);
    var w := Normalize(t)[2..];
    var d: Bytes := [120] + w;
    SuffixNormal(Normalize(t));
    WiderNormal(Normalize(t), d);
    LabelSuffixText(d, w);
    hide AllLower;
    assert d[1..] == w;
    DotBefore(d, w);
  }

  lemma WiderNormal(n: Bytes, d: Bytes)
    requires AllLower(n) && |n| > 3 && n[|n| - 1] == DOT && d == [120] + n[2..]
    ensures Normalize(d) == d
  {
    assert forall i :: 1 <= i < |d| ==> d[i] == n[i + 1];
    NormalFixed(d);
  }
}
