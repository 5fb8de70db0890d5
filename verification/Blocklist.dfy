/** The blocklist of internal/resolver/blocklist.go as it is built. */
module Blocklist {
  import opened Octets
  import opened Names
  import opened Domains
  import opened Sorting
  import opened BlocklistSpec

  /** dedupeStrings writes its result over the front of its argument while it reads it. */
  method DedupeStrings(a: array<Bytes>) returns (n: nat)
    modifies a
    ensures n <= a.Length && a[..n] == Dedupe(old(a[..]))
  {
    ghost var s := a[..];
    if a.Length <= 1 {
      return a.Length;
    }
    n := 1;
    for i := 1 to a.Length
      invariant 1 <= n <= i
      invariant a[..n] == Dedupe(s[..i])
      invariant forall k :: i - 1 <= k < a.Length ==> a[k] == s[k]
    {
      assert s[..i + 1][..i] == s[..i];
      if a[i] != a[i - 1] {
        a[n] := a[i];
        n := n + 1;
      }
    }
    assert s[..a.Length] == s;
  }

  /** sort.Strings and dedupeStrings: the same elements, each once. */
  method SortedOnce(list: seq<Bytes>) returns (out: seq<Bytes>)
    ensures forall x :: x in out <==> x in list
    ensures forall i, j :: 0 <= i < j < |out| ==> out[i] != out[j]
  {
    hide Sorted, Dedupe;
    var sorted := SortStrings(list);
    SortSorts(list);
    var a := new Bytes[|sorted|](i requires 0 <= i < |sorted| => sorted[i]);
    assert a[..] == sorted;
    var n := DedupeStrings(a);
    DedupeSorted(sorted);
    out := a[..n];
    forall x
      ensures x in out <==> x in list
    {
      assert x in multiset(sorted) <==> x in multiset(list);
    }
  }

  class Blocklist {
    var exact: set<Bytes>
    var wildcard: seq<Bytes>
    var domainsCount: nat
    var sessionHits: nat
    var totalHits: nat
    ghost var tokens: seq<Bytes>

    /** `exact` and `wildcard` hold exactly the tokens of the text last loaded, each once. */
    ghost predicate Valid()
      reads this
    {
      && (forall t :: t in tokens ==> Word(t))
      && Represents(exact, wildcard, tokens)
      && domainsCount == |exact| + |wildcard|
    }

    constructor ()
      ensures Valid() && tokens == [] && totalHits == 0
    {
      exact, wildcard, tokens := {}, [], [];
      domainsCount, sessionHits, totalHits := 0, 0, 0;
    }

    method Replace(lines: seq<Bytes>)
      modifies this
      ensures Valid() && tokens == AllTokens(lines)
      ensures sessionHits == old(sessionHits) && totalHits == old(totalHits)
    {
      hide Normalize, Tokens, Sorted, Dedupe;
      var found, wild := Collect(lines);
      var suffixes := SortedOnce(wild);
      exact := found;
      wildcard := suffixes;
      domainsCount := |found| + |suffixes|;
      tokens := AllTokens(lines);
      TokensAreWords(lines);
    }

    /** The domain is blocked exactly when some token of the text loaded last blocks it; a hit is counted. */
    method IsBlocked(domain: Bytes) returns (blocked: bool)
      requires Valid()
      modifies this`sessionHits, this`totalHits
      ensures Valid()
      ensures blocked <==> Blocked(tokens, domain)
      ensures sessionHits == old(sessionHits) + (if blocked then 1 else 0)
      ensures totalHits == old(totalHits) + (if blocked then 1 else 0)
    {
      hide Normalize, HasSuffix, Represents, Blocked;
      var norm := Normalize(domain);
      DecidesAsTokens(exact, wildcard, tokens, domain);
      if norm == [DOT] {
        return false;
      }
      if norm in exact {
        sessionHits, totalHits := sessionHits + 1, totalHits + 1;
        return true;
      }
      for i := 0 to |wildcard|
        invariant forall k :: 0 <= k < i ==> !(norm != wildcard[k] && HasSuffix(norm, wildcard[k]))
        invariant sessionHits == old(sessionHits) && totalHits == old(totalHits)
      {
        var suffix := wildcard[i];
        if norm == suffix {
          continue;
        }
        LongerSuffix(exact, wildcard, tokens, i, norm);
        if HasSuffix(norm, [DOT] + TrimDot(suffix) + [DOT]) || HasSuffix(norm, suffix) {
          sessionHits, totalHits := sessionHits + 1, totalHits + 1;
          return true;
        }
      }
      return false;
    }

    /** Domains: the exact names and the wildcards as text, sorted. */
    method Domains() returns (out: seq<Bytes>)
      requires Valid()
      ensures Sorted(out) && Listing(tokens, out)
    {
      hide Normalize, Sorted, WildcardLine;
      var list: seq<Bytes> := [];
      var rest := exact;
      while rest != {}
        invariant rest <= exact
        invariant forall d :: d in list <==> d in exact && d !in rest
        decreases |rest|
      {
        var d :| d in rest;
        list := list + [d];
        rest := rest - {d};
      }
      ghost var names := list;
      for i := 0 to |wildcard|
        invariant forall l :: l in list <==> l in exact || exists k :: 0 <= k < i && l == WildcardLine(wildcard[k])
      {
        list := list + [WildcardLine(wildcard[i])];
      }
      out := SortStrings(list);
      SortSorts(list);
      forall l
        ensures l in out <==> l in list
      {
        assert l in multiset(out) <==> l in multiset(list);
      }
      ListingOf(exact, wildcard, tokens, list, out);
    }
  }

  /** The set of exact names and the list of suffixes that the tokens make. */
  ghost predicate Represents(exact: set<Bytes>, wildcard: seq<Bytes>, tokens: seq<Bytes>) {
    && (forall d :: d in exact <==> SpeltBy(tokens, d))
    && (forall w :: w in wildcard <==> SuffixIn(tokens, w))
    && (forall i, j :: 0 <= i < j < |wildcard| ==> wildcard[i] != wildcard[j])
  }

  ghost predicate SpeltBy(tokens: seq<Bytes>, d: Bytes) {
    exists t :: t in tokens && Spells(t, d)
  }

  ghost predicate SuffixIn(tokens: seq<Bytes>, w: Bytes) {
    exists t :: t in tokens && SuffixOf(t) == Some(w)
  }

  function SuffixOf(t: Bytes): Option<Bytes> {
    var n := Normalize(t);
    if n != [DOT] && IsWildcard(n) then Some(n[2..]) else None
  }

  /** The first loop of Replace. */
  method Collect(lines: seq<Bytes>) returns (exact: set<Bytes>, wild: seq<Bytes>)
    ensures forall d :: d in exact <==> SpeltBy(AllTokens(lines), d)
    ensures forall w :: w in wild <==> SuffixIn(AllTokens(lines), w)
  {
    hide Normalize, Tokens;
    exact, wild := {}, [];
    for i := 0 to |lines|
      invariant forall d :: d in exact <==> SpeltBy(AllTokens(lines[..i]), d)
      invariant forall w :: w in wild <==> SuffixIn(AllTokens(lines[..i]), w)
    {
      assert lines[..i + 1][..i] == lines[..i];
      ghost var before := AllTokens(lines[..i]);
      var words := Tokens(lines[i]);
      exact, wild := CollectWords(words, exact, wild, before);
      assert AllTokens(lines[..i + 1]) == before + words;
    }
    assert lines[..|lines|] == lines;
  }

  method CollectWords(words: seq<Bytes>, exact0: set<Bytes>, wild0: seq<Bytes>, ghost before: seq<Bytes>)
      returns (exact: set<Bytes>, wild: seq<Bytes>)
    requires forall d :: d in exact0 <==> SpeltBy(before, d)
    requires forall w :: w in wild0 <==> SuffixIn(before, w)
    ensures forall d :: d in exact <==> SpeltBy(before + words, d)
    ensures forall w :: w in wild <==> SuffixIn(before + words, w)
  {
    hide Normalize;
    exact, wild := exact0, wild0;
    ghost var seen := before;
    for i := 0 to |words|
      invariant seen == before + words[..i]
      invariant forall d :: d in exact <==> SpeltBy(seen, d)
      invariant forall w :: w in wild <==> SuffixIn(seen, w)
    {
      var norm := Normalize(words[i]);
      OneMore(seen, words[i]);
      seen := seen + [words[i]];
      if norm == [DOT] {
        continue;
      }
      if |norm| >= 2 && norm[0] == STAR && norm[1] == DOT {
        wild := wild + [norm[2..]];
        continue;
      }
      exact := exact + {norm};
    }
    assert seen == before + words;
  }

  lemma OneMore(all: seq<Bytes>, t: Bytes)
    ensures forall d :: SpeltBy(all + [t], d) <==> SpeltBy(all, d) || Spells(t, d)
    ensures forall w :: SuffixIn(all + [t], w) <==> SuffixIn(all, w) || SuffixOf(t) == Some(w)
  {
    hide Spells, SuffixOf;
    assert t in all + [t] && forall u :: u in all ==> u in all + [t];
  }

  /** The set and the list decide as the tokens do: sorting and deduplicating lose and add nothing. */
  lemma DecidesAsTokens(exact: set<Bytes>, wildcard: seq<Bytes>, tokens: seq<Bytes>, domain: Bytes)
    requires Represents(exact, wildcard, tokens)
    ensures var norm := Normalize(domain);
            Blocked(tokens, domain)
            <==> norm != [DOT] && (norm in exact || exists i :: 0 <= i < |wildcard| && norm != wildcard[i] && HasSuffix(norm, wildcard[i]))
  {
    hide Normalize, HasSuffix, Spells;
    var norm := Normalize(domain);
    if norm != [DOT] {
      if t :| t in tokens && Covers(t, norm) {
        assert SuffixOf(t) == Some(Normalize(t)[2..]);
        assert Normalize(t)[2..] in wildcard;
      }
      if i :| 0 <= i < |wildcard| && norm != wildcard[i] && HasSuffix(norm, wildcard[i]) {
        assert wildcard[i] in wildcard;
        var t :| t in tokens && SuffixOf(t) == Some(wildcard[i]);
        assert Covers(t, norm);
      }
    }
  }

  /** The first of the two suffix tests of IsBlocked implies the second. */
  lemma LongerSuffix(exact: set<Bytes>, wildcard: seq<Bytes>, tokens: seq<Bytes>, i: nat, norm: Bytes)
    requires Represents(exact, wildcard, tokens) && i < |wildcard|
    ensures HasSuffix(norm, [DOT] + TrimDot(wildcard[i]) + [DOT]) ==> HasSuffix(norm, wildcard[i])
  {
    hide Normalize, Spells;
    var w := wildcard[i];
    assert w in wildcard;
    var t :| t in tokens && SuffixOf(t) == Some(w);
    if w != [] {
      assert w[|w| - 1] == Normalize(t)[|Normalize(t)| - 1] == DOT;
      assert w[|w| - 1..] == [DOT];
      assert TrimDot(w) + [DOT] == w;
      var long := [DOT] + TrimDot(w) + [DOT];
      assert long == [DOT] + w;
      if HasSuffix(norm, long) {
        assert norm[|norm| - |w|..] == norm[|norm| - |long|..][1..];
      }
    }
  }

  lemma ListingOf(exact: set<Bytes>, wildcard: seq<Bytes>, tokens: seq<Bytes>, list: seq<Bytes>, out: seq<Bytes>)
    requires Represents(exact, wildcard, tokens)
    requires forall l :: l in list <==> l in exact || exists k :: 0 <= k < |wildcard| && l == WildcardLine(wildcard[k])
    requires forall l :: l in out <==> l in list
    ensures Listing(tokens, out)
  {
    hide Normalize, WildcardLine;
    forall l
      ensures l in out <==> exists t :: t in tokens && LineOf(t) == Some(l)
    {
      if l in exact {
        var t :| t in tokens && Spells(t, l);
        assert LineOf(t) == Some(l);
      }
      if k :| 0 <= k < |wildcard| && l == WildcardLine(wildcard[k]) {
        assert wildcard[k] in wildcard;
        var t :| t in tokens && SuffixOf(t) == Some(wildcard[k]);
        assert LineOf(t) == Some(l);
      }
      if t :| t in tokens && LineOf(t) == Some(l) {
        if SuffixOf(t).Some? {
          assert SuffixOf(t).value in wildcard;
        } else {
          assert Spells(t, l);
        }
      }
    }
  }
}
