/**
 * The match-processing scan of RegexpHTMLParser.getEmbeddedResourceURLs.
 *
 * The regular-expression engine is abstract here: the scan receives the
 * matches it would find, in document order. `new URL(base, s)` is an abstract
 * partial function `resolve`, None standing for MalformedURLException. URLs
 * are values of a type parameter U. The collector receives (string, base)
 * pairs and keeps them in order.
 */
module ResourceScan {
  import opened Wrappers
  import opened Grammar

  /** The collector behind `urls`: it records every pair handed to addURL, in order. */
  class UrlCollection<U> {
    var pairs: seq<(string, U)>

    /** Hands one (captured string, base) pair to the collector. */
    method AddUrl(s: string, base: U)
      modifies this
      ensures pairs == old(pairs) + [(s, base)]
    {
      pairs := pairs + [(s, base)];
    }
  }

  // ---------------------------------------------------------------------
  // Specification of one match
  // ---------------------------------------------------------------------

  /** One step of the base-group loop: a null group or a failed resolution keeps the base. */
  function Rebase<U>(resolve: (U, string) -> Option<U>, base: U, group: Option<string>): U {
    match group
    case None => base
    case Some(s) => resolve(base, s).GetOr(base)
  }

  /** The base after groups 1..n of `m` have been applied to `base`, in ascending order. */
  function BaseThrough<U>(resolve: (U, string) -> Option<U>, base: U, m: Match, n: nat): U
    requires n <= |m|
    decreases n
  {
    if n == 0 then base else Rebase(resolve, BaseThrough(resolve, base, m, n - 1), Group(m, n))
  }

  /** How many groups the base-group loop visits: it stops at NUM_BASE_GROUPS or at the last group. */
  function BaseGroupCount(m: Match): nat {
    if |m| < NUM_BASE_GROUPS then |m| else NUM_BASE_GROUPS
  }

  /** The base once match `m`'s base groups have been processed. */
  function MatchBase<U>(resolve: (U, string) -> Option<U>, base: U, m: Match): U {
    BaseThrough(resolve, base, m, BaseGroupCount(m))
  }

  /** The pairs the resource-group loop hands out for groups g..|m| of `m`, all carrying `base`. */
  function PairsFrom<U>(m: Match, base: U, g: nat): seq<(string, U)>
    requires g >= 1
    decreases |m| + 1 - g
  {
    if g > |m| then []
    else (if Group(m, g).Some? then [(Group(m, g).value, base)] else []) + PairsFrom(m, base, g + 1)
  }

  /** The pairs one match hands out: its groups above NUM_BASE_GROUPS. */
  function MatchPairs<U>(m: Match, base: U): seq<(string, U)> {
    PairsFrom(m, base, NUM_BASE_GROUPS + 1)
  }

  /** The non-null groups of `m` numbered g or more. */
  function NonNullGroupSet(m: Match, g: nat): set<nat>
    requires g >= 1
  {
    set h: nat | g <= h <= |m| && Group(m, h).Some?
  }

  /** The group numbers the resource-group loop hands out for groups g..|m|, listed in visiting order. */
  function EmittedGroups(m: Match, g: nat): (r: seq<nat>)
    requires g >= 1
    ensures forall i :: 0 <= i < |r| ==> g <= r[i] <= |m| && Group(m, r[i]).Some?
    ensures forall i, j :: 0 <= i < j < |r| ==> r[i] < r[j]
    ensures forall h :: g <= h <= |m| && Group(m, h).Some? ==> h in r
    decreases |m| + 1 - g
  {
    if g > |m| then []
    else (if Group(m, g).Some? then [g] else []) + EmittedGroups(m, g + 1)
  }

  // ---------------------------------------------------------------------
  // Specification of the whole scan
  // ---------------------------------------------------------------------

  /** The base in effect once the matches `ms` have been processed, starting from `base`. */
  function BaseAfter<U>(resolve: (U, string) -> Option<U>, base: U, ms: seq<Match>): U
    decreases |ms|
  {
    if ms == [] then base
    else MatchBase(resolve, BaseAfter(resolve, base, ms[..|ms| - 1]), ms[|ms| - 1])
  }

  /**
   * Every pair handed to the collector while scanning `ms` from `base`: match
   * k's resource groups carry the base left by the base groups of matches 0..k.
   */
  function Emitted<U>(resolve: (U, string) -> Option<U>, base: U, ms: seq<Match>): seq<(string, U)>
    decreases |ms|
  {
    if ms == [] then []
    else Emitted(resolve, base, ms[..|ms| - 1]) + MatchPairs(ms[|ms| - 1], BaseAfter(resolve, base, ms))
  }

  /** How many non-null groups above NUM_BASE_GROUPS the matches hold, summed over the matches. */
  function ResourceGroupCount(ms: seq<Match>): nat
    decreases |ms|
  {
    if ms == [] then 0
    else ResourceGroupCount(ms[..|ms| - 1]) + |NonNullGroupSet(ms[|ms| - 1], NUM_BASE_GROUPS + 1)|
  }

  // ---------------------------------------------------------------------
  // The scan
  // ---------------------------------------------------------------------

  /**
   * getEmbeddedResourceURLs: walks the matches in order, replaces the base with
   * every resolvable base-href group and hands every other non-null group to
   * `urls` with the base in effect; returns what `urls.iterator()` walks.
   */
  method GetEmbeddedResourceUrls<U>(matches: seq<Match>, baseUrl: U,
                                    resolve: (U, string) -> Option<U>, urls: UrlCollection<U>)
    returns (result: seq<(string, U)>)
    modifies urls
    ensures urls.pairs == old(urls.pairs) + Emitted(resolve, baseUrl, matches)
    ensures result == urls.pairs
  {
    var base := baseUrl;
    var k := 0;
    while k < |matches|
      invariant 0 <= k <= |matches|
      invariant base == BaseAfter(resolve, baseUrl, matches[..k])
      invariant urls.pairs == old(urls.pairs) + Emitted(resolve, baseUrl, matches[..k])
    {
      var m := matches[k];
      ghost var before := base;
      // Base-href groups 1..NUM_BASE_GROUPS:
      var g := 1;
      while g <= NUM_BASE_GROUPS && g <= |m|
        invariant 1 <= g <= BaseGroupCount(m) + 1
        invariant base == BaseThrough(resolve, before, m, g - 1)
      {
        var s := Group(m, g);
        if s.Some? {
          var next := resolve(base, s.value);
          if next.Some? {
            base := next.value;
          }
        }
        g := g + 1;
      }
      assert base == MatchBase(resolve, before, m);
      assert matches[..k + 1][..k] == matches[..k];
      assert base == BaseAfter(resolve, baseUrl, matches[..k + 1]);
      ghost var collected := urls.pairs;
      g := NUM_BASE_GROUPS + 1;
      while g <= |m|
        invariant NUM_BASE_GROUPS + 1 <= g
        invariant g <= |m| + 1 || g == NUM_BASE_GROUPS + 1
        invariant urls.pairs + PairsFrom(m, base, g) == collected + MatchPairs(m, base)
      {
        var s := Group(m, g);
        if s.Some? {
          urls.AddUrl(s.value, base);
        }
        g := g + 1;
      }
      assert urls.pairs == collected + MatchPairs(m, base);
      assert Emitted(resolve, baseUrl, matches[..k + 1]) == Emitted(resolve, baseUrl, matches[..k]) + MatchPairs(m, base);
      k := k + 1;
    }
    assert matches[..k] == matches;
    result := urls.pairs;
  }

  // ---------------------------------------------------------------------
  // Properties of one match
  // ---------------------------------------------------------------------

  /**
   * The resource-group loop hands out exactly one pair per non-null group
   * numbered g or more, in ascending group order, each carrying the base in
   * effect; null groups produce nothing.
   */
  lemma {:induction false} PairsFromAreGroups<U>(m: Match, base: U, g: nat)
    requires g >= 1
    ensures |PairsFrom(m, base, g)| == |EmittedGroups(m, g)|
    ensures forall i :: 0 <= i < |EmittedGroups(m, g)| ==>
              PairsFrom(m, base, g)[i] == (Group(m, EmittedGroups(m, g)[i]).value, base)
    decreases |m| + 1 - g
  {
    if g <= |m| {
      PairsFromAreGroups(m, base, g + 1);
    }
  }

  /** Base-href groups are never handed to the collector: every pair a match emits comes from a group above NUM_BASE_GROUPS. */
  lemma BaseGroupsNeverEmitted<U>(m: Match, base: U)
    ensures |MatchPairs(m, base)| == |EmittedGroups(m, NUM_BASE_GROUPS + 1)|
    ensures forall i :: 0 <= i < |MatchPairs(m, base)| ==>
              var g := EmittedGroups(m, NUM_BASE_GROUPS + 1)[i];
              NUM_BASE_GROUPS < g <= |m| && Group(m, g) == Some(MatchPairs(m, base)[i].0)
              && MatchPairs(m, base)[i].1 == base
  {
    PairsFromAreGroups(m, base, NUM_BASE_GROUPS + 1);
  }

  /** The pairs a match hands out do not depend on what its base-href groups hold. */
  lemma {:induction false} PairsIgnoreBaseGroups<U>(m: Match, m': Match, base: U, g: nat)
    requires g >= 1 && |m| == |m'|
    requires forall h :: g <= h <= |m| ==> Group(m, h) == Group(m', h)
    ensures PairsFrom(m, base, g) == PairsFrom(m', base, g)
    decreases |m| + 1 - g
  {
    if g <= |m| {
      PairsIgnoreBaseGroups(m, m', base, g + 1);
    }
  }

  /** The number of pairs handed out for groups g..|m| is the number of non-null groups among them. */
  lemma {:induction false} PairsFromCount<U>(m: Match, base: U, g: nat)
    requires g >= 1
    ensures |PairsFrom(m, base, g)| == |NonNullGroupSet(m, g)|
    decreases |m| + 1 - g
  {
    if g > |m| {
      assert NonNullGroupSet(m, g) == {};
    } else {
      PairsFromCount(m, base, g + 1);
      var here: set<nat> := if Group(m, g).Some? then {g} else {};
      assert NonNullGroupSet(m, g) == here + NonNullGroupSet(m, g + 1);
      assert g !in NonNullGroupSet(m, g + 1);
    }
  }

  /**
   * Resolution failures are ignored: when resolving every non-null base-href
   * group against the current base fails, the base is left as it was.
   */
  lemma {:induction false} FailedResolutionsKeepBase<U>(resolve: (U, string) -> Option<U>, base: U, m: Match, n: nat)
    requires n <= |m|
    requires forall h :: 1 <= h <= n && Group(m, h).Some? ==> resolve(base, Group(m, h).value).None?
    ensures BaseThrough(resolve, base, m, n) == base
  {
    if n > 0 {
      FailedResolutionsKeepBase(resolve, base, m, n - 1);
    }
  }

  /** Null base-href groups leave the base as it was. */
  lemma {:induction false} NullGroupsKeepBase<U>(resolve: (U, string) -> Option<U>, base: U, m: Match, lo: nat, n: nat)
    requires lo <= n <= |m|
    requires forall h :: lo < h <= n ==> Group(m, h).None?
    ensures BaseThrough(resolve, base, m, n) == BaseThrough(resolve, base, m, lo)
    decreases n
  {
    if n > lo {
      NullGroupsKeepBase(resolve, base, m, lo, n - 1);
    }
  }

  /**
   * A `<base href>` match sets exactly one base group: the new base is that
   * value resolved against the current base, or the current base when the
   * resolution fails.
   */
  lemma SingleBaseGroup<U>(resolve: (U, string) -> Option<U>, base: U, m: Match, g: nat, s: string)
    requires 1 <= g <= BaseGroupCount(m) && Group(m, g) == Some(s)
    requires forall h :: 1 <= h <= BaseGroupCount(m) && h != g ==> Group(m, h).None?
    ensures MatchBase(resolve, base, m) == resolve(base, s).GetOr(base)
  {
    NullGroupsKeepBase(resolve, base, m, 0, g - 1);
    NullGroupsKeepBase(resolve, base, m, g, BaseGroupCount(m));
  }

  /** Groups past the last capturing group read as null and change nothing (a count that includes group 0 is harmless). */
  lemma TrailingNullGroupIgnored<U>(resolve: (U, string) -> Option<U>, base: U, m: Match, g: nat)
    requires g >= 1
    ensures PairsFrom(m + [None], base, g) == PairsFrom(m, base, g)
    ensures MatchBase(resolve, base, m + [None]) == MatchBase(resolve, base, m)
  {
    TrailingNullNoPairs(base, m, g);
    TrailingNullKeepsBase(resolve, base, m);
  }

  /** The pairs part of TrailingNullGroupIgnored: the resource loop skips the extra group. */
  lemma {:induction false} TrailingNullNoPairs<U>(base: U, m: Match, g: nat)
    requires g >= 1
    ensures PairsFrom(m + [None], base, g) == PairsFrom(m, base, g)
    decreases |m| + 1 - g
  {
    if g <= |m| {
      assert Group(m + [None], g) == Group(m, g);
      TrailingNullNoPairs(base, m, g + 1);
    } else if g == |m| + 1 {
      assert Group(m + [None], g) == None;
    }
  }

  /** The base part of TrailingNullGroupIgnored: the base loop may visit the extra group when the match is short. */
  lemma TrailingNullKeepsBase<U>(resolve: (U, string) -> Option<U>, base: U, m: Match)
    ensures MatchBase(resolve, base, m + [None]) == MatchBase(resolve, base, m)
  {
    BaseThroughPrefix(resolve, base, m, [None], BaseGroupCount(m));
    if |m| < NUM_BASE_GROUPS {
      assert Group(m + [None], |m| + 1) == None;
    }
  }

  /** Groups beyond n do not influence the base after groups 1..n. */
  lemma {:induction false} BaseThroughPrefix<U>(resolve: (U, string) -> Option<U>, base: U, m: Match, extra: Match, n: nat)
    requires n <= |m|
    ensures BaseThrough(resolve, base, m + extra, n) == BaseThrough(resolve, base, m, n)
  {
    if n > 0 {
      BaseThroughPrefix(resolve, base, m, extra, n - 1);
      assert Group(m + extra, n) == Group(m, n);
    }
  }

  // ---------------------------------------------------------------------
  // Properties of the scan
  // ---------------------------------------------------------------------

  /**
   * Scanning a + b is scanning a, then scanning b from the base a left: the
   * base state carries across matches.
   */
  lemma {:induction false} ScanAppend<U>(resolve: (U, string) -> Option<U>, base: U, a: seq<Match>, b: seq<Match>)
    ensures BaseAfter(resolve, base, a + b) == BaseAfter(resolve, BaseAfter(resolve, base, a), b)
    ensures Emitted(resolve, base, a + b) == Emitted(resolve, base, a) + Emitted(resolve, BaseAfter(resolve, base, a), b)
    decreases |b|
  {
    if b == [] {
      assert a + b == a;
    } else {
      var b0 := b[..|b| - 1];
      assert (a + b)[..|a + b| - 1] == a + b0;
      assert (a + b)[|a + b| - 1] == b[|b| - 1];
      ScanAppend(resolve, base, a, b0);
    }
  }

  /**
   * A later match never alters a pair already emitted: the pairs of the first
   * k matches are a prefix of the pairs of all of them, whatever follows
   * (a later `<base>` included).
   */
  lemma EarlierPairsUnaltered<U>(resolve: (U, string) -> Option<U>, base: U, ms: seq<Match>, k: nat)
    requires k <= |ms|
    ensures |Emitted(resolve, base, ms[..k])| <= |Emitted(resolve, base, ms)|
    ensures Emitted(resolve, base, ms)[..|Emitted(resolve, base, ms[..k])|] == Emitted(resolve, base, ms[..k])
  {
    assert ms == ms[..k] + ms[k..];
    ScanAppend(resolve, base, ms[..k], ms[k..]);
  }

  /**
   * The pairs of match k sit between those of the earlier and the later
   * matches, and carry the base produced by the base groups of matches 0..k.
   */
  lemma PairsOfMatch<U>(resolve: (U, string) -> Option<U>, base: U, ms: seq<Match>, k: nat)
    requires k < |ms|
    ensures Emitted(resolve, base, ms) ==
              Emitted(resolve, base, ms[..k])
              + MatchPairs(ms[k], BaseAfter(resolve, base, ms[..k + 1]))
              + Emitted(resolve, BaseAfter(resolve, base, ms[..k + 1]), ms[k + 1..])
  {
    var upTo, rest := ms[..k + 1], ms[k + 1..];
    assert ms == upTo + rest;
    ScanAppend(resolve, base, upTo, rest);
    LastMatchPairs(resolve, base, ms, k);
  }

  /** The pairs of the first k + 1 matches: those of the first k, then match k's own. */
  lemma LastMatchPairs<U>(resolve: (U, string) -> Option<U>, base: U, ms: seq<Match>, k: nat)
    requires k < |ms|
    ensures Emitted(resolve, base, ms[..k + 1]) ==
              Emitted(resolve, base, ms[..k]) + MatchPairs(ms[k], BaseAfter(resolve, base, ms[..k + 1]))
  {
    var upTo := ms[..k + 1];
    assert upTo[..|upTo| - 1] == ms[..k];
    assert upTo[|upTo| - 1] == ms[k];
  }

  /** The scan hands out exactly as many pairs as the matches have non-null groups above NUM_BASE_GROUPS. */
  lemma {:induction false} EmittedCount<U>(resolve: (U, string) -> Option<U>, base: U, ms: seq<Match>)
    ensures |Emitted(resolve, base, ms)| == ResourceGroupCount(ms)
    decreases |ms|
  {
    if ms != [] {
      EmittedCount(resolve, base, ms[..|ms| - 1]);
      PairsFromCount(ms[|ms| - 1], BaseAfter(resolve, base, ms), NUM_BASE_GROUPS + 1);
    }
  }

  /**
   * Malformed base hrefs never move the base: when every base-href group of
   * every match fails to resolve, the scan pairs each resource with the seed.
   */
  lemma {:induction false} UnresolvableBasesKeepSeed<U>(resolve: (U, string) -> Option<U>, base: U, ms: seq<Match>)
    requires forall k, h :: 0 <= k < |ms| && 1 <= h <= BaseGroupCount(ms[k]) && Group(ms[k], h).Some? ==>
               resolve(base, Group(ms[k], h).value).None?
    ensures BaseAfter(resolve, base, ms) == base
    decreases |ms|
  {
    if ms != [] {
      UnresolvableBasesKeepSeed(resolve, base, ms[..|ms| - 1]);
      FailedResolutionsKeepBase(resolve, base, ms[|ms| - 1], BaseGroupCount(ms[|ms| - 1]));
    }
  }

  /**
   * A group count that includes group 0 is harmless for the whole scan: when
   * every match is read with one more, null, group at its end, the scan
   * leaves the same base and hands out the same pairs.
   */
  lemma {:induction false} TrailingNullGroupsIgnored<U>(resolve: (U, string) -> Option<U>, base: U,
                                                        ms: seq<Match>, padded: seq<Match>)
    requires |padded| == |ms|
    requires forall k :: 0 <= k < |ms| ==> padded[k] == ms[k] + [None]
    ensures BaseAfter(resolve, base, padded) == BaseAfter(resolve, base, ms)
    ensures Emitted(resolve, base, padded) == Emitted(resolve, base, ms)
    decreases |ms|
  {
    if ms != [] {
      var n := |ms| - 1;
      TrailingNullGroupsIgnored(resolve, base, ms[..n], padded[..n]);
      assert padded[n] == ms[n] + [None];
      TrailingNullGroupIgnored(resolve, BaseAfter(resolve, base, ms[..n]), ms[n], 1);
      TrailingNullGroupIgnored(resolve, BaseAfter(resolve, base, ms), ms[n], NUM_BASE_GROUPS + 1);
    }
  }

  // ---------------------------------------------------------------------
  // The pre-match reading of the base
  // ---------------------------------------------------------------------

  /**
   * The other conceivable order: match k's resource groups carry the base
   * left by matches 0..k-1, before match k's own base groups are applied.
   */
  function EmittedPreMatch<U>(resolve: (U, string) -> Option<U>, base: U, ms: seq<Match>): seq<(string, U)>
    decreases |ms|
  {
    if ms == [] then []
    else EmittedPreMatch(resolve, base, ms[..|ms| - 1])
         + MatchPairs(ms[|ms| - 1], BaseAfter(resolve, base, ms[..|ms| - 1]))
  }

  /** A match whose base groups are all null, or whose resource groups are all null. */
  predicate BaseOrResources(m: Match) {
    || (forall h :: 1 <= h <= BaseGroupCount(m) ==> Group(m, h).None?)
    || (forall h :: NUM_BASE_GROUPS < h <= |m| ==> Group(m, h).None?)
  }

  /**
   * Every non-null group of a match of one alternative is one of that
   * alternative's groups (several of them may be set, as the repeated INPUT
   * and LINK shapes allow); such a match never sets both a base group and a
   * resource group.
   */
  lemma OneShapeBaseOrResources(m: Match, a: Alternative)
    requires forall h :: 1 <= h <= |m| && Group(m, h).Some? ==>
               a != Comment && exists q :: h == CaptureGroup(a, q)
    ensures BaseOrResources(m)
  {
    if a == BaseHref {
      assert forall h :: NUM_BASE_GROUPS < h <= |m| ==> Group(m, h).None?;
    } else {
      assert forall h :: 1 <= h <= BaseGroupCount(m) ==> Group(m, h).None?;
    }
  }

  /**
   * When no match sets both a base group and a resource group, the order of the
   * two loops inside a match is unobservable: the code's reading (`Emitted`) and
   * the pre-match reading hand out the same pairs.
   */
  lemma {:induction false} ReadingsAgree<U>(resolve: (U, string) -> Option<U>, base: U, ms: seq<Match>)
    requires forall k :: 0 <= k < |ms| ==> BaseOrResources(ms[k])
    ensures EmittedPreMatch(resolve, base, ms) == Emitted(resolve, base, ms)
    decreases |ms|
  {
    if ms != [] {
      var n := |ms| - 1;
      var m, before := ms[n], BaseAfter(resolve, base, ms[..n]);
      ReadingsAgree(resolve, base, ms[..n]);
      if forall h :: 1 <= h <= BaseGroupCount(m) ==> Group(m, h).None? {
        NullGroupsKeepBase(resolve, before, m, 0, BaseGroupCount(m));
      } else {
        assert NonNullGroupSet(m, NUM_BASE_GROUPS + 1) == {};
        PairsFromCount(m, before, NUM_BASE_GROUPS + 1);
        PairsFromCount(m, BaseAfter(resolve, base, ms), NUM_BASE_GROUPS + 1);
      }
    }
  }

  // ---------------------------------------------------------------------
  // Matches of single tags
  // ---------------------------------------------------------------------

  /** Groups g..|m| of a match with at most one non-null group p hand out that one value, if p >= g. */
  lemma {:induction false} PairsFromSingle<U>(m: Match, base: U, g: nat, p: nat, v: string)
    requires g >= 1 && 1 <= p <= |m| && Group(m, p) == Some(v)
    requires forall h :: 1 <= h <= |m| && h != p ==> Group(m, h).None?
    ensures PairsFrom(m, base, g) == if g <= p then [(v, base)] else []
    decreases |m| + 1 - g
  {
    if g <= |m| {
      PairsFromSingle(m, base, g + 1, p, v);
    }
  }

  /** One tag's match: a resource tag hands out its value once, a `<base>` tag or a comment hands out nothing. */
  lemma TagMatchPairs<U>(a: Alternative, q: Quoting, v: string, base: U)
    ensures MatchPairs(TagMatch(a, q, v), base) == if a == Comment || a == BaseHref then [] else [(v, base)]
  {
    var m := TagMatch(a, q, v);
    if a == Comment {
      assert NonNullGroupSet(m, NUM_BASE_GROUPS + 1) == {};
      PairsFromCount(m, base, NUM_BASE_GROUPS + 1);
    } else {
      PairsFromSingle(m, base, NUM_BASE_GROUPS + 1, CaptureGroup(a, q), v);
    }
  }

  /** One tag's match: a `<base>` tag moves the base to its resolved value, any other tag leaves it. */
  lemma TagMatchBase<U>(resolve: (U, string) -> Option<U>, base: U, a: Alternative, q: Quoting, v: string)
    ensures MatchBase(resolve, base, TagMatch(a, q, v)) == if a == BaseHref then resolve(base, v).GetOr(base) else base
  {
    var m := TagMatch(a, q, v);
    if a == BaseHref {
      SingleBaseGroup(resolve, base, m, CaptureGroup(a, q), v);
    } else {
      NullGroupsKeepBase(resolve, base, m, 0, BaseGroupCount(m));
    }
  }

  /** Scanning two matches, spelled out. */
  lemma TwoMatches<U>(resolve: (U, string) -> Option<U>, seed: U, m0: Match, m1: Match)
    ensures Emitted(resolve, seed, [m0, m1]) ==
              MatchPairs(m0, MatchBase(resolve, seed, m0))
              + MatchPairs(m1, MatchBase(resolve, MatchBase(resolve, seed, m0), m1))
  {
    var ms := [m0, m1];
    assert ms[..1] == [m0];
    assert [m0][..0] == [];
    assert BaseAfter(resolve, seed, [m0]) == MatchBase(resolve, seed, m0);
    assert Emitted(resolve, seed, [m0]) == MatchPairs(m0, MatchBase(resolve, seed, m0));
  }

  /** `<base href="u"><img src="r">`: the image is paired with u resolved against the seed, whatever the seed. */
  lemma BaseBeforeResource<U>(resolve: (U, string) -> Option<U>, seed: U, q: Quoting, u: string,
                              a: Alternative, q': Quoting, r: string, resolved: U)
    requires a != Comment && a != BaseHref
    requires resolve(seed, u) == Some(resolved)
    ensures Emitted(resolve, seed, [TagMatch(BaseHref, q, u), TagMatch(a, q', r)]) == [(r, resolved)]
  {
    TwoMatches(resolve, seed, TagMatch(BaseHref, q, u), TagMatch(a, q', r));
    TagMatchBase(resolve, seed, BaseHref, q, u);
    TagMatchBase(resolve, resolved, a, q', r);
    TagMatchPairs(BaseHref, q, u, resolved);
    TagMatchPairs(a, q', r, resolved);
  }

  /** `<img src="r"><base href="u">`: the later `<base>` does not apply to the image, which keeps the seed. */
  lemma ResourceBeforeBase<U>(resolve: (U, string) -> Option<U>, seed: U, a: Alternative, q: Quoting, r: string,
                              q': Quoting, u: string)
    requires a != Comment && a != BaseHref
    ensures Emitted(resolve, seed, [TagMatch(a, q, r), TagMatch(BaseHref, q', u)]) == [(r, seed)]
  {
    TwoMatches(resolve, seed, TagMatch(a, q, r), TagMatch(BaseHref, q', u));
    TagMatchBase(resolve, seed, a, q, r);
    TagMatchPairs(a, q, r, seed);
    TagMatchBase(resolve, seed, BaseHref, q', u);
    TagMatchPairs(BaseHref, q', u, resolve(seed, u).GetOr(seed));
  }

  /** `<base href="u">` with u malformed: the scan goes on and the next resource keeps the seed. */
  lemma MalformedBaseIgnored<U>(resolve: (U, string) -> Option<U>, seed: U, q: Quoting, u: string,
                                a: Alternative, q': Quoting, r: string)
    requires a != Comment && a != BaseHref
    requires resolve(seed, u).None?
    ensures Emitted(resolve, seed, [TagMatch(BaseHref, q, u), TagMatch(a, q', r)]) == [(r, seed)]
  {
    TwoMatches(resolve, seed, TagMatch(BaseHref, q, u), TagMatch(a, q', r));
    TagMatchBase(resolve, seed, BaseHref, q, u);
    TagMatchBase(resolve, seed, a, q', r);
    TagMatchPairs(BaseHref, q, u, seed);
    TagMatchPairs(a, q', r, seed);
  }
}
