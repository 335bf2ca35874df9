/**
 * The professor directory used by the search: a cache of
 * (professor, normalised name) pairs with a five-minute lifetime, a gate
 * the synchronisation closes while it rebuilds the professor tables, an
 * invalidation, the name normaliser, and what the search does with the
 * names the fuzzy matcher returns.
 */
module ProfessorSearch {
  import opened Wrappers
  import opened Seqs
  import opened Text
  import opened Models

  /** Seconds a loaded cache stays fresh. */
  const CacheTtl := 300

  // ---------------------------------------------------------------------
  // `_normalize_name`
  // ---------------------------------------------------------------------

  /** A normalised name: lower case, no dots, no 'ё', single inner spaces only. */
  ghost predicate Normal(s: string)
  {
    Clean(s) && '.' !in s && 'ё' !in s && forall i :: 0 <= i < |s| ==> !IsUpper(s[i])
  }

  /** Lower-cases, turns dots into spaces and 'ё' into 'е', then collapses and strips whitespace. */
  function NormalizeName(name: string): (r: string)
  {
    if name == "" then ""
    else
      var s := ReplaceChar(ReplaceChar(Lower(name), '.', ' '), 'ё', 'е');
      Strip(CollapseSpaces(s))
  }

  /** Every normalised name has the normal shape; the empty name stays empty. */
  lemma NormalizeNameNormal(name: string)
    ensures Normal(NormalizeName(name))
    ensures name == "" ==> NormalizeName(name) == ""
  {
    if name != "" {
      var s := ReplaceChar(ReplaceChar(Lower(name), '.', ' '), 'ё', 'е');
      assert '.' !in s && 'ё' !in s by {
        forall i | 0 <= i < |s| ensures s[i] != '.' && s[i] != 'ё' { }
      }
      assert forall i :: 0 <= i < |s| ==> !IsUpper(s[i]);
      CollapseSpacesClean(s);
      CollapseSpacesChars(s);
      var c := CollapseSpaces(s);
      assert NormalizeName(name) == c;
      forall i | 0 <= i < |c| ensures c[i] != '.' && c[i] != 'ё' && !IsUpper(c[i]) {
        assert c[i] in c;
        if c[i] != ' ' {
          assert c[i] in s;
        }
      }
    }
  }

  lemma LowerNormal(s: string)
    requires forall i :: 0 <= i < |s| ==> !IsUpper(s[i])
    ensures Lower(s) == s
  {
  }

  lemma ReplaceAbsent(s: string, from: char, to: char)
    requires from !in s
    ensures ReplaceChar(s, from, to) == s
  {
  }

  /** Normalising a normalised name changes nothing. */
  lemma NormalizeNameIdempotent(name: string)
    ensures NormalizeName(NormalizeName(name)) == NormalizeName(name)
  {
    var n := NormalizeName(name);
    NormalizeNameNormal(name);
    if n != "" {
      LowerNormal(n);
      ReplaceAbsent(n, '.', ' ');
      ReplaceAbsent(n, 'ё', 'е');
      CleanWords(n);
    }
  }

  // ---------------------------------------------------------------------
  // The cache
  // ---------------------------------------------------------------------

  type Entry = (Professor, string)

  /** The comprehension that builds the cache from the professor table. */
  function Normalized(ps: seq<Professor>): seq<Entry>
  {
    seq(|ps|, i requires 0 <= i < |ps| => (ps[i], NormalizeName(ps[i].name)))
  }

  /** Every cached name is the normalised name of the professor beside it. */
  ghost predicate WellFormed(es: seq<Entry>)
  {
    forall i :: 0 <= i < |es| ==> es[i].1 == NormalizeName(es[i].0.name)
  }

  /** A loaded cache holds every stored professor, in table order, beside its normalised name. */
  lemma NormalizedWellFormed(ps: seq<Professor>)
    ensures |Normalized(ps)| == |ps| && WellFormed(Normalized(ps))
    ensures forall i :: 0 <= i < |ps| ==> Normalized(ps)[i].0 == ps[i] && Normal(Normalized(ps)[i].1)
  {
    forall i | 0 <= i < |ps| ensures Normal(Normalized(ps)[i].1) {
      NormalizeNameNormal(ps[i].name);
    }
  }

  /** The module globals `_professors_cache` and `_cache_timestamp`. */
  datatype CacheState = CacheState(entries: seq<Entry>, timestamp: int)

  /** The condition checked before and again under the lock. */
  predicate NeedsReload(st: CacheState, now: int)
  {
    st.entries == [] || now - st.timestamp > CacheTtl
  }

  /** The state after one `get_cached_professors`, as a function of the state before. */
  function Read(st: CacheState, enabled: bool, now: int, stored: seq<Professor>): CacheState
  {
    if enabled && NeedsReload(st, now) then CacheState(Normalized(stored), now) else st
  }

  /** A read keeps the cache well formed. */
  lemma ReadWellFormed(st: CacheState, enabled: bool, now: int, stored: seq<Professor>)
    requires WellFormed(st.entries)
    ensures WellFormed(Read(st, enabled, now, stored).entries)
  {
    NormalizedWellFormed(stored);
  }

  /** A second read at the same moment against the same table changes nothing more. */
  lemma ReadTwice(st: CacheState, enabled: bool, now: int, stored: seq<Professor>)
    ensures Read(Read(st, enabled, now, stored), enabled, now, stored) == Read(st, enabled, now, stored)
  {
  }

  /** After an invalidation the next enabled read loads the table, whatever the time. */
  lemma InvalidateForcesReload(now: int, stored: seq<Professor>)
    ensures Read(CacheState([], 0), true, now, stored) == CacheState(Normalized(stored), now)
  {
  }

  /** A loaded, non-empty cache is served unchanged until its lifetime has passed. */
  lemma FreshCacheServed(loadedAt: int, now: int, stored: seq<Professor>, later: seq<Professor>)
    requires stored != [] && loadedAt <= now <= loadedAt + CacheTtl
    ensures Read(CacheState(Normalized(stored), loadedAt), true, now, later) == CacheState(Normalized(stored), loadedAt)
  {
  }

  class ProfessorDirectory {
    var cache: seq<Entry>
    var timestamp: int

    ghost predicate Valid()
      reads this
    {
      WellFormed(cache)
    }

    constructor ()
      ensures Valid() && cache == [] && timestamp == 0
    {
      cache := [];
      timestamp := 0;
    }

    /**
     * `get_cached_professors`: `enabled` is the synchronisation's gate,
     * `now` the event-loop clock and `stored` the professor table.
     */
    method GetCachedProfessors(enabled: bool, now: int, stored: seq<Professor>) returns (r: seq<Entry>)
      requires Valid()
      modifies this
      ensures Valid()
      ensures CacheState(cache, timestamp) == Read(CacheState(old(cache), old(timestamp)), enabled, now, stored)
      ensures !enabled ==> cache == old(cache) && timestamp == old(timestamp)
      ensures enabled && NeedsReload(CacheState(old(cache), old(timestamp)), now) ==> cache == Normalized(stored) && timestamp == now
      ensures r == cache
    {
      if !enabled {
        return cache;
      }
      var currentTime := now;
      if cache == [] || currentTime - timestamp > CacheTtl {
        if cache == [] || currentTime - timestamp > CacheTtl {
          NormalizedWellFormed(stored);
          cache := Normalized(stored);
          timestamp := currentTime;
        }
      }
      r := cache;
    }

    /** `invalidate_professors_cache`. */
    method InvalidateProfessorsCache()
      modifies this
      ensures Valid() && cache == [] && timestamp == 0
    {
      cache := [];
      timestamp := 0;
    }
  }

  // ---------------------------------------------------------------------
  // Post-processing of fuzzy matches
  // ---------------------------------------------------------------------

  /** `next((prof for prof, norm in cache if norm == name), None)`. */
  function FirstNamed(cache: seq<Entry>, name: string): (p: Option<Professor>)
    ensures p.Some? <==> exists i :: 0 <= i < |cache| && cache[i].1 == name
    ensures p.Some? ==> exists i :: 0 <= i < |cache| && cache[i] == (p.value, name)
  {
    if cache == [] then None
    else if cache[0].1 == name then Some(cache[0].0)
    else
      var p := FirstNamed(cache[1..], name);
      assert forall i :: 1 <= i < |cache| ==> cache[i] == cache[1..][i - 1];
      p
  }

  /** The loop over the matcher's names: an equal name sets the exact match, any other is appended. */
  function MatchResults(cache: seq<Entry>, query: string, matches: seq<string>): (Option<Professor>, seq<Professor>)
    decreases |matches|
  {
    if matches == [] then (None, [])
    else
      var (exact, similar) := MatchResults(cache, query, matches[..|matches| - 1]);
      var name := matches[|matches| - 1];
      var professor := FirstNamed(cache, name);
      if professor.None? then (exact, similar)
      else if name == query then (professor, similar)
      else (exact, similar + [professor.value])
  }

  /** `search_professors_fuzzy`, given the names the matcher returned for the normalised query. */
  function SearchProfessorsFuzzy(cache: seq<Entry>, query: string, matches: seq<string>): (r: (Option<Professor>, seq<Professor>))
    ensures cache == [] ==> r == (None, [])
  {
    if cache == [] then (None, []) else MatchResults(cache, NormalizeName(query), matches)
  }

  /** The exact match is a cached professor named like the query, present exactly when the matcher returned the query. */
  lemma {:induction false} MatchExact(cache: seq<Entry>, query: string, matches: seq<string>)
    requires WellFormed(cache)
    ensures MatchResults(cache, query, matches).0.Some? ==>
      NormalizeName(MatchResults(cache, query, matches).0.value.name) == query
      && exists i :: 0 <= i < |cache| && cache[i].0 == MatchResults(cache, query, matches).0.value
    ensures MatchResults(cache, query, matches).0.Some? <==>
      query in matches && exists i :: 0 <= i < |cache| && cache[i].1 == query
    decreases |matches|
  {
    if matches != [] {
      var init := matches[..|matches| - 1];
      MatchExact(cache, query, init);
      var name := matches[|matches| - 1];
      SplitLast(matches);
      var professor := FirstNamed(cache, name);
      if professor.Some? && name == query {
        var i :| 0 <= i < |cache| && cache[i] == (professor.value, name);
      }
    }
  }

  /** Every similar professor has a normalised name other than the query, and there is at most one per name. */
  lemma {:induction false} MatchSimilar(cache: seq<Entry>, query: string, matches: seq<string>)
    requires WellFormed(cache)
    ensures forall p :: p in MatchResults(cache, query, matches).1 ==> NormalizeName(p.name) != query
    ensures |MatchResults(cache, query, matches).1| <= |matches|
    decreases |matches|
  {
    if matches != [] {
      var init := matches[..|matches| - 1];
      MatchSimilar(cache, query, init);
      var name := matches[|matches| - 1];
      var professor := FirstNamed(cache, name);
      if professor.Some? && name != query {
        var i :| 0 <= i < |cache| && cache[i] == (professor.value, name);
      }
    }
  }

  /** The exact match is never also listed as similar. */
  lemma MatchDisjoint(cache: seq<Entry>, query: string, matches: seq<string>)
    requires WellFormed(cache)
    ensures MatchResults(cache, query, matches).0.Some? ==>
      MatchResults(cache, query, matches).0.value !in MatchResults(cache, query, matches).1
  {
    MatchExact(cache, query, matches);
    MatchSimilar(cache, query, matches);
  }

  /** The search over the normalised query keeps those guarantees. */
  lemma SearchSound(cache: seq<Entry>, query: string, matches: seq<string>)
    requires WellFormed(cache)
    ensures var (exact, similar) := SearchProfessorsFuzzy(cache, query, matches);
      (exact.Some? ==> NormalizeName(exact.value.name) == NormalizeName(query))
      && (exact.Some? ==> exact.value !in similar)
      && (forall p :: p in similar ==> NormalizeName(p.name) != NormalizeName(query))
  {
    if cache != [] {
      MatchExact(cache, NormalizeName(query), matches);
      MatchSimilar(cache, NormalizeName(query), matches);
    }
  }
}
