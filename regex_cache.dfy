/** The memo table of compiled regular expressions used by the Markdown
    renderer (`RegexCache` in the renderer package). Compiling is foreign
    code; a freshly allocated `Regexp` stands for the value
    `regexp.MustCompile` returns. */
module RegexCache {

  /** A compiled regular expression, known here only by its pattern. */
  class Regexp {
    const pattern: string

    constructor (pattern: string)
      ensures this.pattern == pattern
    {
      this.pattern := pattern;
    }
  }

  class Cache {
    var entries: map<string, Regexp>

    /** Every stored expression was compiled from the pattern it is stored under. */
    predicate Valid()
      reads this
    {
      forall p :: p in entries ==> entries[p].pattern == p
    }

    /** NewRegexCache: an empty table. */
    constructor ()
      ensures entries == map[] && Valid()
    {
      entries := map[];
    }

    /** Get: a cached pattern gives the stored expression and leaves the
        table as it was; an uncached one is compiled, stored under its
        pattern, and returned, with every other entry kept. */
    method Get(pattern: string) returns (r: Regexp)
      requires Valid()
      modifies this
      ensures Valid() && r.pattern == pattern
      ensures pattern in old(entries) ==> r == old(entries)[pattern] && entries == old(entries)
      ensures pattern !in old(entries) ==> fresh(r) && entries == old(entries)[pattern := r]
      ensures entries.Keys == old(entries).Keys + {pattern}
    {
      if pattern in entries {
        return entries[pattern];
      }
      r := new Regexp(pattern);
      entries := entries[pattern := r];
    }

    /** Two lookups of one pattern give one object: the one the first lookup
        returned, whether it was compiled then or earlier. */
    method GetAgain(pattern: string) returns (first: Regexp, second: Regexp)
      requires Valid()
      modifies this
      ensures Valid() && first == second && first.pattern == pattern
      ensures pattern in old(entries) ==> first == old(entries)[pattern]
      ensures entries == old(entries)[pattern := first]
    {
      first := Get(pattern);
      second := Get(pattern);
    }

    /** Clear: the table becomes empty. */
    method Clear()
      modifies this
      ensures entries == map[] && Valid()
    {
      entries := map[];
    }
  }
}
