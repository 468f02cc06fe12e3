/** The module-global state of allura2wpxml.py (lines 39-41): the id
    dictionary `_allura_id_to_wpxml_id`, the counter `_id` and the slug list
    `_slugs`, with the two functions that update them in place. */
module RunState {
  import opened Ids
  import opened Slugs

  /** One call of make_slug on `title`, taking the slug list from `before`
      to `after`: `slug` is the candidate of round `num` (the normalised
      base, then base-2, base-3, ...), every earlier candidate was already
      taken, `slug` was not, and it is appended to the list. */
  predicate MadeSlug(before: seq<string>, after: seq<string>, title: string, slug: string, num: nat)
  {
    && num >= 1 && slug == Candidate(Normalize(title), num)
    && TakenBelow(Normalize(title), before, num)
    && slug !in before
    && after == before + [slug]
  }

  class State {
    var table: map<Key, int>
    var nextId: int
    var slugs: seq<string>

    /** The values the globals have when the script is loaded. */
    constructor ()
      ensures table == map[] && nextId == 0 && slugs == []
    {
      table := map[];
      nextId := 0;
      slugs := [];
    }

    function Ids(): Alloc
      reads this
    {
      Alloc(table, nextId)
    }

    /** `_id = start_id` at the start of Allura2WPXML.__init__ (line 241):
        neither the dictionary nor the slug list is cleared. */
    method ResetCounter(start: int)
      modifies this`nextId
      ensures nextId == start && table == old(table) && slugs == old(slugs)
    {
      nextId := start;
    }

    /** get_id (lines 51-57). */
    method GetId(key: Key) returns (id: int)
      modifies this`table, this`nextId
      ensures (id, Ids()) == Allocate(old(Ids()), key)
      ensures slugs == old(slugs)
    {
      // dict.get gives None for a missing key; None and 0 are both falsy
      id := if key in table then table[key] else 0;
      if id == 0 {
        id := nextId;
        table := table[key := nextId];
        nextId := nextId + 1;
      }
    }

    /** make_slug (lines 69-83): the first free candidate for the normalised
        title is registered and returned; `num` is the loop's final counter.
        The collision notice printed to stderr is not modelled. */
    method MakeSlug(title: string) returns (slug: string, ghost num: nat)
      modifies this`slugs
      ensures MadeSlug(old(slugs), slugs, title, slug, num)
    {
      var base, taken := Normalize(title), slugs;
      slug, num := FreeSlug(base, taken);
      TakenBelowAll(base, taken, num);
      slugs := taken + [slug];
    }
  }
}
