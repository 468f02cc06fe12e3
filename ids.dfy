/** The identifier allocator `get_id` (allura2wpxml.py:51-57) as a function
    on its state: the dictionary `_allura_id_to_wpxml_id` and the counter `_id`.
    RunState.State.GetId is the in-place version and is proved against
    Allocate. */
module Ids {

  /** What `get_id` is asked for: a plain string (forum id, thread id,
      attachment URL) or the tuple (thread id, post slug) of a reply. */
  datatype Key = Name(name: string) | ReplyKey(thread: string, slug: string)

  datatype Alloc = Alloc(table: map<Key, int>, next: int)

  /** `if not id`: a missing key and a key stored with id 0 are both treated
      as having no id yet. */
  predicate Assigned(a: Alloc, k: Key)
  {
    k in a.table && a.table[k] != 0
  }

  /** One call of `get_id`: the id it returns and the allocator state after it. */
  function Allocate(a: Alloc, k: Key): (int, Alloc)
  {
    if Assigned(a, k) then (a.table[k], a)
    else (a.next, Alloc(a.table[k := a.next], a.next + 1))
  }

  /** The allocator of a run whose counter was started at `start` >= 1 with
      an empty table: every stored id is in [start, next), no two keys share
      an id, and every id in that range has been handed out. */
  predicate Dense(a: Alloc, start: int)
  {
    && 1 <= start <= a.next
    && (forall k :: k in a.table ==> start <= a.table[k] < a.next)
    && (forall k1, k2 :: k1 in a.table && k2 in a.table && a.table[k1] == a.table[k2] ==> k1 == k2)
    && |a.table.Keys| == a.next - start
  }

  /** get_id keeps the allocator dense and records the id it returns. */
  lemma AllocateKeepsDense(a: Alloc, start: int, k: Key)
    requires Dense(a, start)
    ensures var (id, b) := Allocate(a, k);
      && Dense(b, start)
      && k in b.table && b.table[k] == id
      && start <= id < b.next
      && (forall k' :: k' in a.table ==> k' in b.table && b.table[k'] == a.table[k'])
  {
    if !Assigned(a, k) {
      var b := Allocate(a, k).1;
      assert k !in a.table;
      assert b.table.Keys == a.table.Keys + {k};
      assert |b.table.Keys| == |a.table.Keys| + 1;
    }
  }

  /** A key seen for the first time gets the current counter value, which no
      other key holds, and the counter goes up by exactly one. */
  lemma AllocateFirstUse(a: Alloc, start: int, k: Key)
    requires Dense(a, start) && k !in a.table
    ensures var (id, b) := Allocate(a, k);
      && id == a.next && b.next == a.next + 1
      && (forall k' :: k' in a.table ==> a.table[k'] != id)
  {
  }

  /** A key seen before gets its stored id back and the state does not change. */
  lemma AllocateRepeat(a: Alloc, start: int, k: Key)
    requires Dense(a, start) && k in a.table
    ensures Allocate(a, k) == (a.table[k], a)
  {
  }

  /** Asking twice for the same key gives the same id the second time, at no cost. */
  lemma AllocateIdempotent(a: Alloc, start: int, k: Key)
    requires Dense(a, start)
    ensures var (id, b) := Allocate(a, k); Allocate(b, k) == (id, b)
  {
    AllocateKeepsDense(a, start, k);
  }

  /** Distinct keys get distinct ids, in whichever order they are first asked for. */
  lemma AllocateDistinct(a: Alloc, start: int, k1: Key, k2: Key)
    requires Dense(a, start) && k1 != k2
    ensures var (id1, b) := Allocate(a, k1); var (id2, c) := Allocate(b, k2);
      id1 != id2
  {
    AllocateKeepsDense(a, start, k1);
    var (id1, b) := Allocate(a, k1);
    AllocateKeepsDense(b, start, k2);
  }

  /** The `if not id` quirk: with the counter started at 0, the first key
      stored gets id 0, and asking for it again allocates it a second id. */
  lemma ZeroIdReallocated(k: Key)
    ensures var (id1, b) := Allocate(Alloc(map[], 0), k); var (id2, c) := Allocate(b, k);
      id1 == 0 && id2 == 1 && c.table[k] == 1
  {
  }
}
