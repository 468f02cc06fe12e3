/** Time values and the shape of the forum export read by allura2wpxml.py.
    Parsing is not modelled: timestamps arrive already split into fields
    (a string `strptime` rejects aborts the script, so it has no model). */
module Times {

  datatype Option<T> = None | Some(value: T)

  /** The first six fields of a `time.struct_time`. Weekday and day of
      year follow from them; the DST flag does not (`strptime` leaves it
      -1, `localtime` sets 0 or 1) and is not modelled, so two values
      equal on these six fields count as equal here. */
  datatype Timestamp = Timestamp(year: int, month: int, day: int, hour: int, minute: int, second: int)

  /** The `[:3]` slice of a struct_time. */
  datatype Date = Date(year: int, month: int, day: int)

  /** `a > b` on struct_time values: Python compares tuples field by field. */
  predicate Later(a: Timestamp, b: Timestamp)
  {
    if a.year != b.year then a.year > b.year
    else if a.month != b.month then a.month > b.month
    else if a.day != b.day then a.day > b.day
    else if a.hour != b.hour then a.hour > b.hour
    else if a.minute != b.minute then a.minute > b.minute
    else a.second > b.second
  }

  /** `Later` is a strict total order, which the running maxima rely on. */
  lemma LaterOrder(a: Timestamp, b: Timestamp, c: Timestamp)
    ensures !Later(a, a)
    ensures Later(a, b) && Later(b, c) ==> Later(a, c)
    ensures a != b ==> Later(a, b) || Later(b, a)
    ensures !(Later(a, b) && Later(b, a))
  {
  }

  function DateOf(t: Timestamp): Date
  {
    Date(t.year, t.month, t.day)
  }

  predicate DateBefore(a: Date, b: Date)
  {
    if a.year != b.year then a.year < b.year
    else if a.month != b.month then a.month < b.month
    else a.day < b.day
  }

  /** The inclusive `post_date_range`: [from, to] by calendar date. */
  datatype DateRange = DateRange(from: Date, to: Date)

  /** The negation of the skip test at lines 268-269. */
  predicate InRange(t: Timestamp, range: DateRange)
  {
    !DateBefore(DateOf(t), range.from) && !DateBefore(range.to, DateOf(t))
  }
}

/** The forum export as the script reads it out of the JSON document. */
module Source {
  import opened Times

  /** An attachment: its URL, and the title the script derives from it
      (`unquote(basename(url))`, taken as given here). */
  datatype Attachment = Attachment(url: string, title: string)

  /** A stored post. `lastEdited` is "" where the export has null; the
      timestamp is None where the export has null or an empty string. */
  datatype Post = Post(slug: string, author: string, timestamp: Option<Timestamp>, text: string,
                       lastEdited: string, attachments: seq<Attachment>)

  /** The time an item built from `p` carries: its stored timestamp, or
      the clock reading `now` when it has none (`if date_time:`, lines
      112-117). */
  function TimeOf(p: Post, now: Timestamp): Timestamp
  {
    if p.timestamp.Some? then p.timestamp.value else now
  }

  datatype Thread = Thread(id: string, subject: string, posts: seq<Post>)

  datatype Forum = Forum(id: string, name: string, description: string, threads: seq<Thread>)

  /** The authors of a sequence of posts, as a set. */
  function AuthorSet(posts: seq<Post>): set<string>
  {
    set p | p in posts :: p.author
  }

  lemma SliceSnoc(posts: seq<Post>, i: nat, j: nat)
    requires i <= j < |posts|
    ensures posts[i..j + 1] == posts[i..j] + [posts[j]]
  {
  }

  lemma AuthorSetSnoc(posts: seq<Post>, p: Post)
    ensures AuthorSet(posts + [p]) == AuthorSet(posts) + {p.author}
  {
    assert forall q :: q in posts + [p] <==> q in posts || q == p;
  }

  lemma AuthorSetTail(posts: seq<Post>, n: nat)
    requires 1 <= n == |posts|
    ensures AuthorSet(posts[1..n]) == AuthorSet(posts[1..])
  {
    assert posts[1..n] == posts[1..];
  }

  /** Two permutations with the same first post permute the rest. */
  lemma TailPermutation(a: seq<Post>, b: seq<Post>)
    requires a != [] && multiset(a) == multiset(b) && a[0] == b[0]
    ensures multiset(a[1..]) == multiset(b[1..])
  {
    assert a == [a[0]] + a[1..];
    assert b == [b[0]] + b[1..];
    assert multiset(a[1..]) == multiset(a) - multiset{a[0]};
    assert multiset(b[1..]) == multiset(b) - multiset{b[0]};
  }

  /** Reordering posts does not change their authors. */
  lemma AuthorSetPermutation(a: seq<Post>, b: seq<Post>)
    requires multiset(a) == multiset(b)
    ensures AuthorSet(a) == AuthorSet(b)
  {
    forall q
      ensures q in a <==> q in b
    {
      assert q in a <==> q in multiset(a);
      assert q in b <==> q in multiset(b);
    }
  }
}
