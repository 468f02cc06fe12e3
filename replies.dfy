/** The reply orderer of Allura2WPXML.__init__ (allura2wpxml.py:298-308):
    the posts of one thread are placed one by one, a post whose slug names a
    parent already placed going directly after that parent's first
    occurrence, every other post going to the end. */
module Replies {
  import opened Source
  import opened Seqs

  /** `'/'.join(slug.split('/')[:-1])`: the text before the last '/', or ""
      when the slug has none. */
  function ParentSlug(slug: string): (r: string)
    ensures |r| <= |slug|
  {
    if slug == [] then ""
    else if slug[|slug| - 1] == '/' then slug[..|slug| - 1]
    else ParentSlug(slug[..|slug| - 1])
  }

  /** ParentSlug cuts the slug at its last '/'. */
  lemma {:induction false} ParentSlugSplit(slug: string)
    ensures var r := ParentSlug(slug);
      '/' in slug ==> |r| < |slug| && slug[..|r|] == r && slug[|r|] == '/' && '/' !in slug[|r| + 1..]
    ensures '/' !in slug ==> ParentSlug(slug) == ""
  {
    if slug != [] {
      var init, c := slug[..|slug| - 1], slug[|slug| - 1];
      assert slug == init + [c];
      if c != '/' {
        ParentSlugSplit(init);
        var r := ParentSlug(init);
        assert '/' in slug <==> '/' in init;
        if '/' in init {
          assert slug[|r| + 1..] == init[|r| + 1..] + [c];
        }
      }
    }
  }

  /** The slugs of the placed posts, position by position. */
  function SlugList(placed: seq<Post>): (r: seq<string>)
    ensures |r| == |placed| && forall i :: 0 <= i < |r| ==> r[i] == placed[i].slug
  {
    seq(|placed|, i requires 0 <= i < |placed| => placed[i].slug)
  }

  /** `list.index(x)`: the first position holding `x`. */
  function IndexOf<T(==)>(s: seq<T>, x: T): (i: nat)
    requires x in s
    ensures i < |s| && s[i] == x && forall j :: 0 <= j < i ==> s[j] != x
  {
    if s[0] == x then 0 else 1 + IndexOf(s[1..], x)
  }

  /** `list.insert(k, x)`. */
  function InsertAt<T>(s: seq<T>, k: nat, x: T): (r: seq<T>)
    requires k <= |s|
    ensures |r| == |s| + 1
  {
    s[..k] + [x] + s[k..]
  }

  /** What an insertion leaves where. */
  lemma InsertAtParts<T>(s: seq<T>, k: nat, x: T)
    requires k <= |s|
    ensures var r := InsertAt(s, k, x); r[k] == x && r[..k] == s[..k] && r[k + 1..] == s[k..]
    ensures multiset(InsertAt(s, k, x)) == multiset(s) + multiset{x}
    ensures k == |s| ==> InsertAt(s, k, x) == s + [x]
  {
    var r := InsertAt(s, k, x);
    assert r == s[..k] + ([x] + s[k..]);
    assert s == s[..k] + s[k..];
    if k == |s| {
      assert s[..k] == s;
    }
  }

  /** The test of line 301: the slug has a '/' and its parent slug is placed. */
  predicate GoesUnderParent(placed: seq<string>, slug: string)
  {
    '/' in slug && ParentSlug(slug) in placed
  }

  /** Where the loop puts a post, given the slugs placed before it. */
  function Position(placed: seq<string>, slug: string): (k: nat)
    ensures k <= |placed|
  {
    if GoesUnderParent(placed, slug) then IndexOf(placed, ParentSlug(slug)) + 1 else |placed|
  }

  /** The order the loop produces for `posts`. */
  function Order(posts: seq<Post>): (r: seq<Post>)
    ensures |r| == |posts|
  {
    if posts == [] then []
    else
      var prev := Order(posts[..|posts| - 1]);
      var p := posts[|posts| - 1];
      InsertAt(prev, Position(SlugList(prev), p.slug), p)
  }

  lemma OrderSnoc(posts: seq<Post>, p: Post)
    ensures Order(posts + [p]) == InsertAt(Order(posts), Position(SlugList(Order(posts)), p.slug), p)
  {
    SnocInit(posts, p);
  }

  /** The ordered posts are a permutation of the posts. */
  lemma {:induction false} OrderPermutes(posts: seq<Post>)
    ensures multiset(Order(posts)) == multiset(posts)
  {
    if posts != [] {
      var init, p := posts[..|posts| - 1], posts[|posts| - 1];
      OrderPermutes(init);
      var prev := Order(init);
      InsertAtParts(prev, Position(SlugList(prev), p.slug), p);
      LastSplit(posts);
    }
  }

  /** The opening post stays first. */
  lemma {:induction false} OrderKeepsOpener(posts: seq<Post>)
    requires posts != []
    ensures Order(posts)[0] == posts[0]
  {
    if |posts| > 1 {
      var init, p := posts[..|posts| - 1], posts[|posts| - 1];
      OrderKeepsOpener(init);
      assert init[0] == posts[0];
      var prev := Order(init);
      assert Position(SlugList(prev), p.slug) >= 1;
    }
  }

  /** The replies are the same posts in another order, so they have the
      same authors: the voice count does not depend on the order. */
  lemma OrderKeepsAuthors(posts: seq<Post>)
    requires posts != []
    ensures AuthorSet(Order(posts)[1..]) == AuthorSet(posts[1..])
  {
    var r := Order(posts);
    OrderPermutes(posts);
    OrderKeepsOpener(posts);
    TailPermutation(r, posts);
    AuthorSetPermutation(r[1..], posts[1..]);
  }

  /** Placing one more post inserts it at one position and leaves the
      relative order of the posts already placed as it was. */
  lemma OrderKeepsRelativeOrder(posts: seq<Post>, p: Post)
    ensures var prev, k := Order(posts), Position(SlugList(Order(posts)), p.slug);
      var r := Order(posts + [p]);
      r[k] == p && r[..k] + r[k + 1..] == prev
  {
    OrderSnoc(posts, p);
    var prev, k := Order(posts), Position(SlugList(Order(posts)), p.slug);
    InsertAtParts(prev, k, p);
    SplitAt(prev, k);
  }

  /** A reply whose parent is placed lands directly after the parent's first
      occurrence; any other post is appended. */
  lemma OrderPlacement(posts: seq<Post>, p: Post)
    ensures var prev := Order(posts); var r := Order(posts + [p]);
      var ps := ParentSlug(p.slug);
      if GoesUnderParent(SlugList(prev), p.slug) then
        exists k :: 1 <= k <= |prev| && r[k] == p && prev[k - 1].slug == ps
          && (forall j :: 0 <= j < k - 1 ==> prev[j].slug != ps)
          && r[..k] == prev[..k] && r[k + 1..] == prev[k..]
      else r == prev + [p]
  {
    OrderSnoc(posts, p);
    var prev := Order(posts);
    if GoesUnderParent(SlugList(prev), p.slug) {
      PlacedUnderParent(prev, p);
    } else {
      InsertAtParts(prev, |prev|, p);
    }
  }

  lemma PlacedUnderParent(prev: seq<Post>, p: Post)
    requires GoesUnderParent(SlugList(prev), p.slug)
    ensures var k, ps := Position(SlugList(prev), p.slug), ParentSlug(p.slug);
      var r := InsertAt(prev, k, p);
      && 1 <= k <= |prev| && r[k] == p && prev[k - 1].slug == ps
      && (forall j :: 0 <= j < k - 1 ==> prev[j].slug != ps)
      && r[..k] == prev[..k] && r[k + 1..] == prev[k..]
  {
    var placed, ps := SlugList(prev), ParentSlug(p.slug);
    var k := Position(placed, p.slug);
    InsertAtParts(prev, k, p);
    assert prev[k - 1].slug == placed[k - 1] == ps;
    forall j | 0 <= j < k - 1
      ensures prev[j].slug != ps
    {
      assert prev[j].slug == placed[j];
    }
  }

  /** Inserting the same position into both lists keeps them parallel. */
  lemma InsertParallel(threadId: string, parentIds: seq<(string, string)>, ordered: seq<Post>, k: nat, post: Post)
    requires |parentIds| == |ordered| && k <= |ordered|
    requires forall i :: 0 <= i < |ordered| ==> parentIds[i] == (threadId, ordered[i].slug)
    ensures var ids, os := InsertAt(parentIds, k, (threadId, post.slug)), InsertAt(ordered, k, post);
      forall i :: 0 <= i < |os| ==> ids[i] == (threadId, os[i].slug)
  {
    var ids, os := InsertAt(parentIds, k, (threadId, post.slug)), InsertAt(ordered, k, post);
    forall i | 0 <= i < |os|
      ensures ids[i] == (threadId, os[i].slug)
    {
      if i < k {
        assert ids[i] == parentIds[i] && os[i] == ordered[i];
      } else if i > k {
        assert ids[i] == parentIds[i - 1] && os[i] == ordered[i - 1];
      }
    }
  }

  /** Looking a pair up in `parent_ids` is looking its slug up among the placed slugs. */
  lemma LookupParallel(threadId: string, parentIds: seq<(string, string)>, placed: seq<string>, slug: string)
    requires |parentIds| == |placed|
    requires forall i :: 0 <= i < |placed| ==> parentIds[i] == (threadId, placed[i])
    ensures (threadId, slug) in parentIds <==> slug in placed
    ensures slug in placed ==> (threadId, slug) in parentIds && IndexOf(parentIds, (threadId, slug)) == IndexOf(placed, slug)
  {
    if slug in placed {
      var j := IndexOf(placed, slug);
      assert parentIds[j] == (threadId, slug);
      var index := IndexOf(parentIds, (threadId, slug));
      assert placed[index] == slug;
    }
  }

  /** The loop of lines 298-308, with the two parallel lists `parent_ids`
      (pairs of thread id and slug) and `ordered_posts`. */
  method OrderPosts(threadId: string, posts: seq<Post>) returns (ordered: seq<Post>)
    ensures ordered == Order(posts)
  {
    var parentIds: seq<(string, string)> := [];
    ordered := [];
    for n := 0 to |posts|
      invariant |parentIds| == |ordered|
      invariant forall i :: 0 <= i < |ordered| ==> parentIds[i] == (threadId, ordered[i].slug)
      invariant ordered == Order(posts[..n])
    {
      var post := posts[n];
      ghost var k := Position(SlugList(ordered), post.slug);
      assert Order(posts[..n + 1]) == InsertAt(ordered, k, post) by {
        assert posts[..n + 1] == posts[..n] + [post];
        OrderSnoc(posts[..n], post);
      }
      InsertParallel(threadId, parentIds, ordered, k, post);
      var parentSlug := ParentSlug(post.slug);
      LookupParallel(threadId, parentIds, SlugList(ordered), parentSlug);
      if '/' in post.slug && (threadId, parentSlug) in parentIds {
        var index := IndexOf(parentIds, (threadId, parentSlug));
        parentIds := InsertAt(parentIds, index + 1, (threadId, post.slug));
        ordered := InsertAt(ordered, index + 1, post);
      } else {
        assert InsertAt(parentIds, k, (threadId, post.slug)) == parentIds + [(threadId, post.slug)];
        assert InsertAt(ordered, k, post) == ordered + [post];
        parentIds := parentIds + [(threadId, post.slug)];
        ordered := ordered + [post];
      }
    }
    TakeAll(posts);
  }

  /** The parent slug of a nested slug is what precedes its last '/'. */
  lemma ParentSlugExamples()
    ensures ParentSlug("a/b") == "a" && ParentSlug("a/b/d") == "a/b" && ParentSlug("a") == ""
  {
    assert "a/b"[..2] == "a/";
    assert "a/b/d"[..4] == "a/b/";
  }

  /** A post whose parent first stands at `k` goes right after it. */
  lemma PositionUnderParent(placed: seq<string>, slug: string, k: nat)
    requires '/' in slug && k < |placed| && placed[k] == ParentSlug(slug)
    requires forall j :: 0 <= j < k ==> placed[j] != ParentSlug(slug)
    ensures Position(placed, slug) == k + 1
  {
    IndexOfFirst(placed, ParentSlug(slug), k);
  }

  /** One step of the order, once the place of the new post is known. */
  lemma OrderStep(posts: seq<Post>, ordered: seq<Post>, p: Post, k: nat)
    requires Order(posts) == ordered && k <= |ordered| && Position(SlugList(ordered), p.slug) == k
    ensures Order(posts + [p]) == ordered[..k] + [p] + ordered[k..]
  {
    OrderSnoc(posts, p);
  }

  lemma SpliceFirst<T>(x: T, y: T)
    ensures [x][..1] + [y] + [x][1..] == [x, y] && [x] + [y] == [x, y]
  {
  }

  lemma SpliceSecond<T>(x: T, y: T, z: T)
    ensures [x, y][..1] + [z] + [x, y][1..] == [x, z, y] && [x, y] + [z] == [x, y, z]
  {
  }

  lemma SpliceLast<T>(w: T, x: T, y: T, z: T)
    ensures [w, x, y][..3] + [z] + [w, x, y][3..] == [w, x, y, z]
  {
  }

  /** The first two steps of `OrderExample`: a reply goes after its parent. */
  lemma OrderExampleStart(a: Post, ab: Post)
    requires a.slug == "a" && ab.slug == "a/b"
    ensures Order([a, ab]) == [a, ab]
  {
    ParentSlugExamples();
    OrderStep([], [], a, 0);
    assert Order([a]) == [a];
    assert SlugList([a]) == ["a"];
    PositionUnderParent(["a"], "a/b", 0);
    OrderStep([a], [a], ab, 1);
    SpliceFirst(a, ab);
  }

  /** The third step of `OrderExample`: a second reply to the same parent
      goes ahead of the first. */
  lemma OrderExampleSibling(a: Post, ab: Post, ac: Post)
    requires a.slug == "a" && ab.slug == "a/b" && ac.slug == "a/c"
    ensures Order([a, ab, ac]) == [a, ac, ab]
  {
    OrderExampleStart(a, ab);
    assert ParentSlug("a/c") == "a" by {
      assert "a/c"[..2] == "a/";
    }
    var o2 := [a, ab];
    assert SlugList(o2) == ["a", "a/b"];
    PositionUnderParent(["a", "a/b"], "a/c", 0);
    OrderStep([a, ab], o2, ac, 1);
    SpliceSecond(a, ab, ac);
  }

  /** Replies to one parent come out in reverse arrival order ahead of the
      parent's earlier replies, while a reply to a reply follows its own
      parent: a, a/b, a/c, a/b/d are ordered a, a/c, a/b, a/b/d. */
  lemma OrderExample(p: Post)
    ensures var a, ab, ac, abd := p.(slug := "a"), p.(slug := "a/b"), p.(slug := "a/c"), p.(slug := "a/b/d");
      Order([a, ab, ac, abd]) == [a, ac, ab, abd]
  {
    var a, ab, ac, abd := p.(slug := "a"), p.(slug := "a/b"), p.(slug := "a/c"), p.(slug := "a/b/d");
    OrderExampleSibling(a, ab, ac);
    ParentSlugExamples();
    var o3 := [a, ac, ab];
    assert SlugList(o3) == ["a", "a/c", "a/b"];
    PositionUnderParent(["a", "a/c", "a/b"], "a/b/d", 2);
    OrderStep([a, ab, ac], o3, abd, 3);
    SpliceLast(a, ac, ab, abd);
    assert [a, ab, ac] + [abd] == [a, ab, ac, abd];
  }

  /** `list.index` finds the first occurrence. */
  lemma IndexOfFirst<T>(s: seq<T>, x: T, i: nat)
    requires i < |s| && s[i] == x && forall j :: 0 <= j < i ==> s[j] != x
    ensures x in s && IndexOf(s, x) == i
  {
  }

  /** Siblings come out in reverse arrival order: when two replies to the
      same placed parent arrive one after the other, the later one goes
      directly after the parent, in front of the earlier one. */
  lemma SiblingsReversed(posts: seq<Post>, p: Post, q: Post)
    requires '/' in p.slug && '/' in q.slug && ParentSlug(p.slug) == ParentSlug(q.slug)
    requires ParentSlug(p.slug) in SlugList(Order(posts))
    ensures var prev := Order(posts);
      var k := IndexOf(SlugList(prev), ParentSlug(p.slug)) + 1;
      k <= |prev| && Order(posts + [p] + [q]) == prev[..k] + [q, p] + prev[k..]
  {
    var prev, ps := Order(posts), ParentSlug(p.slug);
    var k := IndexOf(SlugList(prev), ps) + 1;
    OrderSnoc(posts, p);
    var r1 := InsertAt(prev, k, p);
    assert Order(posts + [p]) == r1;
    ParentStaysFirst(prev, ps, p);
    assert Position(SlugList(r1), q.slug) == k;
    OrderSnoc(posts + [p], q);
    assert Order(posts + [p] + [q]) == InsertAt(r1, k, q);
    InsertTwice(prev, k, p, q);
  }

  /** Inserting a post right after the first occurrence of a slug leaves
      that occurrence the first one. */
  lemma ParentStaysFirst(prev: seq<Post>, ps: string, p: Post)
    requires ps in SlugList(prev)
    ensures var i := IndexOf(SlugList(prev), ps); var r := InsertAt(prev, i + 1, p);
      ps in SlugList(r) && IndexOf(SlugList(r), ps) == i
  {
    var i := IndexOf(SlugList(prev), ps);
    var k := i + 1;
    var r := InsertAt(prev, k, p);
    InsertAtParts(prev, k, p);
    assert SlugList(r)[i] == ps by {
      assert r[i] == r[..k][i] == prev[..k][i] == prev[i];
    }
    forall j | 0 <= j < i
      ensures SlugList(r)[j] != ps
    {
      assert r[j] == r[..k][j] == prev[..k][j] == prev[j];
    }
    IndexOfFirst(SlugList(r), ps, i);
  }
}
