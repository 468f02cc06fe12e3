/** The converter object `Allura2WPXML` (allura2wpxml.py:235-394): one pass
    over the forums, threads and posts of the export that appends forum,
    topic, reply and attachment items to `items`, keeps the running counts
    and maxima of Stats, and finally writes them into the postmeta of the
    topic and forum items built earlier. */
module Convert {
  import opened Strings
  import opened Times
  import opened Ids
  import opened Source
  import opened RunState
  import opened Items
  import opened Replies
  import opened Stats
  import opened Xml
  import opened Seqs

  // ------------------------------------------------- the four constructor calls

  /** The arguments of the forum item (lines 250-254). */
  function ForumArgs(env: Env, forum: Forum, baseUrl: string, creator: string): ItemArgs
  {
    Defaults(None, Name(forum.id), PostType.Forum, forum.name, baseUrl)
      .(link := ForumLink, creator := creator, content := env.markdown(forum.description),
        commentStatus := "closed")
  }

  /** The arguments of a topic item (lines 275-282). */
  function TopicArgs(env: Env, forumItem: Item, thread: Thread, baseUrl: string, postName: string): ItemArgs
    requires thread.posts != []
  {
    var post1 := thread.posts[0];
    Defaults(Some(forumItem), Name(thread.id), Topic, thread.subject, baseUrl)
      .(link := TopicLink, dateTime := post1.timestamp, creator := post1.author,
        postName := postName, content := PostContent(env, post1, "topic"), commentStatus := "closed")
  }

  /** The arguments of a reply item (lines 311-318). */
  function ReplyArgs(env: Env, topic: Item, threadId: string, post: Post, i: nat, baseUrl: string): ItemArgs
  {
    Defaults(Some(topic), ReplyKey(threadId, post.slug), Reply, "", baseUrl)
      .(link := ReplyLink, dateTime := post.timestamp, creator := post.author,
        content := PostContent(env, post, "reply"), commentStatus := "closed", pingStatus := "closed",
        menuOrder := i + 1)
  }

  /** The arguments of an attachment item (lines 362-372). */
  function AttachmentArgs(parent: Item, attachment: Attachment, post: Post, postName: string): ItemArgs
  {
    Defaults(Some(parent), Name(attachment.url), PostType.Attachment, attachment.title, "")
      .(link := Literal(attachment.url), dateTime := post.timestamp, creator := post.author,
        postName := postName, status := "inherit", excerpt := Num(parent.id))
  }

  // ------------------------------------------------------------ postmeta lists

  /** The postmeta every reply gets (lines 331-333). */
  function ReplyMeta(forumId: int, topicId: int): (r: seq<(string, Value)>)
    ensures DistinctKeys(r)
  {
    [("_bbp_author_ip", Str("0.0.0.0")), ("_bbp_forum_id", Num(forumId)), ("_bbp_topic_id", Num(topicId))]
  }

  /** The postmeta of a topic (lines 339-347). */
  function TopicMeta(env: Env, lastActive: Latest, replyCount: int, lastReplyId: int,
                     forumId: int, topicId: int, voiceCount: int): (r: seq<(string, Value)>)
    ensures DistinctKeys(r)
  {
    [("_bbp_last_active_time", Str(env.dateTime(lastActive.time))),
     ("_bbp_reply_count", Num(replyCount)),
     ("_bbp_reply_count_hidden", Num(0)),
     ("_bbp_last_reply_id", Num(lastReplyId)),
     ("_bbp_last_active_id", Num(lastActive.id)),
     ("_bbp_author_ip", Str("0.0.0.0")),
     ("_bbp_forum_id", Num(forumId)),
     ("_bbp_topic_id", Num(topicId)),
     ("_bbp_voice_count", Num(voiceCount))]
  }

  /** The postmeta of a forum (lines 348-357). */
  function ForumMeta(env: Env, track: ForumTrack, replyTotal: int, topicCount: int): (r: seq<(string, Value)>)
    ensures DistinctKeys(r)
  {
    [("_bbp_last_active_time", Str(env.dateTime(track.latest.time))),
     ("_bbp_forum_subforum_count", Num(0)),
     ("_bbp_reply_count", Num(replyTotal)),
     ("_bbp_total_reply_count", Num(replyTotal)),
     ("_bbp_topic_count", Num(topicCount)),
     ("_bbp_total_topic_count", Num(topicCount)),
     ("_bbp_topic_count_hidden", Num(0)),
     ("_bbp_last_topic_id", Num(track.lastTopicId)),
     ("_bbp_last_reply_id", Num(track.lastReplyId)),
     ("_bbp_last_active_id", Num(track.latest.id))]
  }

  // ---------------------------------------------------------- item descriptions

  /** What the script stores for an attachment of `post` hung under `parent`. */
  predicate IsAttachmentItem(item: Item, env: Env, attachment: Attachment, post: Post, parent: Item)
  {
    && item.postType == PostType.Attachment
    && item.parent == parent.id
    && item.excerpt == Num(parent.id)
    && item.status == "inherit"
    && item.attachmentUrl == Some(attachment.url)
    && item.link == Escape(attachment.url) && item.guid == Escape(attachment.url)
    && item.title == Escape(attachment.title)
    && item.creator == Escape(post.author)
    && item.timestamp == TimeOf(post, env.now)
    && item.content == []
    && item.postmeta == []
  }

  /** What the script stores for the reply at ordered position `i + 1`. */
  predicate IsReplyItem(item: Item, env: Env, baseUrl: string, post: Post, i: nat, topic: Item, forumId: int)
  {
    && item.postType == Reply
    && item.parent == topic.id
    && item.link == Escape(FormatLink(ReplyLink, baseUrl, Reply, item.id, item.postName))
    && item.guid == item.link
    && item.menuOrder == i + 1
    && item.title == []
    && item.creator == Escape(post.author)
    && item.timestamp == TimeOf(post, env.now)
    && item.content == StripControl(PostContent(env, post, "reply"))
    && item.commentStatus == "closed" && item.pingStatus == "closed"
    && item.postName == Num(item.id)
    && |item.postmeta| >= 3 && item.postmeta[..3] == ReplyMeta(forumId, topic.id)
    && (|item.postmeta| == 4 <==> '/' in post.slug)
    && ('/' in post.slug ==> item.postmeta[3].0 == "_bbp_reply_to")
  }

  /** What the script stores for a forum (lines 250-254), before its
      postmeta is filled in: dated now, since no date is passed. */
  predicate IsForumItem(item: Item, env: Env, baseUrl: string, forum: Forum, creator: string)
  {
    && item.postType == PostType.Forum
    && item.parent == 0
    && item.link == Escape(FormatLink(ForumLink, baseUrl, PostType.Forum, item.id, item.postName))
    && item.guid == item.link
    && item.title == Escape(forum.name)
    && item.creator == Escape(creator)
    && item.timestamp == env.now
    && item.content == StripControl(env.markdown(forum.description))
    && item.commentStatus == "closed" && item.pingStatus == "open"
    && item.postmeta == []
  }

  lemma ForumBuilt(env: Env, forum: Forum, baseUrl: string, creator: string, id: int, name: Value)
    ensures IsForumItem(Build(ForumArgs(env, forum, baseUrl, creator), env, id, name), env, baseUrl, forum, creator)
  {
  }

  /** What the script stores for the topic of `thread` under `forumItem`,
      before its postmeta is filled in. */
  predicate IsTopicItem(item: Item, env: Env, baseUrl: string, thread: Thread, forumItem: Item)
  {
    && thread.posts != []
    && item.postType == Topic
    && item.parent == forumItem.id
    && item.link == Escape(FormatLink(TopicLink, baseUrl, Topic, item.id, item.postName))
    && item.guid == item.link
    && item.title == Escape(thread.subject)
    && item.creator == Escape(thread.posts[0].author)
    && item.timestamp == TimeOf(thread.posts[0], env.now)
    && item.content == StripControl(PostContent(env, thread.posts[0], "topic"))
    && item.commentStatus == "closed" && item.pingStatus == "open"
    && item.postmeta == []
  }

  lemma TopicBuilt(env: Env, forumItem: Item, thread: Thread, baseUrl: string, postName: string, id: int, name: Value)
    requires thread.posts != []
    ensures IsTopicItem(Build(TopicArgs(env, forumItem, thread, baseUrl, postName), env, id, name), env, baseUrl,
                        thread, forumItem)
  {
  }

  /** `b` is `a` with more items appended. */
  predicate Extends(a: seq<Item>, b: seq<Item>)
  {
    |a| <= |b| && b[..|a|] == a
  }

  lemma ExtendsAt(a: seq<Item>, b: seq<Item>, k: nat)
    requires Extends(a, b) && k < |a|
    ensures b[k] == a[k]
  {
    assert b[..|a|][k] == b[k];
  }

  lemma ExtendsTrans(a: seq<Item>, b: seq<Item>, c: seq<Item>)
    requires Extends(a, b) && Extends(b, c)
    ensures Extends(a, c)
  {
    assert c[..|a|] == c[..|b|][..|a|];
  }

  lemma AtLeastSnoc(at: seq<nat>, bound: nat, next: nat)
    requires forall i :: 0 <= i < |at| ==> bound <= at[i]
    requires bound <= next
    ensures forall i :: 0 <= i < |at| + 1 ==> bound <= (at + [next])[i]
  {
  }

  lemma ExtendsSnoc(a: seq<Item>, item: Item, b: seq<Item>)
    requires Extends(a + [item], b)
    ensures Extends(a, b) && b[|a|] == item
  {
    assert b[..|a|] == b[..|a| + 1][..|a|];
    assert (a + [item])[..|a|] == a;
    ExtendsAt(a + [item], b, |a|);
  }

  /** Changing an item past the old end keeps the old items a prefix. */
  lemma ExtendsUpdate(a: seq<Item>, b: seq<Item>, k: nat, item: Item)
    requires Extends(a, b) && |a| <= k < |b|
    ensures Extends(a, b[k := item])
  {
    assert b[k := item][..|a|] == b[..|a|];
  }

  /** The attachment items of `post`, in order, start at position `from`
      of `items`, each hung under `parent`. */
  predicate AttachmentsAt(items: seq<Item>, env: Env, from: nat, post: Post, parent: Item)
  {
    && from + |post.attachments| <= |items|
    && forall k :: 0 <= k < |post.attachments| ==>
         IsAttachmentItem(items[from + k], env, post.attachments[k], post, parent)
  }

  lemma AttachmentsAtExtends(a: seq<Item>, b: seq<Item>, env: Env, from: nat, post: Post, parent: Item)
    requires AttachmentsAt(a, env, from, post, parent) && Extends(a, b)
    ensures AttachmentsAt(b, env, from, post, parent)
  {
    forall k | 0 <= k < |post.attachments|
      ensures IsAttachmentItem(b[from + k], env, post.attachments[k], post, parent)
    {
      ExtendsAt(a, b, from + k);
    }
  }

  // ------------------------------------------------- how many items each part adds

  /** The items a post becomes: its own and one per attachment. */
  function PostSpan(post: Post): nat
  {
    1 + |post.attachments|
  }

  /** The items of the posts, one post after another. */
  function PostsSpan(posts: seq<Post>): nat
  {
    if posts == [] then 0 else PostsSpan(posts[..|posts| - 1]) + PostSpan(posts[|posts| - 1])
  }

  lemma PostsSpanSnoc(posts: seq<Post>, j: nat)
    requires 1 <= j < |posts|
    ensures PostsSpan(posts[1..j + 1]) == PostsSpan(posts[1..j]) + PostSpan(posts[j])
  {
    assert posts[1..j + 1][..j - 1] == posts[1..j];
  }

  lemma PostsSpanAll(posts: seq<Post>)
    requires posts != []
    ensures PostsSpan(posts[1..|posts|]) == PostsSpan(posts[1..])
  {
    assert posts[1..|posts|] == posts[1..];
  }

  /** The number of attachments of the posts. */
  function AttachmentCount(posts: seq<Post>): nat
  {
    if posts == [] then 0 else AttachmentCount(posts[..|posts| - 1]) + |posts[|posts| - 1].attachments|
  }

  /** Posts, one after another, become one item each plus one per attachment. */
  lemma {:induction false} PostsSpanCount(posts: seq<Post>)
    ensures PostsSpan(posts) == |posts| + AttachmentCount(posts)
  {
    if posts != [] {
      PostsSpanCount(posts[..|posts| - 1]);
    }
  }

  lemma {:induction false} AttachmentCountAppend(a: seq<Post>, b: seq<Post>)
    ensures AttachmentCount(a + b) == AttachmentCount(a) + AttachmentCount(b)
  {
    if b == [] {
      assert a + b == a;
    } else {
      assert (a + b)[..|a + b| - 1] == a + b[..|b| - 1];
      AttachmentCountAppend(a, b[..|b| - 1]);
    }
  }

  /** Taking out post `k` takes out its attachments. */
  lemma AttachmentCountRemove(b: seq<Post>, k: nat)
    requires k < |b|
    ensures AttachmentCount(b) == AttachmentCount(b[..k] + b[k + 1..]) + |b[k].attachments|
  {
    assert b == b[..k] + [b[k]] + b[k + 1..];
    AttachmentCountAppend(b[..k], b[k + 1..]);
    AttachmentCountAppend(b[..k] + [b[k]], b[k + 1..]);
    AttachmentCountAppend(b[..k], [b[k]]);
    assert [b[k]][..0] == [];
  }

  /** The attachment count does not depend on the order of the posts. */
  lemma {:induction false} AttachmentCountPermutes(a: seq<Post>, b: seq<Post>)
    requires multiset(a) == multiset(b)
    ensures AttachmentCount(a) == AttachmentCount(b)
    decreases |a|
  {
    if a == [] {
      assert |multiset(b)| == 0;
    } else {
      var init, x := a[..|a| - 1], a[|a| - 1];
      assert a == init + [x];
      assert multiset(a) == multiset(init) + multiset{x};
      assert x in multiset(b);
      var k :| 0 <= k < |b| && b[k] == x;
      var rest := b[..k] + b[k + 1..];
      assert b == b[..k] + [x] + b[k + 1..];
      assert multiset(b) == multiset(rest) + multiset{x};
      MultisetCancel(multiset(init), multiset(rest), x);
      AttachmentCountPermutes(init, rest);
      AttachmentCountRemove(b, k);
    }
  }

  /** The items a counted thread becomes: its topic with the opener's
      attachments, then every reply in reply order with its own. */
  function ThreadSpan(thread: Thread): nat
  {
    if thread.posts == [] then 0 else PostSpan(thread.posts[0]) + PostsSpan(Order(thread.posts)[1..])
  }

  /** A counted thread becomes one item per post plus one per attachment,
      whatever order its replies are put in. */
  lemma ThreadSpanCount(thread: Thread)
    requires thread.posts != []
    ensures ThreadSpan(thread) == |thread.posts| + AttachmentCount(thread.posts)
  {
    var posts, ordered := thread.posts, Order(thread.posts);
    var replies, orderedReplies := posts[1..], ordered[1..];
    OrderPermutes(posts);
    OrderKeepsOpener(posts);
    assert posts == [posts[0]] + replies;
    assert ordered == [posts[0]] + orderedReplies;
    assert multiset(posts) == multiset(replies) + multiset{posts[0]};
    assert multiset(ordered) == multiset(orderedReplies) + multiset{posts[0]};
    MultisetCancel(multiset(orderedReplies), multiset(replies), posts[0]);
    AttachmentCountPermutes(orderedReplies, replies);
    PostsSpanCount(orderedReplies);
    AttachmentCountAppend([posts[0]], replies);
    assert [posts[0]][..0] == [];
  }

  /** The items of the threads, one thread after another. */
  function ThreadsSpan(threads: seq<Thread>): nat
  {
    if threads == [] then 0 else ThreadsSpan(threads[..|threads| - 1]) + ThreadSpan(threads[|threads| - 1])
  }

  lemma ThreadsSpanSnoc(threads: seq<Thread>, thread: Thread)
    ensures ThreadsSpan(threads + [thread]) == ThreadsSpan(threads) + ThreadSpan(thread)
  {
    assert (threads + [thread])[..|threads|] == threads;
  }

  /** The items a forum becomes: the forum item, then its counted threads. */
  function ForumSpan(forum: Forum, range: DateRange): nat
  {
    1 + ThreadsSpan(Included(forum.threads, range))
  }

  /** The items of the forums, one forum after another. */
  function ForumsSpan(forums: seq<Forum>, range: DateRange): nat
  {
    if forums == [] then 0 else ForumsSpan(forums[..|forums| - 1], range) + ForumSpan(forums[|forums| - 1], range)
  }

  lemma ForumsSpanSnoc(forums: seq<Forum>, n: nat, range: DateRange)
    requires n < |forums|
    ensures ForumsSpan(forums[..n + 1], range) == ForumsSpan(forums[..n], range) + ForumSpan(forums[n], range)
  {
    assert forums[..n + 1][..n] == forums[..n];
  }

  /** Reply `k` starts right where the items of the replies before it
      end: at `start` plus their span. */
  predicate RepliesContiguous(at: seq<int>, ordered: seq<Post>, start: nat)
  {
    && |at| < |ordered|
    && forall k {:trigger at[k]} :: 0 <= k < |at| ==> at[k] == start + PostsSpan(ordered[1..k + 1])
  }

  lemma RepliesContiguousSnoc(at: seq<int>, ordered: seq<Post>, start: nat, next: int)
    requires RepliesContiguous(at, ordered, start) && |at| + 1 < |ordered|
    requires next == start + PostsSpan(ordered[1..|at| + 1])
    ensures RepliesContiguous(at + [next], ordered, start)
  {
    var at' := at + [next];
    forall k | 0 <= k < |at'|
      ensures at'[k] == start + PostsSpan(ordered[1..k + 1])
    {
      if k < |at| {
        assert at'[k] == at[k];
      }
    }
  }

  /** Topic `i` starts right where the items of the threads before it end. */
  predicate TopicsContiguous(topicAt: seq<nat>, included: seq<Thread>, start: nat)
  {
    && |topicAt| <= |included|
    && forall i {:trigger topicAt[i]} :: 0 <= i < |topicAt| ==> topicAt[i] == start + ThreadsSpan(included[..i])
  }

  lemma TopicsContiguousSnoc(topicAt: seq<nat>, included: seq<Thread>, start: nat, thread: Thread, next: nat)
    requires TopicsContiguous(topicAt, included, start) && |topicAt| == |included|
    requires next == start + ThreadsSpan(included)
    ensures TopicsContiguous(topicAt + [next], included + [thread], start)
  {
    var topicAt', included' := topicAt + [next], included + [thread];
    forall i | 0 <= i < |topicAt'|
      ensures topicAt'[i] == start + ThreadsSpan(included'[..i])
    {
      assert included'[..i] == included[..i];
    }
  }

  /** Forum `i` starts right where the items of the forums before it end. */
  predicate ForumsContiguous(at: seq<nat>, forums: seq<Forum>, range: DateRange, start: nat)
  {
    && |at| <= |forums|
    && forall i {:trigger at[i]} :: 0 <= i < |at| ==> at[i] == start + ForumsSpan(forums[..i], range)
  }

  lemma ForumsContiguousSnoc(at: seq<nat>, forums: seq<Forum>, range: DateRange, start: nat, next: nat)
    requires ForumsContiguous(at, forums, range, start) && |at| < |forums|
    requires next == start + ForumsSpan(forums[..|at|], range)
    ensures ForumsContiguous(at + [next], forums, range, start)
  {
    var at' := at + [next];
    forall i | 0 <= i < |at'|
      ensures at'[i] == start + ForumsSpan(forums[..i], range)
    {
      if i < |at| {
        assert at'[i] == at[i];
      }
    }
  }

  /** Item `replies[k]` sits at position `at[k]` of `items`, past `start`,
      and the positions increase. */
  predicate Placed(items: seq<Item>, at: seq<int>, replies: seq<Item>, start: nat)
  {
    && |at| == |replies|
    && (forall k :: 0 <= k < |at| ==> start <= at[k] < |items| && items[at[k]] == replies[k])
    && (forall k, j :: 0 <= k < j < |at| ==> at[k] < at[j])
  }

  lemma PlacedAppend(items: seq<Item>, at: seq<int>, replies: seq<Item>, start: nat, reply: Item, after: seq<Item>)
    requires Placed(items, at, replies, start) && start <= |items|
    requires Extends(items + [reply], after)
    ensures Placed(after, at + [|items|], replies + [reply], start)
  {
    var at', replies' := at + [|items|], replies + [reply];
    forall k | 0 <= k < |at'|
      ensures start <= at'[k] < |after| && after[at'[k]] == replies'[k]
    {
      ExtendsAt(items + [reply], after, at'[k]);
    }
  }

  lemma PlacedExtends(items: seq<Item>, after: seq<Item>, at: seq<int>, replies: seq<Item>, start: nat)
    requires Placed(items, at, replies, start) && Extends(items, after)
    ensures Placed(after, at, replies, start)
  {
    forall k | 0 <= k < |at|
      ensures start <= at[k] < |after| && after[at[k]] == replies[k]
    {
      ExtendsAt(items, after, at[k]);
    }
  }

  /** Changing an item before `from` leaves the attachments in place. */
  lemma AttachmentsAtUpdate(items: seq<Item>, env: Env, from: nat, post: Post, parent: Item, k: nat, item: Item)
    requires AttachmentsAt(items, env, from, post, parent) && k < from && k < |items|
    ensures AttachmentsAt(items[k := item], env, from, post, parent)
  {
  }

  /** Each reply item `replies[k]`, placed at `at[k]`, is followed by the
      attachment items of its post `ordered[k + 1]` (lines 336-337). */
  predicate RepliesAttached(items: seq<Item>, env: Env, at: seq<int>, ordered: seq<Post>, replies: seq<Item>)
  {
    && |at| == |replies| < |ordered|
    && forall k :: 0 <= k < |at| ==> 0 <= at[k] && AttachmentsAt(items, env, at[k] + 1, ordered[k + 1], replies[k])
  }

  lemma RepliesAttachedExtends(items: seq<Item>, after: seq<Item>, env: Env, at: seq<int>, ordered: seq<Post>,
                               replies: seq<Item>)
    requires RepliesAttached(items, env, at, ordered, replies) && Extends(items, after)
    ensures RepliesAttached(after, env, at, ordered, replies)
  {
    forall k | 0 <= k < |at|
      ensures AttachmentsAt(after, env, at[k] + 1, ordered[k + 1], replies[k])
    {
      AttachmentsAtExtends(items, after, env, at[k] + 1, ordered[k + 1], replies[k]);
    }
  }

  /** A reply appended at the end, followed by its post's attachments. */
  lemma RepliesAttachedSnoc(items: seq<Item>, after: seq<Item>, env: Env, at: seq<int>, ordered: seq<Post>,
                            replies: seq<Item>, reply: Item)
    requires RepliesAttached(items, env, at, ordered, replies) && Extends(items, after)
    requires |replies| + 1 < |ordered|
    requires AttachmentsAt(after, env, |items| + 1, ordered[|replies| + 1], reply)
    ensures RepliesAttached(after, env, at + [|items|], ordered, replies + [reply])
  {
    RepliesAttachedExtends(items, after, env, at, ordered, replies);
    var at', replies' := at + [|items|], replies + [reply];
    forall k | 0 <= k < |at'|
      ensures 0 <= at'[k] && AttachmentsAt(after, env, at'[k] + 1, ordered[k + 1], replies'[k])
    {
      if k < |at| {
        assert at'[k] == at[k] && replies'[k] == replies[k];
      }
    }
  }

  /** A reply appended after the replies so far, with its post's
      attachments after it, joins them in `Placed`, `RepliesAttached` and
      `RepliesContiguous`, and the items then end after its attachments. */
  lemma ReplyPlaced(start: seq<Item>, before: seq<Item>, after: seq<Item>, env: Env, at: seq<int>,
                    ordered: seq<Post>, replies: seq<Item>, reply: Item)
    requires Extends(start, before) && Extends(before + [reply], after)
    requires Placed(before, at, replies, |start|) && RepliesAttached(before, env, at, ordered, replies)
    requires |replies| + 1 < |ordered|
    requires AttachmentsAt(after, env, |before| + 1, ordered[|replies| + 1], reply)
    requires RepliesContiguous(at, ordered, |start|) && |before| == |start| + PostsSpan(ordered[1..|replies| + 1])
    requires |after| == |before| + PostSpan(ordered[|replies| + 1])
    ensures Extends(start, after)
    ensures Placed(after, at + [|before|], replies + [reply], |start|)
    ensures RepliesAttached(after, env, at + [|before|], ordered, replies + [reply])
    ensures RepliesContiguous(at + [|before|], ordered, |start|)
    ensures |after| == |start| + PostsSpan(ordered[1..|replies| + 2])
  {
    ExtendsSnoc(before, reply, after);
    ExtendsTrans(start, before, after);
    PlacedAppend(before, at, replies, |start|, reply, after);
    RepliesAttachedSnoc(before, after, env, at, ordered, replies, reply);
    RepliesContiguousSnoc(at, ordered, |start|, |before|);
    PostsSpanSnoc(ordered, |replies| + 1);
  }

  /** Changing an item before the first reply leaves every reply's
      attachments in place. */
  lemma RepliesAttachedUpdate(items: seq<Item>, env: Env, at: seq<int>, ordered: seq<Post>, replies: seq<Item>,
                              start: nat, k: nat, item: Item)
    requires RepliesAttached(items, env, at, ordered, replies) && Placed(items, at, replies, start)
    requires k < start && k < |items|
    ensures RepliesAttached(items[k := item], env, at, ordered, replies)
  {
    forall j | 0 <= j < |at|
      ensures AttachmentsAt(items[k := item], env, at[j] + 1, ordered[j + 1], replies[j])
    {
      AttachmentsAtUpdate(items, env, at[j] + 1, ordered[j + 1], replies[j], k, item);
    }
  }

  /** The reply events the forum loop sees for the given reply items. */
  function ReplyEvents(topicId: int, replies: seq<Item>): (r: seq<Event>)
    ensures |r| == |replies|
    ensures forall i :: 0 <= i < |r| ==> r[i] == Event(replies[i].timestamp, replies[i].id, topicId, true)
  {
    seq(|replies|, i requires 0 <= i < |replies| => Event(replies[i].timestamp, replies[i].id, topicId, true))
  }

  lemma ReplyEventsSnoc(topicId: int, replies: seq<Item>, reply: Item)
    ensures ReplyEvents(topicId, replies + [reply])
         == ReplyEvents(topicId, replies) + [Event(reply.timestamp, reply.id, topicId, true)]
  {
  }

  lemma MomentsSnoc(events: seq<Event>, e: Event)
    ensures Moments(events + [e]) == Moments(events) + [Latest(e.time, e.id)]
  {
  }

  lemma AttachmentBuilt(env: Env, parent: Item, attachment: Attachment, post: Post, postName: string, id: int,
                        name: Value)
    ensures IsAttachmentItem(Build(AttachmentArgs(parent, attachment, post, postName), env, id, name)
                               .(attachmentUrl := Some(attachment.url)), env, attachment, post, parent)
  {
  }

  /** The post name of an item whose caller first made `slug` from `source`
      with make_slug (at round `num`) and passed it as `post_name`: an
      empty slug is falsy, so the item then falls back to a slug of its
      title (made at round `num'`), or to its id when the title is empty
      too (lines 120-124). */
  predicate NamedBySlug(before: seq<string>, after: seq<string>, source: string, title: string, item: Item,
                        slug: string, num: nat, num': nat)
  {
    && MadeSlug(before, before + [slug], source, slug, num)
    && (slug != "" ==> item.postName == Str(slug) && after == before + [slug])
    && (slug == "" && title == "" ==> item.postName == Num(item.id) && after == before + [slug])
    && (slug == "" && title != "" ==> item.postName.Str? && MadeSlug(before + [slug], after, title, item.postName.s, num'))
  }

  /** One attachment item: its slug is made from the title and the post's
      slug, its id is keyed by the URL, and the URL is added as
      `wp:attachment_url` (lines 361-375). */
  method NewAttachment(st: State, env: Env, parent: Item, attachment: Attachment, post: Post)
    returns (item: Item, ghost slug: string, ghost num: nat, ghost num': nat)
    modifies st`table, st`nextId, st`slugs
    ensures IsAttachmentItem(item, env, attachment, post, parent)
    ensures NamedBySlug(old(st.slugs), st.slugs, attachment.title + "-" + post.slug, attachment.title, item, slug,
                        num, num')
    ensures (item.id, st.Ids()) == Allocate(old(st.Ids()), Name(attachment.url))
  {
    var title := attachment.title;
    var postName;
    postName, num := st.MakeSlug(title + "-" + post.slug);
    slug := postName;
    assert st.Ids() == old(st.Ids());
    item, num' := NewItem(st, env, AttachmentArgs(parent, attachment, post, postName));
    AttachmentBuilt(env, parent, attachment, post, postName, item.id, item.postName);
    item := item.(attachmentUrl := Some(attachment.url));
  }

  /** The reply postmeta: the three fixed entries, then `_bbp_reply_to` when set. */
  lemma ReplyMetaShape(forumId: int, topicId: int, hasParent: bool, to: int)
    ensures var meta := UpdateMeta([], ReplyMeta(forumId, topicId));
      var meta' := if hasParent then SetMeta(meta, "_bbp_reply_to", Num(to)) else meta;
      && |meta'| >= 3 && meta'[..3] == ReplyMeta(forumId, topicId)
      && (|meta'| == 4 <==> hasParent)
      && (hasParent ==> meta'[3] == ("_bbp_reply_to", Num(to)))
  {
    UpdateMetaFresh([], ReplyMeta(forumId, topicId));
    assert [] + ReplyMeta(forumId, topicId) == ReplyMeta(forumId, topicId);
    assert "_bbp_reply_to" !in Keys(ReplyMeta(forumId, topicId));
  }

  lemma ReplyBuilt(env: Env, topic: Item, threadId: string, post: Post, i: nat, baseUrl: string,
                   forumId: int, id: int, meta: seq<(string, Value)>)
    requires |meta| >= 3 && meta[..3] == ReplyMeta(forumId, topic.id)
    requires (|meta| == 4 <==> '/' in post.slug) && ('/' in post.slug ==> meta[3].0 == "_bbp_reply_to")
    ensures var item := Build(ReplyArgs(env, topic, threadId, post, i, baseUrl), env, id, Num(id));
      IsReplyItem(item.(postmeta := meta), env, baseUrl, post, i, topic, forumId)
  {
  }

  /** A reply item (lines 311-336): its id is keyed by (thread id, slug); a
      reply whose slug has a '/' also records the id of the key (thread id,
      parent slug) as `_bbp_reply_to`, allocating one if that key is new. */
  method NewReply(st: State, env: Env, forumId: int, topic: Item, threadId: string, post: Post, i: nat,
                  baseUrl: string) returns (reply: Item)
    modifies st`table, st`nextId, st`slugs
    ensures IsReplyItem(reply, env, baseUrl, post, i, topic, forumId)
    ensures st.slugs == old(st.slugs)
    ensures var (id, a1) := Allocate(old(st.Ids()), ReplyKey(threadId, post.slug));
      && reply.id == id
      && if '/' in post.slug then
           var (to, a2) := Allocate(a1, ReplyKey(threadId, ParentSlug(post.slug)));
           st.Ids() == a2 && reply.postmeta[3].1 == Num(to)
         else st.Ids() == a1
  {
    var item;
    ghost var num;
    item, num := NewItem(st, env, ReplyArgs(env, topic, threadId, post, i, baseUrl));
    var meta := UpdateMeta(item.postmeta, ReplyMeta(forumId, topic.id));
    var to := 0;
    if '/' in post.slug {
      var parentSlug := ParentSlug(post.slug);
      to := st.GetId(ReplyKey(threadId, parentSlug));
      meta := SetMeta(meta, "_bbp_reply_to", Num(to));
    }
    ReplyMetaShape(forumId, topic.id, '/' in post.slug, to);
    ReplyBuilt(env, topic, threadId, post, i, baseUrl, forumId, item.id, meta);
    reply := item.(postmeta := meta);
  }

  /** The forum item (lines 250-254): its id is keyed by the forum id and
      its post name is a fresh slug of its name (made at round `num`), or
      its id when the name is empty. */
  method NewForum(st: State, env: Env, forum: Forum, baseUrl: string, creator: string)
    returns (item: Item, ghost num: nat)
    modifies st`table, st`nextId, st`slugs
    ensures IsForumItem(item, env, baseUrl, forum, creator)
    ensures (item.id, st.Ids()) == Allocate(old(st.Ids()), Name(forum.id))
    ensures forum.name != "" ==>
      item.postName.Str? && MadeSlug(old(st.slugs), st.slugs, forum.name, item.postName.s, num)
    ensures forum.name == "" ==> item.postName == Num(item.id) && st.slugs == old(st.slugs)
  {
    item, num := NewItem(st, env, ForumArgs(env, forum, baseUrl, creator));
    ForumBuilt(env, forum, baseUrl, creator, item.id, item.postName);
  }

  /** A topic item (lines 274-282): its post name is a fresh slug of the
      subject and the thread id, made before its id is keyed by the thread
      id. */
  method NewTopic(st: State, env: Env, forumItem: Item, thread: Thread, baseUrl: string)
    returns (topic: Item, ghost slug: string, ghost num: nat, ghost num': nat)
    requires thread.posts != []
    modifies st`table, st`nextId, st`slugs
    ensures IsTopicItem(topic, env, baseUrl, thread, forumItem)
    ensures (topic.id, st.Ids()) == Allocate(old(st.Ids()), Name(thread.id))
    ensures NamedBySlug(old(st.slugs), st.slugs, thread.subject + "-" + thread.id, thread.subject, topic, slug, num,
                        num')
  {
    var postName;
    postName, num := st.MakeSlug(thread.subject + "-" + thread.id);
    slug := postName;
    assert st.Ids() == old(st.Ids());
    topic, num' := NewItem(st, env, TopicArgs(env, forumItem, thread, baseUrl, postName));
    TopicBuilt(env, forumItem, thread, baseUrl, postName, topic.id, topic.postName);
  }

  /** The two running maxima after one more item (lines 286-292 and
      319-325): the topic maximum steps as Track does, and the forum
      counters, which copy the topic maximum when the item beats the forum
      maximum, step as ForumStep does. The topic maximum never passes the
      forum maximum. */
  lemma CountersStep(la: Latest, f: ForumTrack, e: Event)
    requires !Later(la.time, f.latest.time)
    ensures var la' := Step(la, Latest(e.time, e.id));
      var f' := if Later(e.time, f.latest.time)
                then ForumTrack(la', e.topicId, if e.isReply then e.id else f.lastReplyId) else f;
      f' == ForumStep(f, e) && !Later(la'.time, f'.latest.time)
  {
    LaterOrder(e.time, f.latest.time, la.time);
    LaterOrder(la.time, f.latest.time, e.time);
    LaterOrder(e.time, e.time, e.time);
  }

  /** The counter updates of lines 286-292 (a topic) and 319-325 (a reply)
      for an item with the given timestamp and id: the topic maximum takes
      the item when it is strictly later; the forum counters copy the topic
      maximum when the item is strictly later than the forum maximum. */
  method Tally(time: Timestamp, id: int, topicId: int, isReply: bool, lastActive: Latest, forum: ForumTrack)
    returns (lastActive': Latest, forum': ForumTrack)
    requires !Later(lastActive.time, forum.latest.time)
    ensures lastActive' == Step(lastActive, Latest(time, id))
    ensures forum' == ForumStep(forum, Event(time, id, topicId, isReply))
    ensures !Later(lastActive'.time, forum'.latest.time)
  {
    lastActive', forum' := lastActive, forum;
    if Later(time, lastActive'.time) {
      lastActive' := Latest(time, id);
    }
    if Later(time, forum'.latest.time) {
      forum' := forum'.(latest := lastActive', lastTopicId := topicId);
      if isReply {
        forum' := forum'.(lastReplyId := id);
      }
    }
    CountersStep(lastActive, forum, Event(time, id, topicId, isReply));
  }

  /** The reply items are those of `ordered[1..]`, in order. */
  predicate RepliesBuilt(replies: seq<Item>, env: Env, baseUrl: string, ordered: seq<Post>, topic: Item, forumId: int)
  {
    |replies| < |ordered| &&
    forall k :: 0 <= k < |replies| ==> IsReplyItem(replies[k], env, baseUrl, ordered[k + 1], k, topic, forumId)
  }

  /** `last_reply_id` after the given replies: the id of the last one, or 0. */
  function LastId(replies: seq<Item>): int
  {
    if replies == [] then 0 else replies[|replies| - 1].id
  }

  /** The topic-scope and forum-scope counters after the given replies. */
  predicate Tallied(topicIn: Latest, forumIn: ForumTrack, topicId: int, ordered: seq<Post>, replies: seq<Item>,
                    lastActive: Latest, forum: ForumTrack, voices: set<string>, lastReplyId: int)
  {
    && |replies| < |ordered|
    && voices == AuthorSet(ordered[1..|replies| + 1])
    && lastActive == Track(topicIn, Moments(ReplyEvents(topicId, replies)))
    && forum == ForumFold(forumIn, ReplyEvents(topicId, replies))
    && !Later(lastActive.time, forum.latest.time)
    && lastReplyId == LastId(replies)
  }

  lemma TalliedStep(topicIn: Latest, forumIn: ForumTrack, topicId: int, ordered: seq<Post>, replies: seq<Item>,
                    lastActive: Latest, forum: ForumTrack, voices: set<string>, lastReplyId: int, reply: Item)
    requires Tallied(topicIn, forumIn, topicId, ordered, replies, lastActive, forum, voices, lastReplyId)
    requires |replies| + 1 < |ordered|
    ensures var e := Event(reply.timestamp, reply.id, topicId, true);
      Tallied(topicIn, forumIn, topicId, ordered, replies + [reply],
              Step(lastActive, Latest(e.time, e.id)), ForumStep(forum, e),
              voices + {ordered[|replies| + 1].author}, reply.id)
  {
    var e := Event(reply.timestamp, reply.id, topicId, true);
    ReplyEventsSnoc(topicId, replies, reply);
    MomentsSnoc(ReplyEvents(topicId, replies), e);
    TrackSnoc(topicIn, Moments(ReplyEvents(topicId, replies)), Latest(e.time, e.id));
    ForumFoldSnoc(forumIn, ReplyEvents(topicId, replies), e);
    SliceSnoc(ordered, 1, |replies| + 1);
    AuthorSetSnoc(ordered[1..|replies| + 1], ordered[|replies| + 1]);
    CountersStep(lastActive, forum, e);
  }

  lemma RepliesBuiltStep(replies: seq<Item>, env: Env, baseUrl: string, ordered: seq<Post>, topic: Item, forumId: int,
                         reply: Item)
    requires RepliesBuilt(replies, env, baseUrl, ordered, topic, forumId) && |replies| + 1 < |ordered|
    requires IsReplyItem(reply, env, baseUrl, ordered[|replies| + 1], |replies|, topic, forumId)
    ensures RepliesBuilt(replies + [reply], env, baseUrl, ordered, topic, forumId)
  {
  }

  /** The events of one topic: the topic item, then its replies. */
  function ThreadEvents(topic: Item, replies: seq<Item>): (r: seq<Event>)
    ensures |r| == |replies| + 1 && r[0] == Event(topic.timestamp, topic.id, topic.id, false)
  {
    [Event(topic.timestamp, topic.id, topic.id, false)] + ReplyEvents(topic.id, replies)
  }

  /** The topic's counters after the topic and then the replies are the
      running maxima over all the thread's events, and the forum maximum
      stays at or after the start of time. */
  lemma ThreadTotals(epoch: Timestamp, forumIn: ForumTrack, topic: Item, replies: seq<Item>,
                     la1: Latest, f1: ForumTrack, lastActive: Latest, forum: ForumTrack)
    requires !Later(epoch, forumIn.latest.time)
    requires la1 == Track(Latest(epoch, 0), [Latest(topic.timestamp, topic.id)])
    requires f1 == ForumFold(forumIn, [Event(topic.timestamp, topic.id, topic.id, false)])
    requires lastActive == Track(la1, Moments(ReplyEvents(topic.id, replies)))
    requires forum == ForumFold(f1, ReplyEvents(topic.id, replies))
    ensures lastActive == Track(Latest(epoch, 0), Moments(ThreadEvents(topic, replies)))
    ensures forum == ForumFold(forumIn, ThreadEvents(topic, replies))
    ensures !Later(epoch, forum.latest.time)
  {
    var e := Event(topic.timestamp, topic.id, topic.id, false);
    var rs := ReplyEvents(topic.id, replies);
    assert Moments([e] + rs) == [Latest(e.time, e.id)] + Moments(rs);
    TrackAppend(Latest(epoch, 0), [Latest(e.time, e.id)], Moments(rs));
    ForumFoldAppend(forumIn, [e], rs);
    ForumFoldGrows(forumIn, [e] + rs);
    LaterOrder(epoch, forum.latest.time, forumIn.latest.time);
  }

  /** Changing an item before `start` leaves the placed replies in place. */
  lemma PlacedUpdate(items: seq<Item>, at: seq<int>, replies: seq<Item>, start: nat, k: nat, item: Item)
    requires Placed(items, at, replies, start) && k < start && k < |items|
    ensures Placed(items[k := item], at, replies, start)
  {
  }

  /** The events the forum loop sees, thread after thread: each topic's
      event, then the events of its replies in reply order. */
  function ForumEvents(topics: seq<Item>, replies: seq<seq<Item>>): seq<Event>
    requires |topics| == |replies|
  {
    if topics == [] then []
    else ForumEvents(topics[..|topics| - 1], replies[..|replies| - 1])
         + ThreadEvents(topics[|topics| - 1], replies[|replies| - 1])
  }

  lemma ForumEventsSnoc(topics: seq<Item>, replies: seq<seq<Item>>, topic: Item, threadReplies: seq<Item>)
    requires |topics| == |replies|
    ensures ForumEvents(topics + [topic], replies + [threadReplies])
         == ForumEvents(topics, replies) + ThreadEvents(topic, threadReplies)
  {
    assert (topics + [topic])[..|topics|] == topics;
    assert (replies + [threadReplies])[..|replies|] == replies;
  }

  /** `topic` and `replies` are the topic item and the reply items built
      for `thread` under `forumItem`. */
  predicate ThreadBuilt(env: Env, baseUrl: string, thread: Thread, forumItem: Item, topic: Item, replies: seq<Item>)
  {
    && IsTopicItem(topic, env, baseUrl, thread, forumItem)
    && |replies| == |thread.posts| - 1
    && RepliesBuilt(replies, env, baseUrl, Order(thread.posts), topic, forumItem.id)
  }

  /** `topics` and `replies` are the items built for the threads of
      `included`, one thread after the other. */
  predicate ThreadsBuilt(env: Env, baseUrl: string, included: seq<Thread>, forumItem: Item, topics: seq<Item>,
                         replies: seq<seq<Item>>)
    decreases |included|
  {
    && |topics| == |replies| == |included|
    && (included != [] ==>
          var n := |included| - 1;
          && ThreadsBuilt(env, baseUrl, included[..n], forumItem, topics[..n], replies[..n])
          && ThreadBuilt(env, baseUrl, included[n], forumItem, topics[n], replies[n]))
  }

  /** The items of thread `i` are those built for it. */
  lemma {:induction false} ThreadsBuiltAt(env: Env, baseUrl: string, included: seq<Thread>, forumItem: Item,
                                          topics: seq<Item>, replies: seq<seq<Item>>, i: nat)
    requires ThreadsBuilt(env, baseUrl, included, forumItem, topics, replies) && i < |included|
    ensures ThreadBuilt(env, baseUrl, included[i], forumItem, topics[i], replies[i])
    decreases |included|
  {
    var n := |included| - 1;
    if i < n {
      ThreadsBuiltInit(env, baseUrl, included, forumItem, topics, replies);
      ThreadsBuiltAt(env, baseUrl, included[..n], forumItem, topics[..n], replies[..n], i);
      ThreadBuiltSame(env, baseUrl, included[..n][i], included[i], forumItem, topics[..n][i], topics[i],
                      replies[..n][i], replies[i]);
    } else {
      ThreadsBuiltLast(env, baseUrl, included, forumItem, topics, replies, i);
    }
  }

  lemma ThreadsBuiltInit(env: Env, baseUrl: string, included: seq<Thread>, forumItem: Item, topics: seq<Item>,
                         replies: seq<seq<Item>>)
    requires ThreadsBuilt(env, baseUrl, included, forumItem, topics, replies) && included != []
    ensures var n := |included| - 1; ThreadsBuilt(env, baseUrl, included[..n], forumItem, topics[..n], replies[..n])
  {
  }

  lemma ThreadsBuiltLast(env: Env, baseUrl: string, included: seq<Thread>, forumItem: Item, topics: seq<Item>,
                         replies: seq<seq<Item>>, i: nat)
    requires ThreadsBuilt(env, baseUrl, included, forumItem, topics, replies) && i + 1 == |included|
    ensures ThreadBuilt(env, baseUrl, included[i], forumItem, topics[i], replies[i])
  {
  }

  lemma ThreadBuiltSame(env: Env, baseUrl: string, thread: Thread, thread': Thread, forumItem: Item,
                        topic: Item, topic': Item, replies: seq<Item>, replies': seq<Item>)
    requires ThreadBuilt(env, baseUrl, thread, forumItem, topic, replies)
    requires thread == thread' && topic == topic' && replies == replies'
    ensures ThreadBuilt(env, baseUrl, thread', forumItem, topic', replies')
  {
  }

  lemma ThreadsBuiltSnoc(env: Env, baseUrl: string, included: seq<Thread>, forumItem: Item, topics: seq<Item>,
                         replies: seq<seq<Item>>,
                          thread: Thread, topic: Item, threadReplies: seq<Item>)
    requires ThreadsBuilt(env, baseUrl, included, forumItem, topics, replies)
    requires ThreadBuilt(env, baseUrl, thread, forumItem, topic, threadReplies)
    ensures ThreadsBuilt(env, baseUrl, included + [thread], forumItem, topics + [topic], replies + [threadReplies])
  {
    assert (included + [thread])[..|included|] == included;
    assert (topics + [topic])[..|topics|] == topics;
    assert (replies + [threadReplies])[..|replies|] == replies;
  }

  /** The timestamps a built thread hands to the loops: the topic carries
      the opener's, and reply `k` that of post `k + 1` in reply order. */
  predicate ThreadStamps(now: Timestamp, thread: Thread, topic: Item, replies: seq<Item>)
  {
    && thread.posts != []
    && topic.timestamp == TimeOf(thread.posts[0], now)
    && |replies| == |thread.posts| - 1
    && forall k :: 0 <= k < |replies| ==> replies[k].timestamp == TimeOf(Order(thread.posts)[k + 1], now)
  }

  predicate StampsBuilt(now: Timestamp, included: seq<Thread>, topics: seq<Item>, replies: seq<seq<Item>>)
  {
    && |topics| == |replies| == |included|
    && forall i :: 0 <= i < |included| ==> ThreadStamps(now, included[i], topics[i], replies[i])
  }

  lemma ThreadBuiltStamps(env: Env, baseUrl: string, thread: Thread, forumItem: Item, topic: Item, replies: seq<Item>)
    requires ThreadBuilt(env, baseUrl, thread, forumItem, topic, replies)
    ensures ThreadStamps(env.now, thread, topic, replies)
  {
    var ordered := Order(thread.posts);
    forall k | 0 <= k < |replies|
      ensures replies[k].timestamp == TimeOf(ordered[k + 1], env.now)
    {
      assert IsReplyItem(replies[k], env, baseUrl, ordered[k + 1], k, topic, forumItem.id);
    }
  }

  lemma ThreadsBuiltStamps(env: Env, baseUrl: string, included: seq<Thread>, forumItem: Item, topics: seq<Item>,
                           replies: seq<seq<Item>>)
    requires ThreadsBuilt(env, baseUrl, included, forumItem, topics, replies)
    ensures StampsBuilt(env.now, included, topics, replies)
  {
    forall i | 0 <= i < |included|
      ensures ThreadStamps(env.now, included[i], topics[i], replies[i])
    {
      ThreadsBuiltAt(env, baseUrl, included, forumItem, topics, replies, i);
      ThreadBuiltStamps(env, baseUrl, included[i], forumItem, topics[i], replies[i]);
    }
  }

  /** Event `k` of a built thread carries the time of post `k` in reply
      order: the topic event that of the opener, reply event `k - 1` that
      of the `k`-th post after it. */
  lemma ThreadEventAt(now: Timestamp, thread: Thread, topic: Item, replies: seq<Item>, k: nat)
    requires ThreadStamps(now, thread, topic, replies) && k < |thread.posts|
    ensures k < |ThreadEvents(topic, replies)|
    ensures ThreadEvents(topic, replies)[k].time == TimeOf(Order(thread.posts)[k], now)
  {
    OrderKeepsOpener(thread.posts);
    if k > 0 {
      assert ThreadEvents(topic, replies)[k] == ReplyEvents(topic.id, replies)[k - 1];
    }
  }

  /** Every post of a built thread is seen by the loops as one event of
      its thread, carrying its timestamp: the opener as the topic event,
      any other post as the reply event at its place in reply order. */
  lemma ThreadEventOfPost(now: Timestamp, thread: Thread, topic: Item, replies: seq<Item>, p: Post) returns (k: nat)
    requires ThreadStamps(now, thread, topic, replies)
    requires p in thread.posts
    ensures k < |ThreadEvents(topic, replies)| && ThreadEvents(topic, replies)[k].time == TimeOf(p, now)
  {
    var ordered := Order(thread.posts);
    OrderPermutes(thread.posts);
    assert p in multiset(ordered);
    var j :| 0 <= j < |ordered| && ordered[j] == p;
    ThreadEventAt(now, thread, topic, replies, j);
    k := j;
  }

  /** Conversely, every event of a built thread carries the timestamp of
      one of its posts. */
  lemma PostOfThreadEvent(now: Timestamp, thread: Thread, topic: Item, replies: seq<Item>, k: nat) returns (p: Post)
    requires ThreadStamps(now, thread, topic, replies)
    requires k < |ThreadEvents(topic, replies)|
    ensures p in thread.posts && TimeOf(p, now) == ThreadEvents(topic, replies)[k].time
  {
    var ordered := Order(thread.posts);
    OrderPermutes(thread.posts);
    p := ordered[k];
    assert p in multiset(thread.posts) by {
      assert p in multiset(ordered);
    }
    ThreadEventAt(now, thread, topic, replies, k);
  }

  /** The events of thread `i` sit, in order, inside the forum's events. */
  lemma {:induction false} ForumEventOfThread(topics: seq<Item>, replies: seq<seq<Item>>, i: nat, k: nat)
    returns (m: nat)
    requires |topics| == |replies| && i < |topics| && k < |ThreadEvents(topics[i], replies[i])|
    ensures m < |ForumEvents(topics, replies)|
    ensures ForumEvents(topics, replies)[m] == ThreadEvents(topics[i], replies[i])[k]
    decreases |topics|
  {
    var n := |topics| - 1;
    var prev := ForumEvents(topics[..n], replies[..n]);
    if i == n {
      m := |prev| + k;
    } else {
      m := ForumEventOfThread(topics[..n], replies[..n], i, k);
    }
  }

  /** Every event of the forum belongs to one of its threads. */
  lemma {:induction false} ThreadOfForumEvent(topics: seq<Item>, replies: seq<seq<Item>>, m: nat)
    returns (i: nat, k: nat)
    requires |topics| == |replies| && m < |ForumEvents(topics, replies)|
    ensures i < |topics| && k < |ThreadEvents(topics[i], replies[i])|
    ensures ForumEvents(topics, replies)[m] == ThreadEvents(topics[i], replies[i])[k]
    decreases |topics|
  {
    var n := |topics| - 1;
    var prev := ForumEvents(topics[..n], replies[..n]);
    if m < |prev| {
      i, k := ThreadOfForumEvent(topics[..n], replies[..n], m);
    } else {
      i, k := n, m - |prev|;
    }
  }

  /** Every post of the included threads has an event with its time. */
  predicate EventsCoverPosts(now: Timestamp, included: seq<Thread>, events: seq<Event>)
  {
    forall t, p :: t in included && p in t.posts ==>
      exists m :: 0 <= m < |events| && events[m].time == TimeOf(p, now)
  }

  /** Every event has the time of some post of the included threads. */
  predicate PostsCoverEvents(now: Timestamp, included: seq<Thread>, events: seq<Event>)
  {
    forall m :: 0 <= m < |events| ==>
      exists i, k :: 0 <= i < |included| && 0 <= k < |included[i].posts|
                     && TimeOf(included[i].posts[k], now) == events[m].time
  }

  /** The forum event of a post of a built thread. */
  lemma PostHasEvent(now: Timestamp, included: seq<Thread>, topics: seq<Item>, replies: seq<seq<Item>>, t: Thread,
                      p: Post) returns (m: nat)
    requires StampsBuilt(now, included, topics, replies)
    requires t in included && p in t.posts
    ensures m < |ForumEvents(topics, replies)| && ForumEvents(topics, replies)[m].time == TimeOf(p, now)
  {
    var i :| 0 <= i < |included| && included[i] == t;
    var k := ThreadEventOfPost(now, t, topics[i], replies[i], p);
    m := ForumEventOfThread(topics, replies, i, k);
  }

  lemma PostsHaveEvents(now: Timestamp, included: seq<Thread>, topics: seq<Item>, replies: seq<seq<Item>>)
    requires StampsBuilt(now, included, topics, replies)
    ensures EventsCoverPosts(now, included, ForumEvents(topics, replies))
  {
    forall t, p | t in included && p in t.posts
      ensures exists m :: 0 <= m < |ForumEvents(topics, replies)| && ForumEvents(topics, replies)[m].time == TimeOf(p,
                                                now)
    {
      var m := PostHasEvent(now, included, topics, replies, t, p);
    }
  }

  lemma EventsHavePosts(now: Timestamp, included: seq<Thread>, topics: seq<Item>, replies: seq<seq<Item>>)
    requires StampsBuilt(now, included, topics, replies)
    ensures PostsCoverEvents(now, included, ForumEvents(topics, replies))
  {
    forall m | 0 <= m < |ForumEvents(topics, replies)|
      ensures exists i, k :: 0 <= i < |included| && 0 <= k < |included[i].posts|
                             && TimeOf(included[i].posts[k], now) == ForumEvents(topics, replies)[m].time
    {
      var i, k := ThreadOfForumEvent(topics, replies, m);
      var p := PostOfThreadEvent(now, included[i], topics[i], replies[i], k);
      var k' :| 0 <= k' < |included[i].posts| && included[i].posts[k'] == p;
    }
  }

  lemma CoveringEvent(now: Timestamp, included: seq<Thread>, events: seq<Event>, t: Thread, p: Post) returns (m: nat)
    requires EventsCoverPosts(now, included, events) && t in included && p in t.posts
    ensures m < |events| && events[m].time == TimeOf(p, now)
  {
    var time := TimeOf(p, now);
    assert exists m :: 0 <= m < |events| && events[m].time == time;
    m :| 0 <= m < |events| && events[m].time == time;
  }

  lemma CoveringPost(now: Timestamp, included: seq<Thread>, events: seq<Event>, m: nat) returns (i: nat, k: nat)
    requires PostsCoverEvents(now, included, events) && m < |events|
    ensures i < |included| && k < |included[i].posts| && TimeOf(included[i].posts[k], now) == events[m].time
  {
    var e := events[m];
    assert exists i, k :: 0 <= i < |included| && 0 <= k < |included[i].posts| && TimeOf(included[i].posts[k],
                                                                                        now) == e.time;
    i, k :| 0 <= i < |included| && 0 <= k < |included[i].posts| && TimeOf(included[i].posts[k], now) == e.time;
  }

  /** The forum maximum over events that carry exactly the post timestamps
      is the latest of the start value and every post: no post is later,
      and unless the start value stands it is the time of one of them. */
  lemma ForumLatestIsMax(now: Timestamp, included: seq<Thread>, events: seq<Event>, init: ForumTrack)
    requires EventsCoverPosts(now, included, events) && PostsCoverEvents(now, included, events)
    ensures LatestOfPosts(now, included, init.latest, ForumFold(init, events).latest)
  {
    var moments := Moments(events);
    ForumFoldLatest(init, events);
    TrackIsMax(init.latest, moments);
    TrackFirstToReach(init.latest, moments);
    var r := Track(init.latest, moments);
    forall t, p | t in included && p in t.posts
      ensures !Later(TimeOf(p, now), r.time)
    {
      var m := CoveringEvent(now, included, events, t, p);
      assert moments[m].time == TimeOf(p, now);
    }
    var j := Winner(init.latest, moments);
    if j >= 0 {
      assert moments[j].time == events[j].time;
      var i, k := CoveringPost(now, included, events, j);
      assert included[i] in included && included[i].posts[k] in included[i].posts;
    }
  }

  /** The forum maximum over the events of the built threads is the latest
      of the start value and every post of the included threads. */
  lemma ThreadsLatest(env: Env, baseUrl: string, included: seq<Thread>, forumItem: Item, topics: seq<Item>,
                      replies: seq<seq<Item>>, init: ForumTrack)
    requires ThreadsBuilt(env, baseUrl, included, forumItem, topics, replies)
    ensures LatestOfPosts(env.now, included, init.latest, ForumFold(init, ForumEvents(topics, replies)).latest)
  {
    ThreadsBuiltStamps(env, baseUrl, included, forumItem, topics, replies);
    PostsHaveEvents(env.now, included, topics, replies);
    EventsHavePosts(env.now, included, topics, replies);
    ForumLatestIsMax(env.now, included, ForumEvents(topics, replies), init);
  }

  /** Every built thread contributes one event per post. */
  lemma {:induction false} ForumEventsCount(included: seq<Thread>, topics: seq<Item>, replies: seq<seq<Item>>)
    requires |topics| == |replies| == |included|
    requires forall i :: 0 <= i < |included| ==> |replies[i]| == |included[i].posts| - 1 && included[i].posts != []
    ensures |ForumEvents(topics, replies)| == PostTotal(included)
    decreases |included|
  {
    if included != [] {
      var n := |included| - 1;
      ForumEventsCount(included[..n], topics[..n], replies[..n]);
    }
  }

  /** The forum-scope counters after the first `n` threads: the topics and
      replies added so far, and the forum maximum over their events. */
  predicate ForumTallied(env: Env, baseUrl: string, threads: seq<Thread>, n: nat, range: DateRange, forumItem: Item,
                         topicCount: int, total: int, track: ForumTrack,
                         topics: seq<Item>, replies: seq<seq<Item>>, events: seq<Event>)
  {
    && n <= |threads|
    && topicCount == |Included(threads[..n], range)|
    && total == ReplyTotal(Included(threads[..n], range))
    && ThreadsBuilt(env, baseUrl, Included(threads[..n], range), forumItem, topics, replies)
    && events == ForumEvents(topics, replies)
    && track == ForumFold(ForumTrack(Latest(env.epoch, 0), 0, 0), events)
    && !Later(env.epoch, track.latest.time)
  }

  lemma ForumTalliedStep(env: Env, baseUrl: string, threads: seq<Thread>, n: nat, range: DateRange, forumItem: Item,
                         topicCount: int, total: int, track: ForumTrack,
                         topics: seq<Item>, replies: seq<seq<Item>>, events: seq<Event>,
                         counted: bool, replyCount: int, track': ForumTrack,
                         topic: Item, threadReplies: seq<Item>, threadEvents: seq<Event>)
    requires ForumTallied(env, baseUrl, threads, n, range, forumItem, topicCount, total, track, topics, replies, events)
    requires n < |threads|
    requires counted == Counted(threads[n], range)
    requires counted ==>
      && replyCount == |threadReplies|
      && ThreadBuilt(env, baseUrl, threads[n], forumItem, topic, threadReplies)
      && threadEvents == ThreadEvents(topic, threadReplies)
    requires !counted ==> threadEvents == []
    requires track' == ForumFold(track, threadEvents) && !Later(env.epoch, track'.latest.time)
    ensures ForumTallied(env, baseUrl, threads, n + 1, range, forumItem, topicCount + (if counted then 1 else 0),
                         total + (if counted then replyCount else 0), track',
                         if counted then topics + [topic] else topics,
                         if counted then replies + [threadReplies] else replies, events + threadEvents)
  {
    IncludedStep(threads, n, range);
    ForumFoldAppend(ForumTrack(Latest(env.epoch, 0), 0, 0), events, threadEvents);
    var included := Included(threads[..n + 1], range);
    if counted {
      ThreadsBuiltSnoc(env, baseUrl, Included(threads[..n], range), forumItem, topics, replies, threads[n], topic,
                       threadReplies);
      assert ThreadsBuilt(env, baseUrl, included, forumItem, topics + [topic], replies + [threadReplies]);
      ForumEventsSnoc(topics, replies, topic, threadReplies);
    } else {
      assert included == Included(threads[..n], range) + [] == Included(threads[..n], range);
      assert events + threadEvents == events;
    }
  }

  /** The items of a counted `thread` as they stand in `items`: its topic
      item at `topicAt` with the postmeta of lines 339-347, the opener's
      attachments right after it, then the reply items at `replyAt`, each
      followed by the attachments of its post and each starting where the
      items before it end. */
  predicate ThreadPlaced(items: seq<Item>, env: Env, thread: Thread, forumItem: Item, topic: Item,
                         replies: seq<Item>, topicAt: nat, replyAt: seq<int>)
  {
    && thread.posts != []
    && topicAt < |items|
    && items[topicAt] == topic.(postmeta := TopicMeta(env,
                                 Track(Latest(env.epoch, 0), Moments(ThreadEvents(topic, replies))),
                                 |replies|, LastId(replies), forumItem.id, topic.id, |AuthorSet(thread.posts[1..])|))
    && AttachmentsAt(items, env, topicAt + 1, thread.posts[0], topic)
    && Placed(items, replyAt, replies, topicAt + 1 + |thread.posts[0].attachments|)
    && RepliesAttached(items, env, replyAt, Order(thread.posts), replies)
    && RepliesContiguous(replyAt, Order(thread.posts), topicAt + 1 + |thread.posts[0].attachments|)
  }

  lemma ThreadPlacedExtends(items: seq<Item>, after: seq<Item>, env: Env, thread: Thread, forumItem: Item,
                            topic: Item, replies: seq<Item>, topicAt: nat, replyAt: seq<int>)
    requires ThreadPlaced(items, env, thread, forumItem, topic, replies, topicAt, replyAt) && Extends(items, after)
    ensures ThreadPlaced(after, env, thread, forumItem, topic, replies, topicAt, replyAt)
  {
    ExtendsAt(items, after, topicAt);
    AttachmentsAtExtends(items, after, env, topicAt + 1, thread.posts[0], topic);
    PlacedExtends(items, after, replyAt, replies, topicAt + 1 + |thread.posts[0].attachments|);
    RepliesAttachedExtends(items, after, env, replyAt, Order(thread.posts), replies);
  }

  /** Changing an item before the topic leaves the thread's items in place. */
  lemma ThreadPlacedUpdate(items: seq<Item>, env: Env, thread: Thread, forumItem: Item, topic: Item,
                           replies: seq<Item>, topicAt: nat, replyAt: seq<int>, k: nat, item: Item)
    requires ThreadPlaced(items, env, thread, forumItem, topic, replies, topicAt, replyAt) && k < topicAt
    ensures ThreadPlaced(items[k := item], env, thread, forumItem, topic, replies, topicAt, replyAt)
  {
    var start := topicAt + 1 + |thread.posts[0].attachments|;
    AttachmentsAtUpdate(items, env, topicAt + 1, thread.posts[0], topic, k, item);
    RepliesAttachedUpdate(items, env, replyAt, Order(thread.posts), replies, start, k, item);
    PlacedUpdate(items, replyAt, replies, start, k, item);
  }

  /** The counted threads `included` of one forum, from position `start`
      on: thread `i` is placed at `topicAt[i]`, right where the items of
      the threads before it end, so the topics come in thread order and
      each thread's items end before the next topic. */
  predicate ThreadsPlaced(items: seq<Item>, env: Env, included: seq<Thread>, forumItem: Item, topics: seq<Item>,
                          replies: seq<seq<Item>>, topicAt: seq<nat>, replyAt: seq<seq<int>>, start: nat)
  {
    && |topicAt| == |replyAt| == |topics| == |replies| == |included|
    && (forall i, j :: 0 <= i < j < |topicAt| ==> topicAt[i] < topicAt[j])
    && TopicsContiguous(topicAt, included, start)
    && forall i :: 0 <= i < |topicAt| ==>
         start <= topicAt[i] && ThreadPlaced(items, env, included[i], forumItem, topics[i], replies[i], topicAt[i],
                                             replyAt[i])
  }

  lemma ThreadsPlacedExtends(items: seq<Item>, after: seq<Item>, env: Env, included: seq<Thread>, forumItem: Item,
                             topics: seq<Item>, replies: seq<seq<Item>>, topicAt: seq<nat>, replyAt: seq<seq<int>>,
                             start: nat)
    requires ThreadsPlaced(items, env, included, forumItem, topics, replies, topicAt, replyAt, start)
    requires Extends(items, after)
    ensures ThreadsPlaced(after, env, included, forumItem, topics, replies, topicAt, replyAt, start)
  {
    forall i | 0 <= i < |topicAt|
      ensures ThreadPlaced(after, env, included[i], forumItem, topics[i], replies[i], topicAt[i], replyAt[i])
    {
      ThreadPlacedExtends(items, after, env, included[i], forumItem, topics[i], replies[i], topicAt[i], replyAt[i]);
    }
  }

  /** Changing an item before `start` leaves every thread's items in place. */
  lemma ThreadsPlacedUpdate(items: seq<Item>, env: Env, included: seq<Thread>, forumItem: Item,
                            topics: seq<Item>, replies: seq<seq<Item>>, topicAt: seq<nat>, replyAt: seq<seq<int>>,
                            start: nat, k: nat, item: Item)
    requires ThreadsPlaced(items, env, included, forumItem, topics, replies, topicAt, replyAt, start)
    requires k < start && k < |items|
    ensures ThreadsPlaced(items[k := item], env, included, forumItem, topics, replies, topicAt, replyAt, start)
  {
    forall i | 0 <= i < |topicAt|
      ensures ThreadPlaced(items[k := item], env, included[i], forumItem, topics[i], replies[i], topicAt[i], replyAt[i])
    {
      ThreadPlacedUpdate(items, env, included[i], forumItem, topics[i], replies[i], topicAt[i], replyAt[i], k, item);
    }
  }

  /** A thread placed after every item so far joins the placed threads. */
  lemma ThreadsPlacedSnoc(items: seq<Item>, after: seq<Item>, env: Env, included: seq<Thread>, forumItem: Item,
                          topics: seq<Item>, replies: seq<seq<Item>>, topicAt: seq<nat>, replyAt: seq<seq<int>>,
                          start: nat, thread: Thread, topic: Item, threadReplies: seq<Item>, at: seq<int>)
    requires ThreadsPlaced(items, env, included, forumItem, topics, replies, topicAt, replyAt, start)
    requires |items| == start + ThreadsSpan(included) && Extends(items, after)
    requires ThreadPlaced(after, env, thread, forumItem, topic, threadReplies, |items|, at)
    ensures ThreadsPlaced(after, env, included + [thread], forumItem, topics + [topic], replies + [threadReplies],
                          topicAt + [|items|], replyAt + [at], start)
  {
    ThreadsPlacedExtends(items, after, env, included, forumItem, topics, replies, topicAt, replyAt, start);
    var included', topics', replies' := included + [thread], topics + [topic], replies + [threadReplies];
    var topicAt', replyAt' := topicAt + [|items|], replyAt + [at];
    TopicsContiguousSnoc(topicAt, included, start, thread, |items|);
    forall i | 0 <= i < |topicAt'|
      ensures start <= topicAt'[i]
      ensures ThreadPlaced(after, env, included'[i], forumItem, topics'[i], replies'[i], topicAt'[i], replyAt'[i])
    {
      if i < |topicAt| {
        assert included'[i] == included[i] && topics'[i] == topics[i] && replies'[i] == replies[i];
        assert topicAt'[i] == topicAt[i] && replyAt'[i] == replyAt[i];
      }
    }
    forall i, j | 0 <= i < j < |topicAt'|
      ensures topicAt'[i] < topicAt'[j]
    {
      if j == |topicAt| {
        assert ThreadPlaced(items, env, included[i], forumItem, topics[i], replies[i], topicAt[i], replyAt[i]);
      }
    }
  }

  /** One pass of the thread loop: a counted thread is placed after the
      items so far; a skipped one adds nothing. */
  lemma ThreadsPlacedStep(items: seq<Item>, after: seq<Item>, env: Env, threads: seq<Thread>, n: nat,
                          range: DateRange, forumItem: Item, topics: seq<Item>, replies: seq<seq<Item>>,
                          topicAt: seq<nat>, replyAt: seq<seq<int>>, start: nat,
                          topic: Item, threadReplies: seq<Item>, at: seq<int>, next: nat)
    requires next == |items|
    requires n < |threads| && |items| == start + ThreadsSpan(Included(threads[..n], range))
    requires ThreadsPlaced(items, env, Included(threads[..n], range), forumItem, topics, replies, topicAt, replyAt,
                           start)
    requires Counted(threads[n], range) ==>
      && Extends(items, after) && |after| == |items| + ThreadSpan(threads[n])
      && ThreadPlaced(after, env, threads[n], forumItem, topic, threadReplies, |items|, at)
    requires !Counted(threads[n], range) ==> after == items
    ensures |after| == start + ThreadsSpan(Included(threads[..n + 1], range))
    ensures var counted := Counted(threads[n], range);
      ThreadsPlaced(after, env, Included(threads[..n + 1], range), forumItem,
                    if counted then topics + [topic] else topics,
                    if counted then replies + [threadReplies] else replies,
                    if counted then topicAt + [next] else topicAt,
                    if counted then replyAt + [at] else replyAt, start)
  {
    IncludedStep(threads, n, range);
    var before := Included(threads[..n], range);
    if Counted(threads[n], range) {
      assert Included(threads[..n + 1], range) == before + [threads[n]];
      ThreadsSpanSnoc(before, threads[n]);
      ThreadsPlacedSnoc(items, after, env, before, forumItem, topics, replies, topicAt, replyAt,
                        start, threads[n], topic, threadReplies, at);
    } else {
      assert Included(threads[..n + 1], range) == before;
    }
  }

  /** The forum-scope counters once every thread is through: the topic
      count and reply total of the included threads, and a forum maximum
      that is the latest of their posts. */
  lemma ForumTalliedAll(env: Env, baseUrl: string, threads: seq<Thread>, range: DateRange, forumItem: Item,
                        topicCount: int, total: int, track: ForumTrack,
                        topics: seq<Item>, replies: seq<seq<Item>>, events: seq<Event>)
    requires ForumTallied(env, baseUrl, threads, |threads|, range, forumItem, topicCount, total, track, topics,
                          replies, events)
    ensures var included := Included(threads, range);
      && topicCount == |included| && total == ReplyTotal(included)
      && ThreadsBuilt(env, baseUrl, included, forumItem, topics, replies)
      && events == ForumEvents(topics, replies)
      && |events| == PostTotal(included)
      && track == ForumFold(ForumTrack(Latest(env.epoch, 0), 0, 0), events)
      && LatestOfPosts(env.now, included, Latest(env.epoch, 0), track.latest)
  {
    TakeAll(threads);
    var included := Included(threads, range);
    ThreadsBuiltStamps(env, baseUrl, included, forumItem, topics, replies);
    ForumEventsCount(included, topics, replies);
    ThreadsLatest(env, baseUrl, included, forumItem, topics, replies, ForumTrack(Latest(env.epoch, 0), 0, 0));
  }

  /** The last-active time over the given threads, starting from `start`:
      no post of them is later, and unless `start` stands it is the time of
      one of their posts. */
  predicate LatestOfPosts(now: Timestamp, included: seq<Thread>, start: Latest, latest: Latest)
  {
    && !Later(start.time, latest.time)
    && (forall t, p :: t in included && p in t.posts ==> !Later(TimeOf(p, now), latest.time))
    && (latest == start || exists t, p :: t in included && p in t.posts && TimeOf(p, now) == latest.time)
  }

  /** `events` are the events of the topics and replies built for the
      included threads of `forum`, and those items stand in `items` past
      position `start`, in thread order. */
  ghost predicate EventsOfThreads(items: seq<Item>, env: Env, baseUrl: string, forum: Forum, range: DateRange,
                                  forumItem: Item, events: seq<Event>, start: nat)
  {
    exists topics, replies, topicAt, replyAt ::
      && ThreadsBuilt(env, baseUrl, Included(forum.threads, range), forumItem, topics, replies)
      && ThreadsPlaced(items, env, Included(forum.threads, range), forumItem, topics, replies, topicAt, replyAt, start)
      && events == ForumEvents(topics, replies)
  }

  /** The forum's last-active postmeta is the latest post of its included
      threads, or the export time when none is later. */
  lemma EventsOfThreadsLatest(items: seq<Item>, env: Env, baseUrl: string, forum: Forum, range: DateRange,
                              forumItem: Item, events: seq<Event>, start: nat)
    requires EventsOfThreads(items, env, baseUrl, forum, range, forumItem, events, start)
    ensures LatestOfPosts(env.now, Included(forum.threads, range), Latest(env.epoch, 0),
                          ForumFold(ForumTrack(Latest(env.epoch, 0), 0, 0), events).latest)
  {
    var included := Included(forum.threads, range);
    var topics, replies, topicAt, replyAt :|
      && ThreadsBuilt(env, baseUrl, included, forumItem, topics, replies)
      && ThreadsPlaced(items, env, included, forumItem, topics, replies, topicAt, replyAt, start)
      && events == ForumEvents(topics, replies);
    ThreadsLatest(env, baseUrl, included, forumItem, topics, replies, ForumTrack(Latest(env.epoch, 0), 0, 0));
  }

  lemma EventsOfThreadsExtends(items: seq<Item>, after: seq<Item>, env: Env, baseUrl: string, forum: Forum,
                               range: DateRange, forumItem: Item, events: seq<Event>, start: nat)
    requires EventsOfThreads(items, env, baseUrl, forum, range, forumItem, events, start) && Extends(items, after)
    ensures EventsOfThreads(after, env, baseUrl, forum, range, forumItem, events, start)
  {
    var included := Included(forum.threads, range);
    var topics, replies, topicAt, replyAt :|
      && ThreadsBuilt(env, baseUrl, included, forumItem, topics, replies)
      && ThreadsPlaced(items, env, included, forumItem, topics, replies, topicAt, replyAt, start)
      && events == ForumEvents(topics, replies);
    ThreadsPlacedExtends(items, after, env, included, forumItem, topics, replies, topicAt, replyAt, start);
  }

  /** Item `items[at]` is the forum item of `forum`, with its meta summarising `forumEvents`. */
  predicate ForumPlaced(items: seq<Item>, at: nat, env: Env, baseUrl: string, forum: Forum, creator: string,
                        range: DateRange,
                        forumItem: Item, forumEvents: seq<Event>)
  {
    && at < |items|
    && IsForumItem(forumItem, env, baseUrl, forum, creator)
    && var included := Included(forum.threads, range);
       items[at] == forumItem.(postmeta := ForumMeta(env,
                                 ForumFold(ForumTrack(Latest(env.epoch, 0), 0, 0), forumEvents),
                                 ReplyTotal(included), |included|))
  }

  predicate ForumsPlaced(items: seq<Item>, at: seq<nat>, env: Env, baseUrl: string, forums: seq<Forum>, creator: string,
                         range: DateRange, forumItems: seq<Item>, events: seq<seq<Event>>)
  {
    && |at| == |forumItems| == |events| <= |forums|
    && (forall i, j :: 0 <= i < j < |at| ==> at[i] < at[j])
    && forall i :: 0 <= i < |at| ==> ForumPlaced(items, at[i], env, baseUrl, forums[i], creator, range, forumItems[i],
                                                 events[i])
  }

  lemma ForumPlacedExtends(items: seq<Item>, after: seq<Item>, at: nat, env: Env, baseUrl: string, forum: Forum,
                           creator: string,
                           range: DateRange, forumItem: Item, forumEvents: seq<Event>)
    requires ForumPlaced(items, at, env, baseUrl, forum, creator, range, forumItem, forumEvents)
    requires Extends(items, after)
    ensures ForumPlaced(after, at, env, baseUrl, forum, creator, range, forumItem, forumEvents)
  {
    ExtendsAt(items, after, at);
  }

  lemma ForumsPlacedExtends(items: seq<Item>, after: seq<Item>, at: seq<nat>, env: Env, baseUrl: string,
                            forums: seq<Forum>, creator: string, range: DateRange, forumItems: seq<Item>,
                            events: seq<seq<Event>>)
    requires ForumsPlaced(items, at, env, baseUrl, forums, creator, range, forumItems, events)
    requires Extends(items, after)
    ensures ForumsPlaced(after, at, env, baseUrl, forums, creator, range, forumItems, events)
    ensures forall i :: 0 <= i < |at| ==> at[i] < |items|
  {
    forall i | 0 <= i < |at|
      ensures ForumPlaced(after, at[i], env, baseUrl, forums[i], creator, range, forumItems[i], events[i])
    {
      ForumPlacedExtends(items, after, at[i], env, baseUrl, forums[i], creator, range, forumItems[i], events[i]);
    }
  }

  lemma ForumPlacedSame(items: seq<Item>, at: nat, at': nat, env: Env, baseUrl: string, forum: Forum, creator: string,
                        range: DateRange, forumItem: Item, forumItem': Item, forumEvents: seq<Event>,
                        forumEvents': seq<Event>)
    requires ForumPlaced(items, at, env, baseUrl, forum, creator, range, forumItem, forumEvents)
    requires at == at' && forumItem == forumItem' && forumEvents == forumEvents'
    ensures ForumPlaced(items, at', env, baseUrl, forum, creator, range, forumItem', forumEvents')
  {
  }

  /** A forum placed after every forum so far joins them. */
  lemma ForumsPlacedSnoc(items: seq<Item>, at: seq<nat>, env: Env, baseUrl: string, forums: seq<Forum>,
                         creator: string, range: DateRange, forumItems: seq<Item>, events: seq<seq<Event>>,
                         next: nat, forumItem: Item, forumEvents: seq<Event>)
    requires ForumsPlaced(items, at, env, baseUrl, forums, creator, range, forumItems, events) && |at| < |forums|
    requires forall i :: 0 <= i < |at| ==> at[i] < next
    requires ForumPlaced(items, next, env, baseUrl, forums[|at|], creator, range, forumItem, forumEvents)
    ensures ForumsPlaced(items, at + [next], env, baseUrl, forums, creator, range, forumItems + [forumItem],
                         events + [forumEvents])
  {
    var at', forumItems', events' := at + [next], forumItems + [forumItem], events + [forumEvents];
    forall i | 0 <= i < |at'|
      ensures ForumPlaced(items, at'[i], env, baseUrl, forums[i], creator, range, forumItems'[i], events'[i])
    {
      if i < |at| {
        ForumPlacedSame(items, at[i], at'[i], env, baseUrl, forums[i], creator, range, forumItems[i], forumItems'[i],
                        events[i], events'[i]);
      } else {
        ForumPlacedSame(items, next, at'[i], env, baseUrl, forums[i], creator, range, forumItem, forumItems'[i],
                        forumEvents, events'[i]);
      }
    }
    forall i, j | 0 <= i < j < |at'|
      ensures at'[i] < at'[j]
    {
      assert at'[i] == at[i];
    }
  }

  lemma ForumsPlacedStep(items: seq<Item>, at: seq<nat>, env: Env, baseUrl: string, forums: seq<Forum>, creator: string,
                         range: DateRange, forumItems: seq<Item>, events: seq<seq<Event>>,
                         after: seq<Item>, forumItem: Item, forumEvents: seq<Event>)
    requires ForumsPlaced(items, at, env, baseUrl, forums, creator, range, forumItems, events) && |at| < |forums|
    requires Extends(items, after) && |items| < |after|
    requires ForumPlaced(after, |items|, env, baseUrl, forums[|at|], creator, range, forumItem, forumEvents)
    ensures ForumsPlaced(after, at + [|items|], env, baseUrl, forums, creator, range, forumItems + [forumItem],
                         events + [forumEvents])
  {
    ForumsPlacedExtends(items, after, at, env, baseUrl, forums, creator, range, forumItems, events);
    ForumsPlacedSnoc(after, at, env, baseUrl, forums, creator, range, forumItems, events, |items|, forumItem,
                     forumEvents);
  }

  /** `events[i]` are the events of the items built for the included
      threads of `forums[i]` under forum item `forumItems[i]`, and those
      items stand in `items` past the forum item's position `at[i]`. */
  ghost predicate ForumsBuilt(items: seq<Item>, env: Env, baseUrl: string, forums: seq<Forum>, range: DateRange,
                              forumItems: seq<Item>, events: seq<seq<Event>>, at: seq<nat>)
  {
    && |at| == |forumItems| == |events| <= |forums|
    && forall i :: 0 <= i < |events| ==>
         EventsOfThreads(items, env, baseUrl, forums[i], range, forumItems[i], events[i], at[i] + 1)
  }

  /** The time each forum's `_bbp_last_active_time` formats is that of the
      latest post of its included threads, or the epoch when none is later. */
  lemma ForumsBuiltLatest(items: seq<Item>, env: Env, baseUrl: string, forums: seq<Forum>, range: DateRange,
                          forumItems: seq<Item>, events: seq<seq<Event>>, at: seq<nat>, i: nat)
    requires ForumsBuilt(items, env, baseUrl, forums, range, forumItems, events, at) && i < |events|
    ensures LatestOfPosts(env.now, Included(forums[i].threads, range), Latest(env.epoch, 0),
                          ForumFold(ForumTrack(Latest(env.epoch, 0), 0, 0), events[i]).latest)
  {
    EventsOfThreadsLatest(items, env, baseUrl, forums[i], range, forumItems[i], events[i], at[i] + 1);
  }

  lemma ForumsBuiltSnoc(items: seq<Item>, after: seq<Item>, env: Env, baseUrl: string, forums: seq<Forum>,
                        range: DateRange, forumItems: seq<Item>, events: seq<seq<Event>>, at: seq<nat>,
                        forumItem: Item, forumEvents: seq<Event>, at': seq<nat>)
    requires ForumsBuilt(items, env, baseUrl, forums, range, forumItems, events, at) && |events| < |forums|
    requires Extends(items, after) && at' == at + [|items|]
    requires EventsOfThreads(after, env, baseUrl, forums[|events|], range, forumItem, forumEvents, |items| + 1)
    ensures ForumsBuilt(after, env, baseUrl, forums, range, forumItems + [forumItem], events + [forumEvents], at')
  {
    var forumItems', events' := forumItems + [forumItem], events + [forumEvents];
    forall i | 0 <= i < |events'|
      ensures EventsOfThreads(after, env, baseUrl, forums[i], range, forumItems'[i], events'[i], at'[i] + 1)
    {
      if i < |events| {
        EventsOfThreadsExtends(items, after, env, baseUrl, forums[i], range, forumItems[i], events[i], at[i] + 1);
        EventsOfThreadsSame(after, env, baseUrl, forums[i], range, forumItems[i], forumItems'[i], events[i], events'[i],
                            at[i] + 1, at'[i] + 1);
      } else {
        EventsOfThreadsSame(after, env, baseUrl, forums[i], range, forumItem, forumItems'[i], forumEvents, events'[i],
                            |items| + 1, at'[i] + 1);
      }
    }
  }

  /** What `AddForums` has added to `items` since `start`: the forum items
      at positions `at`, each followed by the items built from its threads. */
  ghost predicate ForumsAdded(start: seq<Item>, items: seq<Item>, at: seq<nat>, env: Env, baseUrl: string,
                              forums: seq<Forum>, creator: string, range: DateRange, forumItems: seq<Item>,
                              events: seq<seq<Event>>)
  {
    && Extends(start, items)
    && ForumsPlaced(items, at, env, baseUrl, forums, creator, range, forumItems, events)
    && ForumsBuilt(items, env, baseUrl, forums, range, forumItems, events, at)
    && forall i :: 0 <= i < |at| ==> |start| <= at[i]
  }

  /** One round of `AddForums`: the forum just added extends both the
      placement and the built-events records. */
  lemma ForumsStep(start: seq<Item>, before: seq<Item>, after: seq<Item>, at: seq<nat>, env: Env, baseUrl: string,
                   forums: seq<Forum>, creator: string, range: DateRange, forumItems: seq<Item>,
                   events: seq<seq<Event>>, forumItem: Item, topics: seq<Item>, replies: seq<seq<Item>>,
                   topicAt: seq<nat>, replyAt: seq<seq<int>>, forumEvents: seq<Event>, at': seq<nat>)
    requires at' == at + [|before|]
    requires ForumsAdded(start, before, at, env, baseUrl, forums, creator, range, forumItems, events)
    requires Extends(before, after) && |before| < |after| && |at| < |forums|
    requires ForumPlaced(after, |before|, env, baseUrl, forums[|at|], creator, range, forumItem, forumEvents)
    requires ThreadsBuilt(env, baseUrl, Included(forums[|at|].threads, range), forumItem, topics, replies)
    requires ThreadsPlaced(after, env, Included(forums[|at|].threads, range), forumItem, topics, replies,
                           topicAt, replyAt, |before| + 1)
    requires |topics| == |replies| && forumEvents == ForumEvents(topics, replies)
    ensures ForumsAdded(start, after, at', env, baseUrl, forums, creator, range, forumItems + [forumItem],
                        events + [forumEvents])
  {
    EventsOfThreadsIntro(after, env, baseUrl, forums[|at|], range, forumItem, topics, replies, topicAt, replyAt,
                         |before| + 1);
    ForumsBuiltSnoc(before, after, env, baseUrl, forums, range, forumItems, events, at, forumItem, forumEvents, at');
    ForumsPlacedStep(before, at, env, baseUrl, forums, creator, range, forumItems, events, after, forumItem,
                     forumEvents);
    ExtendsTrans(start, before, after);
    AtLeastSnoc(at, |start|, |before|);
  }

  lemma EventsOfThreadsIntro(items: seq<Item>, env: Env, baseUrl: string, forum: Forum, range: DateRange,
                             forumItem: Item, topics: seq<Item>, replies: seq<seq<Item>>, topicAt: seq<nat>,
                             replyAt: seq<seq<int>>, start: nat)
    requires ThreadsBuilt(env, baseUrl, Included(forum.threads, range), forumItem, topics, replies)
    requires ThreadsPlaced(items, env, Included(forum.threads, range), forumItem, topics, replies, topicAt, replyAt,
                           start)
    ensures EventsOfThreads(items, env, baseUrl, forum, range, forumItem, ForumEvents(topics, replies), start)
  {
  }

  lemma EventsOfThreadsSame(items: seq<Item>, env: Env, baseUrl: string, forum: Forum, range: DateRange,
                            forumItem: Item, forumItem': Item, events: seq<Event>, events': seq<Event>,
                            start: nat, start': nat)
    requires EventsOfThreads(items, env, baseUrl, forum, range, forumItem, events, start)
    requires forumItem == forumItem' && events == events' && start == start'
    ensures EventsOfThreads(items, env, baseUrl, forum, range, forumItem', events', start')
  {
  }

  class Converter {
    var includeAttachments: string
    var items: seq<Item>

    /** `_add_attachments` (lines 359-375): one attachment item per
        attachment of `post`, in order, hung under `parent`. */
    method AddAttachments(st: State, env: Env, post: Post, parent: Item)
      modifies this`items, st`table, st`nextId, st`slugs
      ensures Extends(old(items), items)
      ensures |items| == |old(items)| + |post.attachments|
      ensures AttachmentsAt(items, env, |old(items)|, post, parent)
    {
      ghost var start := items;
      for k := 0 to |post.attachments|
        invariant Extends(start, items) && |items| == |start| + k
        invariant forall j :: 0 <= j < k ==> IsAttachmentItem(items[|start| + j], env, post.attachments[j], post,
                                                              parent)
      {
        var item := AppendAttachment(st, env, parent, post.attachments[k], post);
      }
    }

    /** One pass of the attachment loop (lines 361-375): the new attachment
        item is appended. */
    method AppendAttachment(st: State, env: Env, parent: Item, attachment: Attachment, post: Post)
      returns (item: Item)
      modifies this`items, st`table, st`nextId, st`slugs
      ensures IsAttachmentItem(item, env, attachment, post, parent)
      ensures items == old(items) + [item]
    {
      ghost var slug, num, num';
      item, slug, num, num' := NewAttachment(st, env, parent, attachment, post);
      assert IsAttachmentItem(item, env, attachment, post, parent);
      items := items + [item];
    }
  
    /** One pass of the reply loop's item work (lines 311-318, 330-337): the
        reply item is appended, then the attachments of its post. */
    method AppendReply(st: State, env: Env, forumId: int, topic: Item, threadId: string, post: Post, i: nat,
                       baseUrl: string) returns (reply: Item)
      modifies this`items, st`table, st`nextId, st`slugs
      ensures IsReplyItem(reply, env, baseUrl, post, i, topic, forumId)
      ensures Extends(old(items) + [reply], items)
      ensures |items| == |old(items)| + 1 + |post.attachments|
      ensures AttachmentsAt(items, env, |old(items)| + 1, post, reply)
    {
      reply := NewReply(st, env, forumId, topic, threadId, post, i, baseUrl);
      assert IsReplyItem(reply, env, baseUrl, post, i, topic, forumId);
      items := items + [reply];
      ghost var at := |items|;
      AddAttachments(st, env, post, reply);
      assert at == |old(items)| + 1;
    }

    /** One pass of the reply loop (lines 310-337): the reply item and its
        attachments are appended, and the topic and forum counters step over
        the new reply. */
    method AddReply(st: State, env: Env, forumId: int, topic: Item, threadId: string, ordered: seq<Post>,
                    baseUrl: string, topicIn: Latest, forumIn: ForumTrack, i: nat,
                    lastActive: Latest, lastReplyId: int, voices: set<string>, forum: ForumTrack,
                    ghost start: seq<Item>, ghost replies: seq<Item>, ghost at: seq<int>)
      returns (reply: Item, lastActive': Latest, forum': ForumTrack)
      requires i + 1 < |ordered| && |replies| == i
      requires Extends(start, items)
      requires RepliesBuilt(replies, env, baseUrl, ordered, topic, forumId)
      requires Placed(items, at, replies, |start|)
      requires RepliesAttached(items, env, at, ordered, replies)
      requires RepliesContiguous(at, ordered, |start|) && |items| == |start| + PostsSpan(ordered[1..i + 1])
      requires Tallied(topicIn, forumIn, topic.id, ordered, replies, lastActive, forum, voices, lastReplyId)
      modifies this`items, st`table, st`nextId, st`slugs
      ensures Extends(start, items)
      ensures RepliesBuilt(replies + [reply], env, baseUrl, ordered, topic, forumId)
      ensures Placed(items, at + [|old(items)|], replies + [reply], |start|)
      ensures RepliesAttached(items, env, at + [|old(items)|], ordered, replies + [reply])
      ensures RepliesContiguous(at + [|old(items)|], ordered, |start|)
      ensures |items| == |start| + PostsSpan(ordered[1..i + 2])
      ensures Tallied(topicIn, forumIn, topic.id, ordered, replies + [reply], lastActive', forum',
                      voices + {ordered[i + 1].author}, reply.id)
    {
      var post := ordered[i + 1];
      ghost var before := items;
      reply := AppendReply(st, env, forumId, topic, threadId, post, i, baseUrl);
      TalliedStep(topicIn, forumIn, topic.id, ordered, replies, lastActive, forum, voices, lastReplyId, reply);
      RepliesBuiltStep(replies, env, baseUrl, ordered, topic, forumId, reply);
      lastActive', forum' := Tally(reply.timestamp, reply.id, topic.id, true, lastActive, forum);
      ReplyPlaced(start, before, items, env, at, ordered, replies, reply);
    }

    /** The reply loop of lines 310-337 over `ordered[1:]`: one reply item
        (followed by its attachments) per post after the opener, with
        menu_order 1..n, and the topic and forum counters kept equal to
        Track and ForumFold of the replies seen. */
    method AddReplies(st: State, env: Env, forumId: int, topic: Item, threadId: string, ordered: seq<Post>,
                      baseUrl: string, topicIn: Latest, forumIn: ForumTrack)
      returns (lastActive: Latest, lastReplyId: int, replyCount: nat, voices: set<string>, forum: ForumTrack,
               ghost replies: seq<Item>, ghost at: seq<int>)
      requires ordered != []
      requires !Later(topicIn.time, forumIn.latest.time)
      modifies this`items, st`table, st`nextId, st`slugs
      ensures Extends(old(items), items)
      ensures |replies| == |at| == replyCount == |ordered| - 1
      ensures RepliesBuilt(replies, env, baseUrl, ordered, topic, forumId)
      ensures Placed(items, at, replies, |old(items)|)
      ensures RepliesAttached(items, env, at, ordered, replies)
      ensures RepliesContiguous(at, ordered, |old(items)|) && |items| == |old(items)| + PostsSpan(ordered[1..])
      ensures Tallied(topicIn, forumIn, topic.id, ordered, replies, lastActive, forum, voices, lastReplyId)
    {
      ghost var start := items;
      lastActive, forum := topicIn, forumIn;
      lastReplyId, replyCount, voices := 0, 0, {};
      replies, at := [], [];
      assert RepliesContiguous(at, ordered, |start|) && PostsSpan(ordered[1..1]) == 0;
      for i := 0 to |ordered| - 1
        invariant Extends(start, items)
        invariant |replies| == |at| == replyCount == i
        invariant RepliesBuilt(replies, env, baseUrl, ordered, topic, forumId)
        invariant Placed(items, at, replies, |start|)
        invariant RepliesAttached(items, env, at, ordered, replies)
        invariant RepliesContiguous(at, ordered, |start|) && |items| == |start| + PostsSpan(ordered[1..i + 1])
        invariant Tallied(topicIn, forumIn, topic.id, ordered, replies, lastActive, forum, voices, lastReplyId)
      {
        var reply;
        ghost var before := items;
        reply, lastActive, forum := AddReply(st, env, forumId, topic, threadId, ordered, baseUrl, topicIn, forumIn, i,
                                             lastActive, lastReplyId, voices, forum, start, replies, at);
        voices := voices + {ordered[i + 1].author};
        lastReplyId := reply.id;
        replyCount := replyCount + 1;
        replies, at := replies + [reply], at + [|before|];
      }
      PostsSpanAll(ordered);
    }

    /** The topic of a counted thread (lines 271-293): its slug is made from
        the subject and the thread id, its id is keyed by the thread id, the
        counters step over it, and the attachments of the opening post
        follow it. */
    method AddTopic(st: State, env: Env, forumItem: Item, thread: Thread, baseUrl: string, forumIn: ForumTrack)
      returns (topic: Item, lastActive: Latest, forum: ForumTrack)
      requires thread.posts != []
      requires !Later(env.epoch, forumIn.latest.time)
      modifies this`items, st`table, st`nextId, st`slugs
      ensures IsTopicItem(topic, env, baseUrl, thread, forumItem)
      ensures Extends(old(items) + [topic], items)
      ensures lastActive == Track(Latest(env.epoch, 0), [Latest(topic.timestamp, topic.id)])
      ensures forum == ForumFold(forumIn, [Event(topic.timestamp, topic.id, topic.id, false)])
      ensures !Later(lastActive.time, forum.latest.time)
      ensures |items| == |old(items)| + 1 + |thread.posts[0].attachments|
      ensures AttachmentsAt(items, env, |old(items)| + 1, thread.posts[0], topic)
    {
      topic := AppendTopic(st, env, forumItem, thread, baseUrl);
      lastActive, forum := Tally(topic.timestamp, topic.id, topic.id, false, Latest(env.epoch, 0), forumIn);
      assert [Event(topic.timestamp, topic.id, topic.id, false)][..0] == [];
      assert [Latest(topic.timestamp, topic.id)][..0] == [];
      AddAttachments(st, env, thread.posts[0], topic);
    }

    /** The topic item of a thread (lines 274-282), appended. */
    method AppendTopic(st: State, env: Env, forumItem: Item, thread: Thread, baseUrl: string) returns (topic: Item)
      requires thread.posts != []
      modifies this`items, st`table, st`nextId, st`slugs
      ensures IsTopicItem(topic, env, baseUrl, thread, forumItem)
      ensures items == old(items) + [topic]
    {
      ghost var slug, num, num';
      topic, slug, num, num' := NewTopic(st, env, forumItem, thread, baseUrl);
      items := items + [topic];
    }

    /** The forum item (lines 250-254), appended. */
    method AppendForum(st: State, env: Env, forum: Forum, baseUrl: string, creator: string) returns (item: Item)
      modifies this`items, st`table, st`nextId, st`slugs
      ensures IsForumItem(item, env, baseUrl, forum, creator)
      ensures items == old(items) + [item]
    {
      ghost var num;
      item, num := NewForum(st, env, forum, baseUrl, creator);
      items := items + [item];
    }

    /** `item.postmeta.update(entries)` on the item at position `k`. */
    method UpdatePostmeta(k: nat, entries: seq<(string, Value)>)
      requires k < |items|
      modifies this`items
      ensures items == old(items)[k := old(items)[k].(postmeta := UpdateMeta(old(items)[k].postmeta, entries))]
    {
      items := items[k := items[k].(postmeta := UpdateMeta(items[k].postmeta, entries))];
    }

    /** A counted thread (lines 271-347): the topic, its attachments and
        its replies in reply order are appended, and the topic's postmeta
        records the counts and maxima over the thread's events. */
    method AddCountedThread(st: State, env: Env, forumItem: Item, thread: Thread, baseUrl: string,
                            forumIn: ForumTrack)
      returns (replyCount: nat, forum: ForumTrack, ghost topic: Item, ghost replies: seq<Item>, ghost at: seq<int>)
      requires thread.posts != []
      requires !Later(env.epoch, forumIn.latest.time)
      modifies this`items, st`table, st`nextId, st`slugs
      ensures Extends(old(items), items)
      ensures replyCount == |replies| == |thread.posts| - 1
      ensures IsTopicItem(topic, env, baseUrl, thread, forumItem)
      ensures AttachmentsAt(items, env, |old(items)| + 1, thread.posts[0], topic)
      ensures RepliesBuilt(replies, env, baseUrl, Order(thread.posts), topic, forumItem.id)
      ensures Placed(items, at, replies, |old(items)| + 1 + |thread.posts[0].attachments|)
      ensures RepliesAttached(items, env, at, Order(thread.posts), replies)
      ensures RepliesContiguous(at, Order(thread.posts), |old(items)| + 1 + |thread.posts[0].attachments|)
      ensures |items| == |old(items)| + ThreadSpan(thread) && |old(items)| < |items|
      ensures items[|old(items)|] == topic.(postmeta := TopicMeta(env,
                Track(Latest(env.epoch, 0), Moments(ThreadEvents(topic, replies))),
                replyCount, LastId(replies), forumItem.id, topic.id, |AuthorSet(thread.posts[1..])|))
      ensures forum == ForumFold(forumIn, ThreadEvents(topic, replies))
      ensures !Later(env.epoch, forum.latest.time)
    {
      var topicAt := |items|;
      var item, lastActive, forum1 := AddTopic(st, env, forumItem, thread, baseUrl, forumIn);
      topic := item;
      ghost var la1 := lastActive;
      var ordered := OrderPosts(thread.id, thread.posts);
      var lastReplyId, voices;
      ghost var before := items;
      lastActive, lastReplyId, replyCount, voices, forum, replies, at :=
        AddReplies(st, env, forumItem.id, item, thread.id, ordered, baseUrl, lastActive, forum1);
      AttachmentsAtExtends(before, items, env, topicAt + 1, thread.posts[0], topic);
      ExtendsTrans(old(items) + [topic], before, items);
      ExtendsSnoc(old(items), topic, items);
      OrderKeepsAuthors(thread.posts);
      AuthorSetTail(ordered, |replies| + 1);
      assert |items| == topicAt + ThreadSpan(thread);
      var meta := TopicMeta(env, lastActive, replyCount, lastReplyId, forumItem.id, item.id, |voices|);
      ghost var updated := items[topicAt].(postmeta := UpdateMeta(items[topicAt].postmeta, meta));
      ExtendsUpdate(old(items), items, topicAt, updated);
      PlacedUpdate(items, at, replies, |before|, topicAt, updated);
      RepliesAttachedUpdate(items, env, at, ordered, replies, |before|, topicAt, updated);
      UpdatePostmeta(topicAt, meta);
      UpdateMetaEmpty(meta);
      ThreadTotals(env.epoch, forumIn, topic, replies, la1, forum1, lastActive, forum);
    }

    /** One thread of a forum (lines 263-347): a thread without posts or
        whose last stored post is dated outside the range is skipped and
        changes nothing; any other becomes a topic. */
    method AddThread(st: State, env: Env, forumItem: Item, thread: Thread, baseUrl: string, range: DateRange,
                     forumIn: ForumTrack)
      returns (counted: bool, replyCount: nat, forum: ForumTrack,
               ghost topic: Item, ghost replies: seq<Item>, ghost at: seq<int>, ghost events: seq<Event>)
      requires LastDated(thread)
      requires !Later(env.epoch, forumIn.latest.time)
      modifies this`items, st`table, st`nextId, st`slugs
      ensures counted == Counted(thread, range)
      ensures Extends(old(items), items)
      ensures !counted ==> items == old(items) && events == [] && st.Ids() == old(st.Ids()) && st.slugs == old(st.slugs)
      ensures counted ==>
        && replyCount == |replies| == |thread.posts| - 1
        && IsTopicItem(topic, env, baseUrl, thread, forumItem)
        && RepliesBuilt(replies, env, baseUrl, Order(thread.posts), topic, forumItem.id)
        && events == ThreadEvents(topic, replies)
        && ThreadPlaced(items, env, thread, forumItem, topic, replies, |old(items)|, at)
        && |items| == |old(items)| + ThreadSpan(thread)
      ensures forum == ForumFold(forumIn, events)
      ensures !Later(env.epoch, forum.latest.time)
    {
      counted := thread.posts != [] && InRange(thread.posts[|thread.posts| - 1].timestamp.value, range);
      if !counted {
        replyCount, forum := 0, forumIn;
        topic, replies, at, events := forumItem, [], [], [];
        return;
      }
      replyCount, forum, topic, replies, at := AddCountedThread(st, env, forumItem, thread, baseUrl, forumIn);
      events := ThreadEvents(topic, replies);
    }

    /** One pass of the thread loop (lines 263-347): thread `n` is added,
        placed after the items so far when it is counted, and the
        forum-scope counters step over it; a skipped thread changes no item. */
    method TallyThread(st: State, env: Env, forumItem: Item, threads: seq<Thread>, n: nat, baseUrl: string,
                       range: DateRange, topicCount: int, total: int, track: ForumTrack,
                       ghost topics: seq<Item>, ghost replies: seq<seq<Item>>, ghost events: seq<Event>,
                       ghost topicAt: seq<nat>, ghost replyAt: seq<seq<int>>, ghost start: nat)
      returns (topicCount': int, total': int, track': ForumTrack,
               ghost topics': seq<Item>, ghost replies': seq<seq<Item>>, ghost events': seq<Event>,
               ghost topicAt': seq<nat>, ghost replyAt': seq<seq<int>>)
      requires n < |threads| && LastDated(threads[n])
      requires ForumTallied(env, baseUrl, threads, n, range, forumItem, topicCount, total, track, topics, replies,
                            events)
      requires |items| == start + ThreadsSpan(Included(threads[..n], range))
      requires ThreadsPlaced(items, env, Included(threads[..n], range), forumItem, topics, replies, topicAt, replyAt,
                             start)
      modifies this`items, st`table, st`nextId, st`slugs
      ensures Extends(old(items), items)
      ensures !Counted(threads[n], range) ==> items == old(items)
      ensures ForumTallied(env, baseUrl, threads, n + 1, range, forumItem, topicCount', total', track', topics',
                           replies', events')
      ensures |items| == start + ThreadsSpan(Included(threads[..n + 1], range))
      ensures ThreadsPlaced(items, env, Included(threads[..n + 1], range), forumItem, topics', replies',
                            topicAt', replyAt', start)
    {
      ghost var before := items;
      var counted, replyCount;
      ghost var topic, threadReplies, at, threadEvents;
      counted, replyCount, track', topic, threadReplies, at, threadEvents :=
        AddThread(st, env, forumItem, threads[n], baseUrl, range, track);
      ForumTalliedStep(env, baseUrl, threads, n, range, forumItem, topicCount, total, track, topics, replies, events,
                       counted, replyCount, track', topic, threadReplies, threadEvents);
      ThreadsPlacedStep(before, items, env, threads, n, range, forumItem, topics, replies, topicAt, replyAt, start,
                        topic, threadReplies, at, |before|);
      topicCount', total' := topicCount, total;
      topics', replies', topicAt', replyAt' := topics, replies, topicAt, replyAt;
      if counted {
        topicCount', total' := topicCount + 1, total + replyCount;
        topics', replies' := topics + [topic], replies + [threadReplies];
        topicAt', replyAt' := topicAt + [|before|], replyAt + [at];
      }
      events' := events + threadEvents;
    }

    /** The thread loop of lines 263-347 over the threads of `forum`: the
        counted threads are placed in order after the items so far, and
        the counters step over every one of them. */
    method AddThreads(st: State, env: Env, forumItem: Item, forum: Forum, baseUrl: string, range: DateRange)
      returns (topicCount: int, total: int, track: ForumTrack,
               ghost topics: seq<Item>, ghost replies: seq<seq<Item>>, ghost events: seq<Event>,
               ghost topicAt: seq<nat>, ghost replyAt: seq<seq<int>>)
      requires ForumDated(forum)
      modifies this`items, st`table, st`nextId, st`slugs
      ensures Extends(old(items), items)
      ensures ForumTallied(env, baseUrl, forum.threads, |forum.threads|, range, forumItem, topicCount, total, track,
                           topics, replies, events)
      ensures |items| == |old(items)| + ThreadsSpan(Included(forum.threads, range))
      ensures ThreadsPlaced(items, env, Included(forum.threads, range), forumItem, topics, replies, topicAt, replyAt,
                            |old(items)|)
    {
      ghost var start := items;
      track := ForumTrack(Latest(env.epoch, 0), 0, 0);
      topicCount, total := 0, 0;
      topics, replies, events, topicAt, replyAt := [], [], [], [], [];
      LaterOrder(env.epoch, env.epoch, env.epoch);
      assert ThreadsPlaced(items, env, [], forumItem, topics, replies, topicAt, replyAt, |start|);
      for n := 0 to |forum.threads|
        invariant Extends(start, items)
        invariant ForumTallied(env, baseUrl, forum.threads, n, range, forumItem, topicCount, total, track,
                               topics, replies, events)
        invariant |items| == |start| + ThreadsSpan(Included(forum.threads[..n], range))
        invariant ThreadsPlaced(items, env, Included(forum.threads[..n], range), forumItem, topics, replies,
                                topicAt, replyAt, |start|)
      {
        ghost var before := items;
        assert forum.threads[n] in forum.threads;
        topicCount, total, track, topics, replies, events, topicAt, replyAt :=
          TallyThread(st, env, forumItem, forum.threads, n, baseUrl, range, topicCount, total, track,
                      topics, replies, events, topicAt, replyAt, |start|);
        ExtendsTrans(start, before, items);
      }
      TakeAll(forum.threads);
    }

    /** One forum (lines 248-357): the forum item, then every thread in
        order, then the forum's postmeta with the topic count, the reply
        total and the forum maxima over the events of its topics. */
    method AddForum(st: State, env: Env, forum: Forum, baseUrl: string, creator: string, range: DateRange)
      returns (ghost forumItem: Item, ghost topics: seq<Item>, ghost replies: seq<seq<Item>>, ghost events: seq<Event>,
               ghost topicAt: seq<nat>, ghost replyAt: seq<seq<int>>)
      requires ForumDated(forum)
      modifies this`items, st`table, st`nextId, st`slugs
      ensures Extends(old(items), items) && |items| == |old(items)| + ForumSpan(forum, range)
      ensures IsForumItem(forumItem, env, baseUrl, forum, creator)
      ensures var included := Included(forum.threads, range);
        var track := ForumFold(ForumTrack(Latest(env.epoch, 0), 0, 0), events);
        && ThreadsBuilt(env, baseUrl, included, forumItem, topics, replies)
        && events == ForumEvents(topics, replies)
        && |events| == PostTotal(included)
        && items[|old(items)|] == forumItem.(postmeta := ForumMeta(env, track, ReplyTotal(included), |included|))
        && LatestOfPosts(env.now, included, Latest(env.epoch, 0), track.latest)
      ensures ThreadsPlaced(items, env, Included(forum.threads, range), forumItem, topics, replies, topicAt, replyAt,
                            |old(items)| + 1)
    {
      var forumAt := |items|;
      var item := AppendForum(st, env, forum, baseUrl, creator);
      forumItem := item;
      ghost var start := items;
      var topicCount, totalReplyCount, track;
      topicCount, totalReplyCount, track, topics, replies, events, topicAt, replyAt :=
        AddThreads(st, env, item, forum, baseUrl, range);
      ForumTalliedAll(env, baseUrl, forum.threads, range, item, topicCount, totalReplyCount, track, topics, replies,
                      events);
      var meta := ForumMeta(env, track, totalReplyCount, topicCount);
      ExtendsSnoc(old(items), item, start);
      ExtendsTrans(old(items), start, items);
      ExtendsAt(start, items, forumAt);
      ghost var updated := items[forumAt].(postmeta := UpdateMeta(items[forumAt].postmeta, meta));
      ExtendsUpdate(old(items), items, forumAt, updated);
      ThreadsPlacedUpdate(items, env, Included(forum.threads, range), item, topics, replies, topicAt, replyAt, |start|,
                          forumAt, updated);
      UpdatePostmeta(forumAt, meta);
      UpdateMetaEmpty(meta);
    }

    /** One pass of the forum loop (lines 246-357): forum `n` is added right
        after the forums before it. */
    method AddForumStep(st: State, env: Env, forums: seq<Forum>, n: nat, baseUrl: string, creator: string,
                        range: DateRange, ghost start: seq<Item>, ghost at: seq<nat>, ghost forumItems: seq<Item>,
                        ghost events: seq<seq<Event>>)
      returns (ghost at': seq<nat>, ghost forumItems': seq<Item>, ghost events': seq<seq<Event>>)
      requires n < |forums| && |at| == n && ForumDated(forums[n])
      requires ForumsAdded(start, items, at, env, baseUrl, forums, creator, range, forumItems, events)
      requires ForumsContiguous(at, forums, range, |start|)
      requires |items| == |start| + ForumsSpan(forums[..n], range)
      modifies this`items, st`table, st`nextId, st`slugs
      ensures |at'| == n + 1
      ensures ForumsAdded(start, items, at', env, baseUrl, forums, creator, range, forumItems', events')
      ensures ForumsContiguous(at', forums, range, |start|)
      ensures |items| == |start| + ForumsSpan(forums[..n + 1], range)
    {
      ghost var before := items;
      ghost var next: nat := |items|;
      ForumsContiguousSnoc(at, forums, range, |start|, next);
      ForumsSpanSnoc(forums, n, range);
      ghost var forumItem, topics, replies, forumEvents, topicAt, replyAt :=
        AddForum(st, env, forums[n], baseUrl, creator, range);
      assert ForumPlaced(items, next, env, baseUrl, forums[n], creator, range, forumItem, forumEvents);
      at' := at + [next];
      ForumsStep(start, before, items, at, env, baseUrl, forums, creator, range, forumItems, events, forumItem,
                 topics, replies, topicAt, replyAt, forumEvents, at');
      forumItems', events' := forumItems + [forumItem], events + [forumEvents];
    }

    /** The forums of the export, in order (lines 246-248), each one's items
        starting where the previous forum's end. */
    method AddForums(st: State, env: Env, forums: seq<Forum>, baseUrl: string, creator: string, range: DateRange)
      returns (ghost at: seq<nat>, ghost forumItems: seq<Item>, ghost events: seq<seq<Event>>)
      requires forall f :: f in forums ==> ForumDated(f)
      modifies this`items, st`table, st`nextId, st`slugs
      ensures Extends(old(items), items)
      ensures |at| == |forums|
      ensures ForumsPlaced(items, at, env, baseUrl, forums, creator, range, forumItems, events)
      ensures ForumsBuilt(items, env, baseUrl, forums, range, forumItems, events, at)
      ensures forall i :: 0 <= i < |at| ==> |old(items)| <= at[i]
      ensures ForumsContiguous(at, forums, range, |old(items)|)
      ensures |items| == |old(items)| + ForumsSpan(forums, range)
    {
      ghost var start := items;
      at, forumItems, events := [], [], [];
      assert ForumsAdded(start, items, at, env, baseUrl, forums, creator, range, forumItems, events);
      for n := 0 to |forums|
        invariant |at| == n
        invariant ForumsAdded(start, items, at, env, baseUrl, forums, creator, range, forumItems, events)
        invariant ForumsContiguous(at, forums, range, |start|)
        invariant |items| == |start| + ForumsSpan(forums[..n], range)
      {
        assert forums[n] in forums;
        at, forumItems, events := AddForumStep(st, env, forums, n, baseUrl, creator, range, start, at, forumItems,
                                               events);
      }
      TakeAll(forums);
    }

    /** `Allura2WPXML.__init__` (lines 237-357) on the forums of the export:
        the id counter restarts at `startId` (the id dictionary and the slug
        list are kept), then every forum is converted in order. */
    constructor (st: State, env: Env, forums: seq<Forum>, startId: int, baseUrl: string, creator: string,
                 includeAttachments: string, range: DateRange)
      requires forall f :: f in forums ==> ForumDated(f)
      modifies st`table, st`nextId, st`slugs
      ensures this.includeAttachments == includeAttachments
      ensures |items| == ForumsSpan(forums, range)
      ensures exists at, forumItems, events ::
                && |at| == |forums|
                && ForumsContiguous(at, forums, range, 0)
                && ForumsPlaced(items, at, env, baseUrl, forums, creator, range, forumItems, events)
                && ForumsBuilt(items, env, baseUrl, forums, range, forumItems, events, at)
    {
      this.includeAttachments := includeAttachments;
      items := [];
      new;
      st.ResetCounter(startId);
      assert |items| == 0;
      ghost var at, forumItems, events := AddForums(st, env, forums, baseUrl, creator, range);
    }

    /** The `xml` property (lines 377-398): the head, the XML of every item
        the attachment filter keeps, in order, and the tail. */
    method ToXml() returns (xml: string)
      ensures xml == Document(items, includeAttachments)
    {
      xml := RenderDocument(items, includeAttachments);
    }
  }
}
