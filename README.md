# allura2wpxml core, modelled in Dafny

`allura2wpxml.py` converts the forum export of an Allura project (JSON) into
a WordPress/bbPress export document (WXR 1.2). This project models the
bookkeeping at its heart and proves what it promises:

- the identifier allocator `get_id`, including its `if not id` quirk
  (module `Ids`, and the method `RunState.State.GetId` over the
  module-global state);
- the slug registry `make_slug`: the ASCII normaliser (module `Slugs`) and
  the `-N` uniqueness loop over the global `_slugs` list
  (`Slugs.FreeSlug`, `RunState.State.MakeSlug`);
- the item builder `WPXML_Item.__init__`: id allocation, `post_name`,
  link and `guid` defaulting, control-character stripping and the parent id
  (module `Items`);
- the reply orderer of `Allura2WPXML.__init__`, which rebuilds a linear
  reply order from slug paths with two parallel lists (module `Replies`);
- the aggregation pass of `Allura2WPXML.__init__`: threads skipped by the
  empty/date-range test, topic and reply counts, voices, and the running
  "last active" maxima of a topic and of a forum, written into the
  `postmeta` of topic and forum items built earlier (modules `Stats` and
  `Convert`, class `Convert.Converter`);
- the per-item XML field rule of `WPXML_Item.xml` and the attachment filter
  of `Allura2WPXML.xml` (module `Xml`).

The module-global state (`_allura_id_to_wpxml_id`, `_id`, `_slugs`) is the
class `RunState.State`; the converter object is the class
`Convert.Converter`, whose `items` list is a `seq<Item>` that its methods
extend and, for the late postmeta updates, rewrite at a given index. The
pure parts (normaliser, control-character filter, link and name
defaulting, filter predicate, field rule) are functions; every loop of the
source is a method with a loop whose invariants tie it to a specification
function (`Replies.Order`, `Stats.Track`, `Stats.ForumFold`,
`Stats.Included`, `Xml.Document`), and the properties are proved about
those functions. The layout of `items` is stated exactly: each forum item,
topic and reply starts where the items before it end, as counted by
`Convert.PostsSpan`, `Convert.ThreadSpan` and `Convert.ForumsSpan` (one
item per post or forum plus one per attachment, `Convert.ThreadSpanCount`).

Collaborators the script calls but whose code is not modelled (the Markdown
renderer, `strftime`, the wall clock, the conversion of local time to UTC,
the local epoch `time.localtime(0)`) are fields of the parameter
`Items.Env`. Timestamps arrive already parsed into their six fields. A post
whose stored timestamp is null or empty has none (`Source.Post.timestamp`
is an `Option`), and the items built from it are dated by the clock reading
`Env.now`, as `if date_time:` does (`Source.TimeOf`); that date then takes
part in the topic and forum maxima like any other.

Two behaviours of the code are modelled as written:

- `get_id` tests `if not id`, so a key stored with id 0 is allocated again
  (`Ids.ZeroIdReallocated`); with the default start id 1 this never happens.
- The reply orderer inserts each child directly after its parent's first
  occurrence, so children of one parent come out in reverse arrival order,
  not depth-first in arrival order: arrival `a, a/b, a/c, a/b/d` gives
  `a, a/c, a/b, a/b/d` (`Replies.OrderExample`, `Replies.SiblingsReversed`).

## Model

| member | source | states |
|---|---|---|
| Strings.DecimalRoundTrip | allura2wpxml.py:79 | the `'%i' % num` suffix text reads back as `num`: decimal printing has an inverse |
| Strings.DecimalInjective | allura2wpxml.py:79 | distinct suffix numbers print differently |
| Strings.IntToStringInjective | allura2wpxml.py:220-227 | `unicode(value)` of distinct ints differs, so distinct ids render distinctly |
| Strings.Escape | allura2wpxml.py:130-148 | `cgi.escape` never shortens its input |
| Strings.EscapeNoBrackets | allura2wpxml.py:130-148 | escaped text holds no `<` or `>` |
| Strings.UnescapeEscape | allura2wpxml.py:130-148 | `cgi.escape` is undone by reading its three entities back: the round trip returns the input |
| Strings.EscapeInjective | allura2wpxml.py:130-148 | distinct titles, authors and links stay distinct once escaped |
| Strings.StripControl | allura2wpxml.py:129 | the content filter never lengthens its input |
| Strings.StripControlClean | allura2wpxml.py:129 | no character of `[\x00-\x08\x0b\x0c\x0e-\x1f]` survives the filter |
| Strings.StripControlKeepsClean | allura2wpxml.py:129 | content with no such character is left unchanged |
| Strings.StripControlIdempotent | allura2wpxml.py:129 | filtering twice is filtering once |
| Strings.StripControlConcat | allura2wpxml.py:129 | the filter works character by character, so the kept characters stay in order |
| Strings.StripControlCounts | allura2wpxml.py:129 | every other character (tab, LF and CR included) keeps its number of occurrences; the controls drop to zero |
| Strings.BeforeDot | allura2wpxml.py:63 | `split('.')[0]` is the longest prefix without a '.', cut at the first '.' |
| Slugs.KeepSlugCharsClass | allura2wpxml.py:71 | after dropping `[^\w\s.-]` only word characters and separators remain |
| Slugs.KeepSlugCharsCounts | allura2wpxml.py:71 | every word or separator character keeps its number of occurrences, and every other character drops to zero |
| Slugs.KeepSlugCharsConcat | allura2wpxml.py:71 | the filter works character by character, so the kept characters stay in order |
| Slugs.LStrip | allura2wpxml.py:74 | the leading strip returns a suffix of its input whose first character is not stripped |
| Slugs.RStrip | allura2wpxml.py:74 | the trailing strip returns a prefix of its input whose last character is not stripped |
| Slugs.LStripSuffix | allura2wpxml.py:74 | what the leading strip keeps is a suffix of its input |
| Slugs.RStripPrefix | allura2wpxml.py:74 | what the trailing strip keeps is a prefix of its input |
| Slugs.LStripRemoved | allura2wpxml.py:74 | every character the leading strip removes is in the stripped set |
| Slugs.RStripRemoved | allura2wpxml.py:74 | every character the trailing strip removes is in the stripped set |
| Slugs.Strip | allura2wpxml.py:71-74 | `str.strip(chars)` leaves neither end in the stripped set |
| Slugs.StripAt | allura2wpxml.py:71-74 | what `strip` keeps is a contiguous slice of its input |
| Slugs.StripRemoved | allura2wpxml.py:71-74 | `strip` removes only characters of the set, and only from the two ends |
| Slugs.StripKeepsUnstripped | allura2wpxml.py:71-74 | a string whose ends are not in the set is left unchanged |
| Slugs.Lower | allura2wpxml.py:71 | `lower()` lowers each character in place and keeps the length |
| Slugs.CollapseShape | allura2wpxml.py:70 | collapsing `[\s.-]+` runs into '-' leaves only slug characters and no double hyphen, and keeps a leading word character |
| Slugs.StripHyphenShape | allura2wpxml.py:74 | the final `strip('-')` leaves a well-formed slug |
| Slugs.NormalizeIsSlug | allura2wpxml.py:70-74 | for any title the normalised base is lower case, holds only word characters and '-', has no two consecutive '-', and neither starts nor ends with '-' |
| Slugs.NormalizeKeepsSlugs | allura2wpxml.py:70-74 | a well-formed slug is its own normalised base |
| Slugs.NormalizeIdempotent | allura2wpxml.py:70-74 | normalising twice is normalising once |
| Slugs.CandidateInjective | allura2wpxml.py:76-79 | the candidates of successive loop rounds are pairwise distinct |
| Slugs.SuffixedIsSlug | allura2wpxml.py:79 | base + `-N` of a non-empty slug is still a well-formed slug |
| Slugs.TakenBelowAll | allura2wpxml.py:76-80 | "every round before N was taken", stated round by round, is the same as stated for all rounds at once |
| Slugs.FreeSlug | allura2wpxml.py:75-80 | the loop returns the first candidate not already taken: it is not taken, and every earlier candidate is; the loop ends because the taken list is finite |
| Ids.AllocateKeepsDense | allura2wpxml.py:51-57 | with a counter started at 1 or more, ids stay distinct and between the start and the counter, the returned id is recorded, and earlier entries are kept |
| Ids.AllocateFirstUse | allura2wpxml.py:54-56 | a new key gets the current counter value, which no other key holds, and the counter goes up by exactly one |
| Ids.AllocateRepeat | allura2wpxml.py:53-57 | a key seen before (with a nonzero id) gets its stored id back and nothing changes |
| Ids.AllocateIdempotent | allura2wpxml.py:51-57 | asking twice for the same key gives the same id and the same state |
| Ids.AllocateDistinct | allura2wpxml.py:51-57 | distinct keys get distinct ids |
| Ids.ZeroIdReallocated | allura2wpxml.py:54 | with the counter at 0, the first key is stored with id 0 and is allocated again, getting 1, on its next lookup |
| RunState.State.constructor | allura2wpxml.py:39-41 | the globals start empty with the counter at 0 |
| RunState.State.ResetCounter | allura2wpxml.py:240-241 | `_id = start_id` resets only the counter; the id table and the slug list are kept |
| RunState.State.GetId | allura2wpxml.py:51-57 | the id returned and the new table and counter are those of `Ids.Allocate`; the slug list is unchanged |
| RunState.State.MakeSlug | allura2wpxml.py:69-83 | the slug was not in `_slugs`, `_slugs` grows by exactly that entry, and it is the normalised base with the smallest untaken round (`-N`, N ≥ 2, after the bare base) |
| Items.TypeNameInjective | allura2wpxml.py:147 | the `wp:post_type` text names the type: distinct types have distinct names |
| Items.NamedLinksDistinct | allura2wpxml.py:125-126 | forum and topic permalinks differ whenever their post names differ |
| Items.ReplyLinksDistinct | allura2wpxml.py:125-126 | reply permalinks differ whenever their ids differ |
| Items.Build | allura2wpxml.py:119-149 | the stored content is free of control characters, `guid` defaults to the link, and the parent id is 0 exactly when there is no parent or its id is 0 |
| Items.ChoosePostName | allura2wpxml.py:120-124 | an explicit post name is kept; otherwise a title gives a fresh slug registered in `_slugs`, and an empty title gives the numeric id with `_slugs` unchanged |
| Items.NewItem | allura2wpxml.py:108-149 | the id comes from `get_id` on the item's key before the post name is chosen, and the fields are those of Build |
| Items.SetMeta | allura2wpxml.py:336 | `postmeta[key] = value` keeps the size for an existing key and appends a new key at the end |
| Items.SetMetaExisting | allura2wpxml.py:336 | setting an existing key replaces exactly its entry and keeps the keys distinct |
| Items.SetMetaFirstMatch | allura2wpxml.py:336 | the entry replaced is the first carrying the key |
| Items.UpdateMetaFresh | allura2wpxml.py:331-333 | `update` with new distinct keys appends the entries in order |
| Items.UpdateMetaEmpty | allura2wpxml.py:339-357 | a fresh postmeta updated with distinct keys holds exactly those entries, in order |
| Items.PostContentShape | allura2wpxml.py:60-66 | the content starts with the rendered text, and a revision notice follows exactly when the post was edited |
| Replies.ParentSlug | allura2wpxml.py:301 | the parent slug is no longer than the slug |
| Replies.ParentSlugSplit | allura2wpxml.py:301 | the parent slug is the text before the last '/', and empty for a slug without '/' |
| Replies.ParentSlugExamples | allura2wpxml.py:301 | `a/b` has parent `a`, `a/b/d` has parent `a/b`, and `a` has parent "" |
| Replies.IndexOf | allura2wpxml.py:303 | `list.index` finds the first position holding the value |
| Replies.IndexOfFirst | allura2wpxml.py:303 | a value at position i absent before i is found at i |
| Replies.InsertAtParts | allura2wpxml.py:304-305 | `list.insert(k, x)` puts x at k, shifts the tail by one and adds x to the multiset |
| Replies.OrderSnoc | allura2wpxml.py:300-308 | one more post is inserted at its position among the posts placed so far |
| Replies.OrderPermutes | allura2wpxml.py:298-308 | the ordered posts are a permutation of the posts |
| Replies.OrderKeepsOpener | allura2wpxml.py:298-308 | the first post stays at index 0 |
| Replies.OrderKeepsAuthors | allura2wpxml.py:309-320 | the replies `ordered[1:]` have the same authors as `posts[1:]` |
| Replies.OrderKeepsRelativeOrder | allura2wpxml.py:300-308 | placing a post leaves the posts placed before in their relative order, split around the insertion point |
| Replies.OrderPlacement | allura2wpxml.py:301-308 | a '/'-slug whose parent slug is placed lands directly after the parent's first occurrence; any other post is appended |
| Replies.PlacedUnderParent | allura2wpxml.py:302-305 | the insertion point is one past the first post carrying the parent slug |
| Replies.ParentStaysFirst | allura2wpxml.py:302-305 | after such an insertion the parent is still the first post with its slug |
| Replies.SiblingsReversed | allura2wpxml.py:300-308 | two replies to the same placed parent come out later-first, directly after the parent |
| Replies.OrderExample | allura2wpxml.py:298-308 | arrival `a, a/b, a/c, a/b/d` is ordered `a, a/c, a/b, a/b/d` |
| Replies.InsertParallel | allura2wpxml.py:304-305 | inserting at the same index keeps `parent_ids` parallel to `ordered_posts` |
| Replies.LookupParallel | allura2wpxml.py:302-303 | looking up `(thread_id, slug)` in `parent_ids` finds the slug at the same index of the placed posts |
| Replies.OrderPosts | allura2wpxml.py:298-308 | the loop over the two parallel lists produces `Order(posts)` |
| Stats.Included | allura2wpxml.py:263-270 | the threads kept are all non-empty and in the date range |
| Stats.IncludedMembers | allura2wpxml.py:263-270 | a thread becomes a topic exactly when it is in the forum, has posts, and its last stored post's date lies in the inclusive range |
| Stats.IncludedStep | allura2wpxml.py:263-338 | each thread adds one topic, its replies and its posts to the totals when counted, and nothing otherwise |
| Stats.ReplyTotalBound | allura2wpxml.py:338 | the reply total is the post total minus one opener per topic |
| Stats.TrackIsMax | allura2wpxml.py:286-288 | `last_active` is at least the start value and every timestamp processed |
| Stats.Winner | allura2wpxml.py:286-288 | the position `last_active_id` comes from is a processed event or the start value |
| Stats.TrackFirstToReach | allura2wpxml.py:286-288 | `last_active_id` belongs to the first event to reach the maximum: every earlier event is strictly earlier, since the test is a strict `>` |
| Stats.TrackAppend | allura2wpxml.py:286-323 | the running maximum over the topic and then its replies is the maximum continued from the topic's value |
| Stats.ForumFoldAppend | allura2wpxml.py:263-329 | the forum counters carry over from one thread to the next |
| Stats.ForumFoldLatest | allura2wpxml.py:289-291 | `forum_last_active` and its id are the running maximum over everything processed in the forum |
| Stats.ForumFoldGrows | allura2wpxml.py:289-291 | `forum_last_active` never moves backwards |
| Stats.ForumFoldLockstep | allura2wpxml.py:289-292 | `last_topic_id` and `forum_last_reply_id` change only together with `forum_last_active` |
| Stats.ForumLastReplyIsReply | allura2wpxml.py:328 | `forum_last_reply_id` is 0 or the id of a reply processed in the forum |
| Xml.Shows | allura2wpxml.py:391-393 | the test written on the text of the item's `wp:post_type` field holds exactly when the filter keeps the item's type |
| Xml.Kept | allura2wpxml.py:390-394 | the filter never adds items |
| Xml.KeptMembers | allura2wpxml.py:390-394 | an item is written iff it is a non-attachment and the mode is not `only`, or an attachment and the mode is `all` or `only` |
| Xml.KeptAppend | allura2wpxml.py:390-394 | the filter works item by item, so the items keep their order |
| Xml.KeptAll | allura2wpxml.py:390-394 | `all` writes every item |
| Xml.KeptOnly | allura2wpxml.py:390-394 | `only` writes exactly the attachments |
| Xml.KeptOther | allura2wpxml.py:390-394 | `none` and every other mode write exactly the non-attachments |
| Xml.Fields | allura2wpxml.py:130-149 | the item's dictionary holds the twenty fields in constructor order, then `wp:attachment_url` for an attachment |
| Xml.FieldBodyEmpty | allura2wpxml.py:217-222 | an element is empty exactly when a raw key's value prints as "" or a CDATA key's value is falsy |
| Xml.RawFieldsHaveNoTags | allura2wpxml.py:130-148 | the escaped text fields written raw hold no `<` or `>` |
| Xml.SetMetaBlocks | allura2wpxml.py:224-228 | the postmeta blocks follow the dictionary: a new key adds a block at the end, an existing key rewrites its block in place |
| Xml.RenderFields | allura2wpxml.py:212-223 | the field loop writes each field's line, in dictionary order |
| Xml.RenderMeta | allura2wpxml.py:224-228 | the postmeta loop writes one block per entry, in insertion order |
| Xml.RenderItem | allura2wpxml.py:211-229 | the item's XML is its fields, then its postmeta, between `<item>` tags |
| Xml.RenderDocument | allura2wpxml.py:377-398 | the document is the head, the XML of the items the filter keeps, in order, and the tail |
| Convert.ReplyMeta | allura2wpxml.py:331-333 | the three reply postmeta keys are distinct |
| Convert.TopicMeta | allura2wpxml.py:339-347 | the nine topic postmeta keys are distinct |
| Convert.ForumMeta | allura2wpxml.py:348-357 | the ten forum postmeta keys are distinct |
| Convert.ForumBuilt | allura2wpxml.py:250-254 | the forum item: no parent, link = the escaped permalink `forums/forum/<post name>/` and guid = the link, escaped name and creator, dated now, stripped Markdown description, comments closed, no postmeta yet |
| Convert.TopicBuilt | allura2wpxml.py:277-284 | the topic item: under the forum, link = the escaped permalink `forums/topic/<post name>/` and guid = the link, escaped subject, the opener's author and content, dated by the opener's timestamp or, when it has none, by the clock, comments closed |
| Convert.AttachmentBuilt | allura2wpxml.py:363-375 | the attachment item: under its parent, excerpt = parent id, status `inherit`, link and guid = the URL, empty content |
| Convert.ReplyMetaShape | allura2wpxml.py:331-336 | a reply's postmeta is the three fixed entries, then `_bbp_reply_to` exactly when its slug has a '/' |
| Convert.ReplyBuilt | allura2wpxml.py:310-318 | the reply item: under the topic, link = the escaped permalink `forums/reply/<id>/` and guid = the link, menu_order i + 1, no title, the post's author and content, dated by the post's timestamp or, when it has none, by the clock, comments and pings closed, post name = its id |
| Convert.NewAttachment | allura2wpxml.py:361-375 | an attachment item as AttachmentBuilt describes, with `wp:attachment_url` set; its id is `get_id(url)`; `make_slug(title + '-' + post slug)` registers a fresh slug, which is the post name unless it is empty, in which case a second fresh slug of the title (or, for an empty title, the id) is the post name |
| Convert.NewReply | allura2wpxml.py:310-336 | the reply item as ReplyBuilt describes, permalink and guid included; the reply's id is `get_id((thread_id, slug))`; for a '/'-slug `_bbp_reply_to` is then `get_id((thread_id, parent_slug))`, a fresh id when that key was never used; no slug is registered |
| Convert.NewForum | allura2wpxml.py:250-254 | the forum item as ForumBuilt describes, permalink and guid included, with its id from `get_id(forum id)`; its post name is a fresh slug of the forum name registered in `_slugs`, or the id when the name is empty, with `_slugs` unchanged |
| Convert.NewTopic | allura2wpxml.py:276-284 | the topic item as TopicBuilt describes, permalink and guid included, with a fresh slug of subject and thread id registered before its id comes from `get_id(thread id)`; that slug is the post name unless it is empty, in which case a second fresh slug of the subject (or, for an empty subject, the id) is the post name |
| Convert.CountersStep | allura2wpxml.py:286-292 | copying `last_active` into the forum counters equals the forum step on the item, and the topic maximum never passes the forum maximum |
| Convert.Tally | allura2wpxml.py:286-292 | the counter updates for one item are one step of Track (topic) and of ForumFold (forum) |
| Convert.ThreadEvents | allura2wpxml.py:271-329 | the events of a thread: the topic first, then its replies |
| Convert.ThreadsBuiltAt | allura2wpxml.py:263-294 | the items recorded for the i-th included thread are the topic and reply items built for it |
| Convert.ThreadEventAt | allura2wpxml.py:286-329 | the k-th event of a converted thread carries the time of its k-th post in reply order |
| Convert.ThreadEventOfPost | allura2wpxml.py:271-329 | every post of a converted thread is seen by the counter loops as one event with its timestamp |
| Convert.PostOfThreadEvent | allura2wpxml.py:271-329 | every event of a converted thread carries the timestamp of one of its posts |
| Convert.ForumEventOfThread | allura2wpxml.py:263-329 | every event of an included thread is an event of the forum |
| Convert.ThreadOfForumEvent | allura2wpxml.py:263-329 | every event of the forum is an event of one of its included threads |
| Convert.PostsHaveEvents | allura2wpxml.py:263-329 | every post of every included thread has a forum event with its timestamp |
| Convert.EventsHavePosts | allura2wpxml.py:263-329 | every forum event has the timestamp of a post of an included thread |
| Convert.ForumLatestIsMax | allura2wpxml.py:289-291 | over events carrying exactly the post timestamps, `forum_last_active` is no earlier than any post and is the start value or some post's time |
| Convert.ThreadsLatest | allura2wpxml.py:263-329 | over the items built for the included threads, `forum_last_active` is the latest post of those threads, or the start value |
| Convert.EventsOfThreadsLatest | allura2wpxml.py:348-357 | the time a forum's `_bbp_last_active_time` formats is that of the latest post of its included threads, or the epoch when none is later |
| Convert.ForumsBuiltLatest | allura2wpxml.py:348-357 | for every forum converted so far, the `_bbp_last_active_time` it records is that of the latest post of its included threads, or the epoch |
| Convert.ForumEventsCount | allura2wpxml.py:263-329 | the forum sees exactly one event per post of its included threads |
| Convert.ForumTalliedStep | allura2wpxml.py:263-338 | one thread moves the forum counters, the items built and the events folded by exactly that thread's part, or not at all when it is skipped |
| Convert.ForumTalliedAll | allura2wpxml.py:263-357 | once every thread is through, the forum counters hold the topic count and reply total of the included threads, one event per post, and a maximum that is their latest post |
| Convert.ThreadsPlacedStep | allura2wpxml.py:263-347 | the thread loop places a counted thread's topic right where the earlier threads' items end and adds exactly that thread's item count; a skipped thread places and adds nothing |
| Convert.ThreadSpanCount | allura2wpxml.py:285-337 | the items a counted thread adds (its topic, the opener's attachments, then each reply in reply order with its attachments) number one per post plus one per attachment, whatever order the replies are put in |
| Convert.ThreadTotals | allura2wpxml.py:271-329 | the topic counters are the running maximum over the topic and its replies, and the forum counters the forum fold over them |
| Convert.Converter.AddAttachments | allura2wpxml.py:359-375 | one attachment item per attachment, in order, appended after the old items |
| Convert.Converter.AppendAttachment | allura2wpxml.py:361-375 | the attachment item is appended and nothing else in the list changes |
| Convert.Converter.AppendReply | allura2wpxml.py:310-337 | the reply item is appended, then one attachment item per attachment of its post, in order, right after it |
| Convert.Converter.AddReply | allura2wpxml.py:310-337 | one more reply: placed after the earlier ones and followed by its post's attachment items, and voices, `last_reply_id` and both maxima step over it |
| Convert.Converter.AddReplies | allura2wpxml.py:309-337 | one reply item per post of `ordered[1:]`, with menu_order 1..n, in order, each followed by its post's attachment items and each starting where the previous reply's attachments end; exactly those items are added; `reply_count` is n, voices are the reply authors, `last_reply_id` the last reply in ordered position, and the maxima are Track and ForumFold over the replies |
| Convert.Converter.AppendTopic | allura2wpxml.py:276-285 | the topic item is appended and nothing else in the list changes |
| Convert.Converter.AppendForum | allura2wpxml.py:250-255 | the forum item is appended and nothing else in the list changes |
| Convert.Converter.AddTopic | allura2wpxml.py:271-294 | the topic item is appended, then one attachment item per attachment of the opener, in order, right after it; the topic maximum starts from it and the forum step sees it |
| Convert.Converter.UpdatePostmeta | allura2wpxml.py:339-357 | `postmeta.update` on an item built earlier changes only that item's postmeta |
| Convert.Converter.AddCountedThread | allura2wpxml.py:271-347 | the topic's postmeta holds the running maximum and its id over the thread, reply count = posts − 1, `last_reply_id` = the last reply in ordered position, voices = distinct authors of `posts[1:]`; the topic comes first, the opener's attachment items right after it, then each reply in reply order, each followed by its post's attachment items, and nothing else: one item per post and per attachment |
| Convert.Converter.AddThread | allura2wpxml.py:263-347 | an empty or out-of-range thread changes nothing; any other is converted as AddCountedThread says, and the events the forum sees are its topic then its replies |
| Convert.Converter.TallyThread | allura2wpxml.py:263-347 | after each thread the forum counters hold the included threads so far, their reply total, the items built for them and the forum fold over exactly their events; each included thread's topic (with its final postmeta), attachments and replies stand where the previous thread's items end, and `items` ends after the last of them; a skipped thread changes no item |
| Convert.Converter.AddThreads | allura2wpxml.py:263-347 | the thread loop: the counters end on the included threads, and the included threads' items follow the items present before the loop one thread after another, each thread's topic, attachments and replies before the next topic, with nothing else added |
| Convert.Converter.AddForum | allura2wpxml.py:248-357 | the forum's postmeta holds topic count = included threads and reply total = their replies; the events folded are, thread by thread, the topic and reply items built for the included threads, one per post, and the time `_bbp_last_active_time` formats is that of the latest post of those threads (or the epoch); the forum item is followed by exactly the items of its included threads, one thread after another, each topic with its final postmeta |
| Convert.Converter.AddForums | allura2wpxml.py:246-357 | every forum, in order, has its item with its postmeta, folded over the events of the topic and reply items built for its included threads; each forum item stands where the previous forum's items end, followed by its threads' items as AddForum places them, and nothing else is added |
| Convert.Converter.AddForumStep | allura2wpxml.py:246-357 | one pass of the forum loop: the forum's item and its threads' items are added right after those of the earlier forums |
| Convert.Converter.constructor | allura2wpxml.py:237-357 | the filter mode is kept; `items` holds exactly the forums' items: each forum item, with its postmeta over the events of the items built for its included threads, where the previous forum's items end, followed by its threads' topic, reply and attachment items as AddForum places them |
| Convert.Converter.ToXml | allura2wpxml.py:377-398 | the document text is the head, the kept items' XML in order, and the tail |

## Left out

- Reading the JSON file (lines 244-245), the command line `main`, its usage text and every message printed to stderr (lines 81, 401-432): I/O. Only the `forums` key of the document is modelled; the loop ignores every other key.
- The Markdown renderer `markdown()` (lines 86-97): a foreign library call behind string replacements, modelled as the uninterpreted `Env.markdown`.
- The time library: `strptime`, `mktime`, `gmtime`, `localtime` and `strftime` (lines 112-119, 132, 139-140, 266, 339, 348). Timestamps are given as parsed six-field values, so a timestamp `strptime` rejects (which aborts the script) cannot be expressed. Date formatting, the UTC conversion, the wall clock and the local epoch are `Env` fields. Two consequences: the struct_time DST flag (`-1` from `strptime`, `0` or `1` from `localtime`) is not modelled, so a clock-dated item that ties a stored timestamp on the six fields is later in the script (it compares `0 > -1`) but not in `Later`; and one `Env.now` stands for every `localtime()` call, while the script reads the clock again for each undated item (line 116).
- A thread whose last post has a null or empty timestamp makes the `strptime` of line 266 raise and aborts the script. The converter methods require every thread's last post to carry a timestamp (`Stats.LastDated`, `Stats.ForumDated`) instead of modelling that abort; any other post may lack one.
- `unicodedata.normalize('NFKD')` and the ASCII encode of `make_slug` (lines 72-73) are not modelled. The normaliser works on the raw title and drops every non-ASCII character at the `[^\w\s.-]` step, where the script first transliterates a letter with a diacritic to its ASCII base: `é` gives nothing in the model but `e` in the script. NewForum, NewTopic and NewAttachment pass raw titles, so for such titles the model's slugs and post names differ from the script's.
- `urllib.unquote` and `os.path.basename` of attachment URLs (line 361): the attachment title is given with the URL.
- Python `%`-formatting with `locals()` for links (lines 125-126): replaced by one template per post type (`Items.FormatLink`). An attachment's link is its URL, taken literally: the `%(name)s` test of line 125 is not applied to it, so a URL that happens to contain such a pattern is not modelled.
- The UTF-8 encoding of the item text (line 232) and the embedded JavaScript docstring (lines 4-22).
- `self.timestamp_gmt` (line 119): it is set to the local timestamp but never read; the `wp:post_date_gmt` field uses the UTC value, as modelled.
- An item's own `items` list (lines 110, 230-231) is never filled, so its XML has no nested items.
- The example output in the docstring of `WPXML_Item.xml` (lines 153-208) differs from what the code writes (for instance `_edit_last`); the model follows the code.
- Items are values: the late postmeta updates of topic and forum items (lines 339-357) replace the item at its index in `Converter.items`, so aliasing between `wpxml_topic` and the list entry is not modelled.
- Convert.Converter.AddReplies: states the reply items and counters, not the ids the allocator hands out across the replies (each reply's ids are stated by Convert.NewReply).
