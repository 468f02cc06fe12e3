/** One WordPress export item, as built by `WPXML_Item.__init__`
    (allura2wpxml.py:100-149), and the post-content adapter
    `get_post_content` (lines 60-66). */
module Items {
  import opened Strings
  import opened Times
  import opened Ids
  import opened Source
  import opened RunState
  import opened Seqs

  datatype PostType = Forum | Topic | Reply | Attachment

  function TypeName(t: PostType): string
  {
    match t
    case Forum => "forum"
    case Topic => "topic"
    case Reply => "reply"
    case Attachment => "attachment"
  }

  /** The `wp:post_type` text names the type: distinct types have distinct names. */
  lemma TypeNameInjective(s: PostType, t: PostType)
    requires TypeName(s) == TypeName(t)
    ensures s == t
  {
    assert TypeName(s)[0] == TypeName(t)[0];
    if s.Topic? || t.Topic? {
      assert TypeName(s)[1] == TypeName(t)[1];
    }
  }

  /** A scalar stored in an item or in its postmeta: a string or a Python int. */
  datatype Value = Str(s: string) | Num(n: int)

  /** Python truthiness of the value. */
  predicate Truthy(v: Value)
  {
    match v
    case Str(s) => s != ""
    case Num(n) => n != 0
  }

  /** `unicode(value)` / `'%s' % value`. */
  function Show(v: Value): string
  {
    match v
    case Str(s) => s
    case Num(n) => IntToString(n)
  }

  /** The collaborators the script calls but whose code is not modelled:
      the Markdown adapter `markdown()` (lines 86-97), the wall clock
      (`time.localtime()`, `time.gmtime()`), `time.localtime(0)`, the
      local-to-UTC conversion `time.gmtime(time.mktime(t))`, and the two
      `strftime` formats the script uses. */
  datatype Env = Env(
    markdown: string -> string,
    now: Timestamp,
    nowGmt: Timestamp,
    epoch: Timestamp,
    toGmt: Timestamp -> Timestamp,
    pubDate: Timestamp -> string,
    dateTime: Timestamp -> string)

  /** The permalink templates the script passes as `link` (lines 103, 252,
      280, 313) and the literal URL it passes for attachments (line 368). */
  datatype LinkTemplate = DefaultLink | ForumLink | TopicLink | ReplyLink | Literal(url: string)

  /** `link % locals()` for each template. */
  function FormatLink(t: LinkTemplate, baseUrl: string, postType: PostType, id: int, postName: Value): string
  {
    match t
    case DefaultLink => baseUrl + "?post_type=" + TypeName(postType) + "&p=" + IntToString(id)
    case ForumLink => baseUrl + "forums/forum/" + Show(postName) + "/"
    case TopicLink => baseUrl + "forums/topic/" + Show(postName) + "/"
    case ReplyLink => baseUrl + "forums/reply/" + IntToString(id) + "/"
    case Literal(url) => url
  }

  /** Forum and topic permalinks differ whenever their post names differ,
      so unique slugs give unique permalinks. */
  lemma NamedLinksDistinct(t: LinkTemplate, baseUrl: string, postType: PostType, id1: int, id2: int, n1: Value, n2: Value)
    requires t == ForumLink || t == TopicLink
    requires Show(n1) != Show(n2)
    ensures FormatLink(t, baseUrl, postType, id1, n1) != FormatLink(t, baseUrl, postType, id2, n2)
  {
    var prefix := baseUrl + (if t == ForumLink then "forums/forum/" else "forums/topic/");
    var l1, l2 := FormatLink(t, baseUrl, postType, id1, n1), FormatLink(t, baseUrl, postType, id2, n2);
    assert l1 == prefix + Show(n1) + "/" && l2 == prefix + Show(n2) + "/";
    assert Show(n1) == l1[|prefix|..|l1| - 1];
    assert Show(n2) == l2[|prefix|..|l2| - 1];
  }

  /** Reply permalinks differ whenever their ids differ. */
  lemma ReplyLinksDistinct(baseUrl: string, postType: PostType, id1: int, id2: int, n1: Value, n2: Value)
    requires id1 != id2
    ensures FormatLink(ReplyLink, baseUrl, postType, id1, n1) != FormatLink(ReplyLink, baseUrl, postType, id2, n2)
  {
    var prefix := baseUrl + "forums/reply/";
    var l1, l2 := FormatLink(ReplyLink, baseUrl, postType, id1, n1), FormatLink(ReplyLink, baseUrl, postType, id2, n2);
    assert IntToString(id1) == l1[|prefix|..|l1| - 1];
    assert IntToString(id2) == l2[|prefix|..|l2| - 1];
    if l1 == l2 {
      IntToStringInjective(id1, id2);
    }
  }

  /** The arguments of `WPXML_Item.__init__`; `guid` and `postName` are ""
      where the script passes None (both are only used for their truth value). */
  datatype ItemArgs = ItemArgs(
    parent: Option<Item>, key: Key, postType: PostType, title: string, baseUrl: string,
    link: LinkTemplate, dateTime: Option<Timestamp>, creator: string, guid: string,
    postName: string, content: string, commentStatus: string, pingStatus: string,
    menuOrder: int, password: string, sticky: bool, status: string, excerpt: Value)

  /** The constructor's default arguments (lines 102-107). */
  function Defaults(parent: Option<Item>, key: Key, postType: PostType, title: string, baseUrl: string): ItemArgs
  {
    ItemArgs(parent, key, postType, title, baseUrl, DefaultLink, None, "", "", "", "", "open", "open",
             0, "", false, "publish", Str(""))
  }

  /** A built item: the ordered fields of the OrderedDict (lines 130-149),
      the `timestamp` attribute, the `wp:attachment_url` field the script
      adds to attachments (line 375), and the `postmeta` OrderedDict. The
      `description` field is always empty and the `items` list is never
      filled, so neither is stored. */
  datatype Item = Item(
    title: string, link: string, pubDate: string, creator: string, guid: string,
    content: string, excerpt: Value, id: int, postDate: string, postDateGmt: string,
    commentStatus: string, pingStatus: string, postName: Value, status: string,
    parent: int, menuOrder: int, postType: PostType, password: string, sticky: bool,
    attachmentUrl: Option<string>, timestamp: Timestamp, postmeta: seq<(string, Value)>)

  /** `parent.get('wp:post_id', 0)`: the script passes `{}` for a forum. */
  function ParentId(parent: Option<Item>): int
  {
    if parent.Some? then parent.value.id else 0
  }

  /** The fields of the item once its id and post name are known. */
  function Build(a: ItemArgs, env: Env, id: int, postName: Value): (item: Item)
    ensures Clean(item.content)
    ensures a.guid == "" ==> item.guid == item.link
    ensures item.parent == 0 <==> a.parent.None? || a.parent.value.id == 0
  {
    var timestamp := if a.dateTime.Some? then a.dateTime.value else env.now;
    var timestampGmt := if a.dateTime.Some? then env.toGmt(a.dateTime.value) else env.nowGmt;
    var link := FormatLink(a.link, a.baseUrl, a.postType, id, postName);
    var guid := if a.guid != "" then a.guid else link;
    StripControlClean(a.content);
    Item(Escape(a.title), Escape(link), env.pubDate(timestamp), Escape(a.creator), Escape(guid),
         StripControl(a.content), a.excerpt, id, env.dateTime(timestamp), env.dateTime(timestampGmt),
         a.commentStatus, a.pingStatus, postName, a.status, ParentId(a.parent), a.menuOrder,
         a.postType, Escape(a.password), a.sticky, None, timestamp, [])
  }

  /** The `post_name` rule of `WPXML_Item.__init__` (lines 120-124): the
      given name, else a fresh slug of the title (made at round `num`),
      else the id itself. */
  method ChoosePostName(st: State, a: ItemArgs, id: int) returns (postName: Value, ghost num: nat)
    modifies st`slugs
    ensures a.postName != "" ==> postName == Str(a.postName)
    ensures a.postName == "" && a.title == "" ==> postName == Num(id)
    ensures a.postName == "" && a.title != "" ==> postName.Str? && MadeSlug(old(st.slugs), st.slugs, a.title, postName.s, num)
    ensures a.postName != "" || a.title == "" ==> st.slugs == old(st.slugs)
  {
    num := 1;
    if a.postName != "" {
      postName := Str(a.postName);
    } else if a.title != "" {
      var slug;
      slug, num := st.MakeSlug(a.title);
      postName := Str(slug);
    } else {
      postName := Num(id);
    }
  }

  /** `WPXML_Item.__init__`: allocate the id, then choose the post name,
      then fill in the fields. */
  method NewItem(st: State, env: Env, a: ItemArgs) returns (item: Item, ghost num: nat)
    modifies st`table, st`nextId, st`slugs
    ensures (item.id, st.Ids()) == Allocate(old(st.Ids()), a.key)
    ensures item == Build(a, env, item.id, item.postName)
    ensures a.postName != "" ==> item.postName == Str(a.postName)
    ensures a.postName == "" && a.title == "" ==> item.postName == Num(item.id)
    ensures a.postName == "" && a.title != "" ==> item.postName.Str? && MadeSlug(old(st.slugs), st.slugs, a.title, item.postName.s, num)
    ensures a.postName != "" || a.title == "" ==> st.slugs == old(st.slugs)
  {
    var id := st.GetId(a.key);
    var postName;
    postName, num := ChoosePostName(st, a, id);
    item := Build(a, env, id, postName);
  }

  // ------------------------------------------------------------- postmeta

  /** The keys of an ordered dictionary, in insertion order. */
  function Keys(meta: seq<(string, Value)>): (r: seq<string>)
    ensures |r| == |meta| && forall i :: 0 <= i < |meta| ==> r[i] == meta[i].0
  {
    seq(|meta|, i requires 0 <= i < |meta| => meta[i].0)
  }

  predicate DistinctKeys(meta: seq<(string, Value)>)
  {
    forall i, j :: 0 <= i < j < |meta| ==> meta[i].0 != meta[j].0
  }

  /** `postmeta[key] = value` on an OrderedDict: an existing key keeps its
      place and takes the new value; a new key goes to the end. */
  function SetMeta(meta: seq<(string, Value)>, key: string, v: Value): (r: seq<(string, Value)>)
    ensures key in Keys(meta) ==> |r| == |meta|
    ensures key !in Keys(meta) ==> r == meta + [(key, v)]
  {
    if meta == [] then [(key, v)]
    else if meta[0].0 == key then [(key, v)] + meta[1..]
    else
      assert Keys(meta) == [meta[0].0] + Keys(meta[1..]);
      [meta[0]] + SetMeta(meta[1..], key, v)
  }

  /** SetMeta replaces exactly the entry of an existing key and keeps the keys distinct. */
  lemma SetMetaExisting(meta: seq<(string, Value)>, key: string, v: Value, i: nat)
    requires DistinctKeys(meta) && i < |meta| && meta[i].0 == key
    ensures SetMeta(meta, key, v) == meta[i := (key, v)]
    ensures DistinctKeys(SetMeta(meta, key, v))
  {
    SetMetaFirstMatch(meta, key, v, i);
  }

  /** SetMeta rewrites the first entry carrying the key. */
  lemma {:induction false} SetMetaFirstMatch(meta: seq<(string, Value)>, key: string, v: Value, i: nat)
    requires i < |meta| && meta[i].0 == key
    requires forall j :: 0 <= j < i ==> meta[j].0 != key
    ensures SetMeta(meta, key, v) == meta[i := (key, v)]
  {
    if i > 0 {
      SetMetaFirstMatch(meta[1..], key, v, i - 1);
      UpdateTail(meta, i, (key, v));
    }
  }

  /** `postmeta.update(entries)`: the entries set one after the other. */
  function UpdateMeta(meta: seq<(string, Value)>, entries: seq<(string, Value)>): seq<(string, Value)>
    decreases |entries|
  {
    if entries == [] then meta else UpdateMeta(SetMeta(meta, entries[0].0, entries[0].1), entries[1..])
  }

  /** Updating with keys that are all new and distinct appends the entries in order. */
  lemma {:induction false} UpdateMetaFresh(meta: seq<(string, Value)>, entries: seq<(string, Value)>)
    requires DistinctKeys(meta + entries)
    ensures UpdateMeta(meta, entries) == meta + entries
    decreases |entries|
  {
    if entries != [] {
      var e := entries[0];
      assert (meta + entries)[|meta|] == e;
      assert forall i :: 0 <= i < |meta| ==> Keys(meta)[i] == (meta + entries)[i].0;
      assert e.0 !in Keys(meta);
      assert meta + entries == (meta + [e]) + entries[1..];
      UpdateMetaFresh(meta + [e], entries[1..]);
    }
  }

  /** A fresh OrderedDict updated with distinct keys holds exactly those entries, in order. */
  lemma UpdateMetaEmpty(entries: seq<(string, Value)>)
    requires DistinctKeys(entries)
    ensures UpdateMeta([], entries) == entries
  {
    assert [] + entries == entries;
    UpdateMetaFresh([], entries);
  }

  /** The notice appended to edited posts (lines 43-48). */
  function RevisionNotice(postType: string, mtime: string, author: string): string
  {
    "\n<ul class=\"bbp-reply-revision-log\">\n\t<li class=\"bbp-reply-revision-log-item\">\n\t\tThis "
    + postType + " was modified on " + mtime + " by " + author + ".\n\t</li>\n</ul>"
  }

  /** `get_post_content` (lines 60-66): the rendered text, followed by a
      revision notice exactly when the post was edited. */
  function PostContent(env: Env, post: Post, postType: string): string
  {
    var content := env.markdown(post.text);
    if post.lastEdited != "" then
      content + RevisionNotice(postType, BeforeDot(post.lastEdited), post.author)
    else content
  }

  /** The content starts with the rendered text, and something follows it
      exactly when the post was edited. */
  lemma PostContentShape(env: Env, post: Post, postType: string)
    ensures var r, content := PostContent(env, post, postType), env.markdown(post.text);
      && |content| <= |r| && r[..|content|] == content
      && (r == content <==> post.lastEdited == "")
  {
    var content := env.markdown(post.text);
    if post.lastEdited != "" {
      var notice := RevisionNotice(postType, BeforeDot(post.lastEdited), post.author);
      assert (content + notice)[..|content|] == content;
      assert |notice| > 0;
    }
  }
}
