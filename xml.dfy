/** The text output of allura2wpxml.py: the per-item XML of
    `WPXML_Item.xml` (allura2wpxml.py:151-233) and the attachment filter of
    `Allura2WPXML.xml` (lines 377-398). */
module Xml {
  import opened Strings
  import opened Items
  import opened Seqs

  // ------------------------------------------------------------------ filter

  /** The test of lines 391-393 for an item of type `t` under the
      `include_attachments` mode. */
  predicate Keep(t: PostType, mode: string)
  {
    (t != PostType.Attachment && mode != "only") || (t == PostType.Attachment && (mode == "all" || mode == "only"))
  }

  /** The items the document shows, in their order. */
  function Kept(items: seq<Item>, mode: string): (r: seq<Item>)
    ensures |r| <= |items|
  {
    if items == [] then []
    else
      var last := items[|items| - 1];
      Kept(items[..|items| - 1], mode) + (if Keep(last.postType, mode) then [last] else [])
  }

  lemma KeptSnoc(items: seq<Item>, item: Item, mode: string)
    ensures Kept(items + [item], mode) == Kept(items, mode) + (if Keep(item.postType, mode) then [item] else [])
    ensures Keep(item.postType, mode) ==> Kept(items + [item], mode) == Kept(items, mode) + [item]
    ensures !Keep(item.postType, mode) ==> Kept(items + [item], mode) == Kept(items, mode)
  {
    SnocInit(items, item);
    assert Kept(items, mode) + [] == Kept(items, mode);
  }

  /** An item is shown exactly when it is converted and its type passes the filter. */
  lemma {:induction false} KeptMembers(items: seq<Item>, mode: string, x: Item)
    ensures x in Kept(items, mode) <==> x in items && Keep(x.postType, mode)
  {
    if items != [] {
      var init := items[..|items| - 1];
      KeptMembers(init, mode, x);
      LastSplit(items);
    }
  }

  /** The filter works item by item, so the order of the items is kept. */
  lemma {:induction false} KeptAppend(a: seq<Item>, b: seq<Item>, mode: string)
    ensures Kept(a + b, mode) == Kept(a, mode) + Kept(b, mode)
  {
    if b == [] {
      assert a + b == a;
    } else {
      var init, last := b[..|b| - 1], b[|b| - 1];
      KeptAppend(a, init, mode);
      AppendInit(a, b);
      KeptSnoc(a + init, last, mode);
      KeptSnoc(init, last, mode);
      LastSplit(b);
      AppendAssoc(Kept(a, mode), Kept(init, mode), if Keep(last.postType, mode) then [last] else []);
    }
  }

  /** "all" shows every item. */
  lemma {:induction false} KeptAll(items: seq<Item>)
    ensures Kept(items, "all") == items
  {
    if items != [] {
      KeptAll(items[..|items| - 1]);
      LastSplit(items);
    }
  }

  /** "only" shows the attachments and nothing else. */
  lemma KeptOnly(items: seq<Item>, x: Item)
    ensures x in Kept(items, "only") <==> x in items && x.postType == PostType.Attachment
  {
    KeptMembers(items, "only", x);
  }

  /** "none", and every mode other than "all" and "only", shows the
      items that are not attachments. */
  lemma {:induction false} KeptOther(items: seq<Item>, mode: string)
    requires mode != "all" && mode != "only"
    ensures Kept(items, mode) == Kept(items, "none")
    ensures forall x :: x in Kept(items, mode) <==> x in items && x.postType != PostType.Attachment
  {
    if items != [] {
      KeptOther(items[..|items| - 1], mode);
    }
    forall x
      ensures x in Kept(items, mode) <==> x in items && x.postType != PostType.Attachment
    {
      KeptMembers(items, mode, x);
    }
  }

  // ------------------------------------------------------------- item fields

  /** The keys of the item's OrderedDict in insertion order (lines 130-149). */
  const FieldNames: seq<string> := [
    "title", "link", "pubDate", "dc:creator", "guid", "description", "content:encoded",
    "excerpt:encoded", "wp:post_id", "wp:post_date", "wp:post_date_gmt", "wp:comment_status",
    "wp:ping_status", "wp:post_name", "wp:status", "wp:post_parent", "wp:menu_order",
    "wp:post_type", "wp:post_password", "wp:is_sticky"]

  /** The keys whose value is written as is (lines 217-220). */
  const RawKeys: set<string> := {
    "title", "link", "pubDate", "guid", "description", "wp:post_id", "wp:post_parent",
    "wp:menu_order", "wp:is_sticky"}

  /** The OrderedDict of an item: the twenty fields of the constructor,
      then `wp:attachment_url` for an attachment (line 375). */
  function Fields(item: Item): (r: seq<(string, Value)>)
    ensures |r| == |FieldNames| + (if item.attachmentUrl.Some? then 1 else 0)
    ensures forall i :: 0 <= i < |FieldNames| ==> r[i].0 == FieldNames[i]
    ensures item.attachmentUrl.Some? ==> r[|FieldNames|] == ("wp:attachment_url", Str(item.attachmentUrl.value))
  {
    [("title", Str(item.title)),
     ("link", Str(item.link)),
     ("pubDate", Str(item.pubDate)),
     ("dc:creator", Str(item.creator)),
     ("guid", Str(item.guid)),
     ("description", Str("")),
     ("content:encoded", Str(item.content)),
     ("excerpt:encoded", item.excerpt),
     ("wp:post_id", Num(item.id)),
     ("wp:post_date", Str(item.postDate)),
     ("wp:post_date_gmt", Str(item.postDateGmt)),
     ("wp:comment_status", Str(item.commentStatus)),
     ("wp:ping_status", Str(item.pingStatus)),
     ("wp:post_name", item.postName),
     ("wp:status", Str(item.status)),
     ("wp:post_parent", Num(item.parent)),
     ("wp:menu_order", Num(item.menuOrder)),
     ("wp:post_type", Str(TypeName(item.postType))),
     ("wp:post_password", Str(item.password)),
     ("wp:is_sticky", Num(if item.sticky then 1 else 0))]
    + (if item.attachmentUrl.Some? then [("wp:attachment_url", Str(item.attachmentUrl.value))] else [])
  }

  /** The opening tag of a field; `guid` carries `isPermaLink="false"`. */
  function OpenTag(key: string): string
  {
    if key == "guid" then "\t\t<" + key + " isPermaLink=\"false\">" else "\t\t<" + key + ">"
  }

  /** What goes between the tags: a raw key's value as text, any other
      value inside CDATA when it is truthy and nothing when it is not. */
  function FieldBody(key: string, v: Value): string
  {
    if key in RawKeys then Show(v)
    else if Truthy(v) then "<![CDATA[" + Show(v) + "]]>"
    else ""
  }

  /** One field line of lines 213-223. */
  function FieldXml(key: string, v: Value): string
  {
    OpenTag(key) + FieldBody(key, v) + "</" + key + ">\n"
  }

  /** One `wp:postmeta` block of lines 224-228. */
  function MetaXml(key: string, v: Value): string
  {
    "\t\t<wp:postmeta>\n"
    + "\t\t\t<wp:meta_key><![CDATA[" + key + "]]></wp:meta_key>\n"
    + "\t\t\t<wp:meta_value><![CDATA[" + Show(v) + "]]></wp:meta_value>\n"
    + "\t\t</wp:postmeta>\n"
  }

  /** The field lines of the given entries, in order. */
  function FieldLines(fields: seq<(string, Value)>): (r: seq<string>)
    ensures |r| == |fields| && forall i :: 0 <= i < |r| ==> r[i] == FieldXml(fields[i].0, fields[i].1)
  {
    seq(|fields|, i requires 0 <= i < |fields| => FieldXml(fields[i].0, fields[i].1))
  }

  /** The postmeta blocks of the given entries, in order. */
  function MetaBlocks(meta: seq<(string, Value)>): (r: seq<string>)
    ensures |r| == |meta| && forall i :: 0 <= i < |r| ==> r[i] == MetaXml(meta[i].0, meta[i].1)
  {
    seq(|meta|, i requires 0 <= i < |meta| => MetaXml(meta[i].0, meta[i].1))
  }

  lemma FieldLinesSnoc(fields: seq<(string, Value)>, i: nat)
    requires i < |fields|
    ensures FieldLines(fields[..i + 1]) == FieldLines(fields[..i]) + [FieldXml(fields[i].0, fields[i].1)]
  {
  }

  lemma MetaBlocksSnoc(meta: seq<(string, Value)>, i: nat)
    requires i < |meta|
    ensures MetaBlocks(meta[..i + 1]) == MetaBlocks(meta[..i]) + [MetaXml(meta[i].0, meta[i].1)]
  {
  }

  /** `WPXML_Item.xml`: the item's own `items` list is never filled, so
      nothing follows the closing tag. */
  function ItemXml(item: Item): string
  {
    "\t<item>\n" + Join(FieldLines(Fields(item))) + Join(MetaBlocks(item.postmeta)) + "\t</item>\n"
  }

  /** The postmeta blocks follow the OrderedDict: setting a new key adds
      its block at the end, and setting a key already present rewrites its
      block where it stands, leaving every other block in place. */
  lemma SetMetaBlocks(meta: seq<(string, Value)>, key: string, v: Value)
    requires DistinctKeys(meta)
    ensures key !in Keys(meta) ==> Join(MetaBlocks(SetMeta(meta, key, v))) == Join(MetaBlocks(meta)) + MetaXml(key, v)
    ensures forall i :: 0 <= i < |meta| && meta[i].0 == key ==>
              MetaBlocks(SetMeta(meta, key, v)) == MetaBlocks(meta)[i := MetaXml(key, v)]
  {
    if key !in Keys(meta) {
      assert MetaBlocks(meta + [(key, v)]) == MetaBlocks(meta) + [MetaXml(key, v)];
      JoinSnoc(MetaBlocks(meta), MetaXml(key, v));
    }
    forall i | 0 <= i < |meta| && meta[i].0 == key
      ensures MetaBlocks(SetMeta(meta, key, v)) == MetaBlocks(meta)[i := MetaXml(key, v)]
    {
      SetMetaExisting(meta, key, v, i);
    }
  }

  /** A falsy value of a CDATA key leaves the element empty (no CDATA
      section at all), while a raw key always shows its value. */
  lemma FieldBodyEmpty(key: string, v: Value)
    ensures FieldBody(key, v) == "" <==> (key in RawKeys && Show(v) == "") || (key !in RawKeys && !Truthy(v))
  {
    if key !in RawKeys && Truthy(v) {
      assert FieldBody(key, v)[0] == '<';
    }
  }

  /** The raw text fields of a built item are escaped, so none of them
      can open or close a tag in the document. */
  lemma RawFieldsHaveNoTags(a: ItemArgs, env: Env, id: int, postName: Value)
    ensures var item := Build(a, env, id, postName);
      forall s :: s in [item.title, item.link, item.guid] ==> '<' !in s && '>' !in s
  {
    var item := Build(a, env, id, postName);
    var link := FormatLink(a.link, a.baseUrl, a.postType, id, postName);
    EscapeNoBrackets(a.title);
    EscapeNoBrackets(link);
    EscapeNoBrackets(if a.guid != "" then a.guid else link);
  }

  /** The `for key, value in self.iteritems()` loop of lines 212-223. */
  method RenderFields(fields: seq<(string, Value)>) returns (xml: string)
    ensures xml == Join(FieldLines(fields))
  {
    xml := "";
    for i := 0 to |fields|
      invariant xml == Join(FieldLines(fields[..i]))
    {
      var (key, value) := fields[i];
      FieldLinesSnoc(fields, i);
      JoinSnoc(FieldLines(fields[..i]), FieldXml(key, value));
      xml := xml + FieldXml(key, value);
    }
    TakeAll(fields);
  }

  /** The `for meta_key, meta_value in self.postmeta.iteritems()` loop of
      lines 224-228. */
  method RenderMeta(meta: seq<(string, Value)>) returns (xml: string)
    ensures xml == Join(MetaBlocks(meta))
  {
    xml := "";
    for i := 0 to |meta|
      invariant xml == Join(MetaBlocks(meta[..i]))
    {
      var (key, value) := meta[i];
      MetaBlocksSnoc(meta, i);
      JoinSnoc(MetaBlocks(meta[..i]), MetaXml(key, value));
      xml := xml + MetaXml(key, value);
    }
    TakeAll(meta);
  }

  /** `WPXML_Item.xml`, lines 211-229. */
  method RenderItem(item: Item) returns (xml: string)
    ensures xml == ItemXml(item)
  {
    var fields := RenderFields(Fields(item));
    var meta := RenderMeta(item.postmeta);
    xml := "\t<item>\n" + fields + meta + "\t</item>\n";
  }

  // ---------------------------------------------------------------- document

  /** The document head of lines 379-388. */
  const Header: string :=
    "<rss version=\"2.0\"\n"
    + "\txmlns:excerpt=\"http://wordpress.org/export/1.2/excerpt/\"\n"
    + "\txmlns:content=\"http://purl.org/rss/1.0/modules/content/\"\n"
    + "\txmlns:wfw=\"http://wellformedweb.org/CommentAPI/\"\n"
    + "\txmlns:dc=\"http://purl.org/dc/elements/1.1/\"\n"
    + "\txmlns:wp=\"http://wordpress.org/export/1.2/\"\n"
    + ">\n"
    + "\n"
    + "<channel>\n"
    + "\t<wp:wxr_version>1.2</wp:wxr_version>\n"

  /** The document tail of lines 395-396. */
  const Footer: string := "</channel>\n</rss>\n"

  /** The items' XML, one after the other. */
  function ItemBlocks(items: seq<Item>): (r: seq<string>)
    ensures |r| == |items| && forall i :: 0 <= i < |r| ==> r[i] == ItemXml(items[i])
  {
    seq(|items|, i requires 0 <= i < |items| => ItemXml(items[i]))
  }

  lemma ItemBlocksSnoc(items: seq<Item>, item: Item)
    ensures ItemBlocks(items + [item]) == ItemBlocks(items) + [ItemXml(item)]
  {
  }

  /** What one more item adds to the shown part of the document. */
  lemma ShownStep(items: seq<Item>, i: nat, mode: string)
    requires i < |items|
    ensures Keep(items[i].postType, mode) ==>
              Join(ItemBlocks(Kept(items[..i + 1], mode))) == Join(ItemBlocks(Kept(items[..i], mode))) + ItemXml(items[i])
    ensures !Keep(items[i].postType, mode) ==>
              Join(ItemBlocks(Kept(items[..i + 1], mode))) == Join(ItemBlocks(Kept(items[..i], mode)))
  {
    var shown := Kept(items[..i], mode);
    TakeSnoc(items, i);
    KeptSnoc(items[..i], items[i], mode);
    ItemBlocksSnoc(shown, items[i]);
    JoinSnoc(ItemBlocks(shown), ItemXml(items[i]));
  }

  /** The whole document for the given items under the given mode. */
  function Document(items: seq<Item>, mode: string): string
  {
    Header + Join(ItemBlocks(Kept(items, mode))) + Footer
  }

  /** The test of lines 391-393 as the script writes it, on the text of the
      item's `wp:post_type` field: it is the filter Keep. */
  method Shows(item: Item, mode: string) returns (shown: bool)
    ensures shown <==> Keep(item.postType, mode)
  {
    var isAttachment := TypeName(item.postType) == "attachment";
    if isAttachment {
      TypeNameInjective(item.postType, PostType.Attachment);
    }
    shown := (!isAttachment && mode != "only") || (isAttachment && (mode == "all" || mode == "only"));
  }

  /** The `xml` property of the document (lines 377-398): the head, the
      XML of every item the attachment filter keeps, in order, and the
      tail. */
  method RenderDocument(items: seq<Item>, mode: string) returns (xml: string)
    ensures xml == Document(items, mode)
  {
    xml := Header;
    ghost var head := xml;
    for i := 0 to |items|
      invariant xml == head + Join(ItemBlocks(Kept(items[..i], mode)))
    {
      var item := items[i];
      ShownStep(items, i, mode);
      var shown := Shows(item, mode);
      if shown {
        var itemXml := RenderItem(item);
        AppendAssoc(head, Join(ItemBlocks(Kept(items[..i], mode))), itemXml);
        xml := xml + itemXml;
      }
    }
    TakeAll(items);
    xml := xml + Footer;
  }
}
