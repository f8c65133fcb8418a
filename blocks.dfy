/** Block extraction and the cleaned-HTML projection of scraper.py
    (`extract_blocks`, `clean_html`).

    A parsed page is modelled as the sequence of its elements in document
    order, after noise removal (`remove_noise`) has deleted the script,
    style, nav, footer, header, aside and noscript subtrees.  Each element
    carries its tag name and its flattened text, that is the value of
    `get_text(separator=" ", strip=True)`. */
module Blocks {
  import opened Wrappers
  import opened Strings

  datatype Element = Element(tag: string, text: string)

  /** CONTENT_TAGS, the whitelist both walks visit. */
  const ContentTags: seq<string> :=
    ["h1", "h2", "h3", "h4", "h5", "p", "li", "pre", "code", "table", "blockquote"]

  datatype BlockType = SectionHeader | CodeExample | ListItem | TableBlock | InlineNote | Paragraph

  datatype Block = Block(
    blockId: string,
    order: nat,
    section: Option<string>,
    blockType: BlockType,
    tagName: string,
    text: string)

  /** The JSON object written per page: `{"url": ..., "blocks": [...]}`. */
  datatype PageBlocks = PageBlocks(url: string, blocks: seq<Block>)

  // ---------------------------------------------------------------------
  // The walk over the document
  // ---------------------------------------------------------------------

  /** `soup.find_all(CONTENT_TAGS)`: the whitelisted elements, in document order. */
  function FindAll(doc: seq<Element>): (r: seq<Element>)
    ensures |r| <= |doc|
  {
    if doc == [] then []
    else
      var last := doc[|doc| - 1];
      FindAll(doc[..|doc| - 1]) + (if last.tag in ContentTags then [last] else [])
  }

  /** `find_all` keeps exactly the whitelisted elements. */
  lemma {:induction false} FindAllMembers(doc: seq<Element>)
    ensures forall e :: e in FindAll(doc) <==> e in doc && e.tag in ContentTags
  {
    if doc != [] {
      var pre := doc[..|doc| - 1];
      FindAllMembers(pre);
      assert doc == pre + [doc[|doc| - 1]];
    }
  }

  /** The visited elements whose text is not empty, in order; an element
      with empty text is skipped by both walks. */
  function Kept(elems: seq<Element>): (r: seq<Element>)
    ensures |r| <= |elems|
  {
    if elems == [] then []
    else
      var last := elems[|elems| - 1];
      Kept(elems[..|elems| - 1]) + (if last.text != "" then [last] else [])
  }

  /** The kept elements are exactly those with non-empty text. */
  lemma {:induction false} KeptMembers(elems: seq<Element>)
    ensures forall e :: e in Kept(elems) <==> e in elems && e.text != ""
  {
    if elems != [] {
      var pre := elems[..|elems| - 1];
      KeptMembers(pre);
      assert elems == pre + [elems[|elems| - 1]];
    }
  }

  /** `tag.name.startswith("h")`. */
  predicate IsHeading(tag: string) {
    |tag| > 0 && tag[0] == 'h'
  }

  /** The type of a block that is not a heading. */
  function Classify(tag: string): BlockType {
    if tag == "pre" || tag == "code" then CodeExample
    else if tag == "li" then ListItem
    else if tag == "table" then TableBlock
    else if tag == "blockquote" then InlineNote
    else Paragraph
  }

  /** The current section after the kept elements `seen`: the text of the
      last heading among them, or None when there is none. */
  function CurrentSection(seen: seq<Element>): Option<string> {
    if seen == [] then None
    else if IsHeading(seen[|seen| - 1].tag) then Some(seen[|seen| - 1].text)
    else CurrentSection(seen[..|seen| - 1])
  }

  /** The block made for the last of the kept elements `seen`, numbered `order`. */
  function MakeBlock(order: nat, seen: seq<Element>): Block
    requires seen != []
  {
    var e := seen[|seen| - 1];
    Block("b" + DecimalString(order), order, CurrentSection(seen),
          if IsHeading(e.tag) then SectionHeader else Classify(e.tag),
          e.tag, e.text)
  }

  /** One block per kept element, the last one numbered `|kept|`. */
  function Numbered(kept: seq<Element>): (r: seq<Block>)
    ensures |r| == |kept|
  {
    if kept == [] then []
    else Numbered(kept[..|kept| - 1]) + [MakeBlock(|kept|, kept)]
  }

  /** The k-th of the kept elements (from 1) becomes the block numbered k,
      made from the kept elements up to and including it. */
  lemma {:induction false} NumberedAt(kept: seq<Element>, i: nat)
    requires i < |kept|
    ensures Numbered(kept)[i] == MakeBlock(i + 1, kept[..i + 1])
  {
    if i < |kept| - 1 {
      var pre := kept[..|kept| - 1];
      NumberedAt(pre, i);
      assert pre[..i + 1] == kept[..i + 1];
    } else {
      assert kept[..i + 1] == kept;
    }
  }

  /** The blocks the walk produces from the visited elements `elems`. */
  function BlocksOf(elems: seq<Element>): seq<Block> {
    Numbered(Kept(elems))
  }

  // ---------------------------------------------------------------------
  // extract_blocks and clean_html
  // ---------------------------------------------------------------------

  lemma KeptSnoc(elems: seq<Element>, e: Element)
    ensures Kept(elems + [e]) == Kept(elems) + (if e.text != "" then [e] else [])
  {
    assert (elems + [e])[..|elems + [e]| - 1] == elems;
  }

  lemma NumberedSnoc(kept: seq<Element>, e: Element)
    ensures Numbered(kept + [e]) == Numbered(kept) + [MakeBlock(|kept| + 1, kept + [e])]
  {
    assert (kept + [e])[..|kept|] == kept;
  }

  /** `extract_blocks`: walks the whitelisted elements, skips those with
      empty text, numbers the rest from 1, and tracks the last heading. */
  method ExtractBlocks(doc: seq<Element>) returns (blocks: seq<Block>)
    ensures blocks == BlocksOf(FindAll(doc))
  {
    var elems := FindAll(doc);
    blocks := [];
    var order := 0;
    var currentSection: Option<string> := None;
    for i := 0 to |elems|
      invariant order == |Kept(elems[..i])|
      invariant currentSection == CurrentSection(Kept(elems[..i]))
      invariant blocks == Numbered(Kept(elems[..i]))
    {
      var e := elems[i];
      assert elems[..i + 1] == elems[..i] + [e];
      ghost var k := Kept(elems[..i]);
      KeptSnoc(elems[..i], e);
      var text := e.text;
      if text == "" {
        assert Kept(elems[..i + 1]) == k;
        continue;
      }
      ghost var k' := k + [e];
      assert Kept(elems[..i + 1]) == k';
      NumberedSnoc(k, e);
      assert k'[..|k'| - 1] == k;
      assert CurrentSection(k') == if IsHeading(e.tag) then Some(text) else CurrentSection(k);
      order := order + 1;
      if IsHeading(e.tag) {
        currentSection := Some(text);
        var block := Block("b" + DecimalString(order), order, currentSection, SectionHeader, e.tag, text);
        assert block == MakeBlock(order, k');
        blocks := blocks + [block];
        continue;
      }
      var blockType;
      if e.tag == "pre" || e.tag == "code" {
        blockType := CodeExample;
      } else if e.tag == "li" {
        blockType := ListItem;
      } else if e.tag == "table" {
        blockType := TableBlock;
      } else if e.tag == "blockquote" {
        blockType := InlineNote;
      } else {
        blockType := Paragraph;
      }
      var block := Block("b" + DecimalString(order), order, currentSection, blockType, e.tag, text);
      assert block == MakeBlock(order, k');
      blocks := blocks + [block];
    }
    assert elems[..|elems|] == elems;
  }

  /** `clean_html`, without the final serialisation: the body of the new
      document, one element per kept whitelisted element, holding only its
      tag and its flattened text. */
  method CleanHtml(doc: seq<Element>) returns (body: seq<Element>)
    ensures body == Kept(FindAll(doc))
  {
    var elems := FindAll(doc);
    body := [];
    for i := 0 to |elems|
      invariant body == Kept(elems[..i])
    {
      var e := elems[i];
      assert elems[..i + 1] == elems[..i] + [e];
      KeptSnoc(elems[..i], e);
      var text := e.text;
      if text == "" {
        assert Kept(elems[..i + 1]) == body;
        continue;
      }
      body := body + [Element(e.tag, text)];
    }
    assert elems[..|elems|] == elems;
  }

  // ---------------------------------------------------------------------
  // Properties of the block sequence
  // ---------------------------------------------------------------------

  /** The i-th block, field by field: it is numbered i + 1, comes from the
      i-th kept element and carries the section current at that element. */
  lemma BlockAt(elems: seq<Element>, i: nat)
    requires i < |BlocksOf(elems)|
    ensures |BlocksOf(elems)| == |Kept(elems)|
    ensures BlocksOf(elems)[i].order == i + 1
    ensures BlocksOf(elems)[i].blockId == "b" + DecimalString(i + 1)
    ensures BlocksOf(elems)[i].tagName == Kept(elems)[i].tag
    ensures BlocksOf(elems)[i].text == Kept(elems)[i].text
    ensures BlocksOf(elems)[i].section == CurrentSection(Kept(elems)[..i + 1])
    ensures BlocksOf(elems)[i].blockType ==
      if IsHeading(Kept(elems)[i].tag) then SectionHeader else Classify(Kept(elems)[i].tag)
  {
    var k := Kept(elems);
    var seen := k[..i + 1];
    NumberedAt(k, i);
    assert BlocksOf(elems)[i] == MakeBlock(i + 1, seen);
    assert seen[|seen| - 1] == k[i];
  }

  /** Blocks are numbered 1, 2, 3, ... in document order, one per element
      with non-empty text, and each block id is "b" followed by its number. */
  lemma OrdersConsecutive(elems: seq<Element>)
    ensures |BlocksOf(elems)| == |Kept(elems)|
    ensures forall i :: 0 <= i < |BlocksOf(elems)| ==>
      BlocksOf(elems)[i].order == i + 1 && BlocksOf(elems)[i].blockId == "b" + DecimalString(i + 1)
    ensures forall i, j :: 0 <= i < j < |BlocksOf(elems)| ==> BlocksOf(elems)[i].order < BlocksOf(elems)[j].order
  {
    forall i | 0 <= i < |BlocksOf(elems)|
      ensures BlocksOf(elems)[i].order == i + 1 && BlocksOf(elems)[i].blockId == "b" + DecimalString(i + 1)
    {
      BlockAt(elems, i);
    }
  }

  /** No two blocks of a page share a block id. */
  lemma BlockIdsUnique(elems: seq<Element>, i: nat, j: nat)
    requires i < j < |BlocksOf(elems)|
    ensures BlocksOf(elems)[i].blockId != BlocksOf(elems)[j].blockId
  {
    BlockAt(elems, i);
    BlockAt(elems, j);
    var bi, bj := DecimalString(i + 1), DecimalString(j + 1);
    if "b" + bi == "b" + bj {
      assert bi == ("b" + bi)[1..] == ("b" + bj)[1..] == bj;
      DecimalInjective(i + 1, j + 1);
    }
  }

  /** Blocks are exactly the kept elements, in order: same tag, same
      non-empty text; an element with empty text gets no block. */
  lemma BlocksFollowElements(elems: seq<Element>)
    ensures |BlocksOf(elems)| == |Kept(elems)|
    ensures forall i :: 0 <= i < |BlocksOf(elems)| ==>
      BlocksOf(elems)[i].tagName == Kept(elems)[i].tag &&
      BlocksOf(elems)[i].text == Kept(elems)[i].text &&
      BlocksOf(elems)[i].text != ""
  {
    var k := Kept(elems);
    KeptMembers(elems);
    forall i | 0 <= i < |k|
      ensures BlocksOf(elems)[i].tagName == k[i].tag && BlocksOf(elems)[i].text == k[i].text != ""
    {
      BlockAt(elems, i);
      assert k[i] in k;
    }
  }

  /** A heading block is a section header and is its own section; every
      other block is classified by its tag alone. */
  lemma BlockTypes(elems: seq<Element>)
    ensures forall i :: 0 <= i < |BlocksOf(elems)| && IsHeading(BlocksOf(elems)[i].tagName) ==>
      BlocksOf(elems)[i].blockType == SectionHeader &&
      BlocksOf(elems)[i].section == Some(BlocksOf(elems)[i].text)
    ensures forall i :: 0 <= i < |BlocksOf(elems)| && !IsHeading(BlocksOf(elems)[i].tagName) ==>
      BlocksOf(elems)[i].blockType == Classify(BlocksOf(elems)[i].tagName)
  {
    var k := Kept(elems);
    forall i | 0 <= i < |k|
      ensures IsHeading(BlocksOf(elems)[i].tagName) ==>
        BlocksOf(elems)[i].blockType == SectionHeader &&
        BlocksOf(elems)[i].section == Some(BlocksOf(elems)[i].text)
      ensures !IsHeading(BlocksOf(elems)[i].tagName) ==>
        BlocksOf(elems)[i].blockType == Classify(BlocksOf(elems)[i].tagName)
    {
      BlockAt(elems, i);
      var seen := k[..i + 1];
      assert seen[|seen| - 1] == k[i];
    }
  }

  /** What `Classify` gives each tag, and that a non-heading block is never
      a section header. */
  lemma ClassifyTags(tag: string)
    ensures Classify(tag) != SectionHeader
    ensures Classify(tag) == CodeExample <==> tag == "pre" || tag == "code"
    ensures Classify(tag) == ListItem <==> tag == "li"
    ensures Classify(tag) == TableBlock <==> tag == "table"
    ensures Classify(tag) == InlineNote <==> tag == "blockquote"
    ensures Classify(tag) == Paragraph <==> tag !in ["pre", "code", "li", "table", "blockquote"]
  {
  }

  /** Among the whitelisted tags only h1..h5 are headings, and only `p`
      becomes a paragraph. */
  lemma WhitelistedHeadings(tag: string)
    requires tag in ContentTags
    ensures IsHeading(tag) <==> tag in ["h1", "h2", "h3", "h4", "h5"]
    ensures !IsHeading(tag) ==> (Classify(tag) == Paragraph <==> tag == "p")
  {
  }

  /** The current section is the text of the last heading seen, and it is
      None exactly when no heading has been seen. */
  lemma {:induction false} CurrentSectionIsLastHeading(seen: seq<Element>)
    ensures CurrentSection(seen) == None <==> forall j :: 0 <= j < |seen| ==> !IsHeading(seen[j].tag)
    ensures CurrentSection(seen) != None ==>
      exists j :: 0 <= j < |seen| && IsHeading(seen[j].tag) && CurrentSection(seen) == Some(seen[j].text) &&
        forall k :: j < k < |seen| ==> !IsHeading(seen[k].tag)
  {
    if seen != [] && !IsHeading(seen[|seen| - 1].tag) {
      var pre := seen[..|seen| - 1];
      CurrentSectionIsLastHeading(pre);
      assert forall j :: 0 <= j < |pre| ==> pre[j] == seen[j];
      if CurrentSection(seen) != None {
        var j :| 0 <= j < |pre| && IsHeading(pre[j].tag) && CurrentSection(pre) == Some(pre[j].text) &&
          forall k :: j < k < |pre| ==> !IsHeading(pre[k].tag);
        assert IsHeading(seen[j].tag) && CurrentSection(seen) == Some(seen[j].text);
      }
    }
  }

  /** A block's section is the text of the nearest heading block at or
      before it; it is None exactly when no heading block precedes it. */
  lemma SectionInheritance(elems: seq<Element>, i: nat)
    requires i < |BlocksOf(elems)|
    ensures BlocksOf(elems)[i].section == None <==>
      forall j :: 0 <= j <= i ==> BlocksOf(elems)[j].blockType != SectionHeader
    ensures BlocksOf(elems)[i].section != None ==>
      exists j :: 0 <= j <= i && BlocksOf(elems)[j].blockType == SectionHeader &&
        BlocksOf(elems)[i].section == Some(BlocksOf(elems)[j].text) &&
        forall m :: j < m <= i ==> BlocksOf(elems)[m].blockType != SectionHeader
  {
    var k := Kept(elems);
    var b := BlocksOf(elems);
    var seen := k[..i + 1];
    BlockAt(elems, i);
    CurrentSectionIsLastHeading(seen);
    forall j | 0 <= j <= i
      ensures seen[j] == k[j] && b[j].text == k[j].text
      ensures b[j].blockType == SectionHeader <==> IsHeading(seen[j].tag)
    {
      BlockAt(elems, j);
      ClassifyTags(k[j].tag);
    }
    if b[i].section != None {
      var j :| 0 <= j < |seen| && IsHeading(seen[j].tag) && CurrentSection(seen) == Some(seen[j].text) &&
        forall m :: j < m < |seen| ==> !IsHeading(seen[m].tag);
      assert b[j].blockType == SectionHeader && b[i].section == Some(b[j].text);
    }
  }

  /** `clean_html` and `extract_blocks` on the same page agree: one cleaned
      element per block, with the block's tag and text. */
  lemma CleanedMatchesBlocks(doc: seq<Element>)
    ensures |Kept(FindAll(doc))| == |BlocksOf(FindAll(doc))|
    ensures forall i :: 0 <= i < |Kept(FindAll(doc))| ==>
      Kept(FindAll(doc))[i].tag == BlocksOf(FindAll(doc))[i].tagName &&
      Kept(FindAll(doc))[i].text == BlocksOf(FindAll(doc))[i].text
  {
    BlocksFollowElements(FindAll(doc));
  }
}
