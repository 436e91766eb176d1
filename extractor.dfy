/** `_extract_content` (services/cto51_crawler.py): the in-page `processNode`
    walk that turns the `.posts-content` container into ordered content blocks,
    the Python post-filter over its result, and the plain-text fallback.

    The DOM is a tree of element and text nodes. `tag` is the upper-case
    `nodeName`; `src` is what the walk reads as an image source (the resolved
    `src`, else `data-src`, else `data-original`, else ""); `isLineNumber`
    says that the element matches one of the line-number selectors that
    `getCodeText` removes. */
module Extractor {
  import opened News
  import opened Text

  datatype Node =
    | Element(tag: string, className: string, src: string, isLineNumber: bool, children: seq<Node>)
    | TextNode(data: string)

  /** The content container and the tag of its parent element ("" when it has none). */
  datatype Container = Container(root: Node, parentTag: string)

  const SkippedTags: set<string> := {"SCRIPT", "STYLE", "NOSCRIPT"}
  const TextTags: set<string> := {"P", "H1", "H2", "H3", "H4", "H5", "H6"}
  const MediaTags: set<string> := {"IMG", "PRE", "CODE"}

  // ------------------------------------------------------------ DOM queries

  /** `node.textContent` of an element: its text descendants, in document order. */
  function TextOfAll(cs: seq<Node>): string
    decreases cs
  {
    if cs == [] then [] else TextOfAll(cs[..|cs| - 1]) + TextContent(cs[|cs| - 1])
  }

  function TextContent(n: Node): string
    decreases n
  {
    match n
    case TextNode(d) => d
    case Element(_, _, _, _, cs) => TextOfAll(cs)
  }

  /** The text `getCodeText` reads from a clone whose line-number descendants were removed. */
  function LinelessOfAll(cs: seq<Node>): string
    decreases cs
  {
    if cs == [] then [] else LinelessOfAll(cs[..|cs| - 1]) + LinelessText(cs[|cs| - 1])
  }

  function LinelessText(n: Node): string
    decreases n
  {
    match n
    case TextNode(d) => d
    case Element(_, _, _, lineNumber, cs) => if lineNumber then "" else LinelessOfAll(cs)
  }

  /** `querySelectorAll(...)` is non-empty: some descendant has one of `tags`. */
  predicate HasTagIn(cs: seq<Node>, tags: set<string>)
    decreases cs
  {
    cs != [] && (HasTagIn(cs[..|cs| - 1], tags) || HasTagAt(cs[|cs| - 1], tags))
  }

  predicate HasTagAt(n: Node, tags: set<string>)
    decreases n
  {
    n.Element? && (n.tag in tags || HasTagIn(n.children, tags))
  }

  /** `querySelector('code')`: the class name of the first CODE descendant in document order. */
  function FirstCodeClass(cs: seq<Node>): Option<string>
    decreases cs
  {
    if cs == [] then None
    else
      var here := FirstCodeClassAt(cs[0]);
      if here.Some? then here else FirstCodeClass(cs[1..])
  }

  function FirstCodeClassAt(n: Node): Option<string>
    decreases n
  {
    match n
    case TextNode(_) => None
    case Element(tag, cls, _, _, cs) => if tag == "CODE" then Some(cls) else FirstCodeClass(cs)
  }

  // ------------------------------------------------------------ getCodeLanguage

  /** The alternation of the language regular expression, in its order. */
  const LangTokens: seq<string> := ["python", "javascript", "java", "cpp", "c++", "csharp", "c#",
    "php", "ruby", "go", "rust", "swift", "kotlin", "typescript", "sql", "bash", "shell", "html",
    "css", "json", "xml", "yaml"]

  /** The optional prefix group `(?:language-|lang-|brush:)?`, in its order. */
  const LangPrefixes: seq<string> := ["language-", "lang-", "brush:"]

  /** The first token of the alternation `toks`, from position `k` on, that starts at index `p` of `s`. */
  function TokenAt(s: string, p: nat, toks: seq<string>, k: nat): (r: Option<string>)
    requires p <= |s|
    decreases |toks| - k
    ensures r.Some? ==> r.value in toks && StartsWith(s[p..], r.value)
    ensures r.None? ==> forall j :: k <= j < |toks| ==> !StartsWith(s[p..], toks[j])
  {
    if k >= |toks| then None
    else if StartsWith(s[p..], toks[k]) then Some(toks[k])
    else TokenAt(s, p, toks, k + 1)
  }

  /** The token found is the first alternative, from position `k` on, that
      starts at index `p`: no earlier alternative starts there. */
  lemma {:induction false} TokenAtFirst(s: string, p: nat, toks: seq<string>, k: nat)
    requires p <= |s|
    ensures var r := TokenAt(s, p, toks, k);
      r.Some? ==>
        exists j :: k <= j < |toks| && r.value == toks[j] && (forall i :: k <= i < j ==> !StartsWith(s[p..], toks[i]))
    decreases |toks| - k
  {
    if k < |toks| && !StartsWith(s[p..], toks[k]) {
      TokenAtFirst(s, p, toks, k + 1);
      var r := TokenAt(s, p, toks, k + 1);
      if r.Some? {
        var j :| k + 1 <= j < |toks| && r.value == toks[j] &&
          forall i :: k + 1 <= i < j ==> !StartsWith(s[p..], toks[i]);
        assert forall i :: k <= i < j ==> !StartsWith(s[p..], toks[i]);
      }
    }
  }

  /** The regular expression anchored at index `p`: each prefix alternative in turn, then none. */
  function MatchLangAt(s: string, p: nat, k: nat): (r: Option<string>)
    requires p <= |s|
    decreases |LangPrefixes| - k
  {
    if k >= |LangPrefixes| then TokenAt(s, p, LangTokens, 0)
    else
      var pre := LangPrefixes[k];
      var viaPrefix := if StartsWith(s[p..], pre) then TokenAt(s, p + |pre|, LangTokens, 0) else None;
      if viaPrefix.Some? then viaPrefix else MatchLangAt(s, p, k + 1)
  }

  /** `String.prototype.match` without the `g` flag: the first match at the leftmost index `>= p`. */
  function SearchLang(s: string, p: nat): string
    requires p <= |s|
    decreases |s| - p
  {
    var m := MatchLangAt(s, p, 0);
    if m.Some? then m.value else if p == |s| then "" else SearchLang(s, p + 1)
  }

  /** The language a class attribute names; the match is case-insensitive and
      its lower-cased text is exactly the lower-case token matched. */
  function ClassLanguage(className: string): string {
    SearchLang(Lower(className), 0)
  }

  /** `getCodeLanguage(node)` for a PRE or CODE element. */
  function CodeLanguage(tag: string, className: string, cs: seq<Node>): string {
    var own := ClassLanguage(className);
    if own != "" then own
    else if tag == "PRE" then
      var inner := FirstCodeClass(cs);
      if inner.Some? then ClassLanguage(inner.value) else ""
    else ""
  }

  // ------------------------------------------------------------ processNode

  /** `[\w\-]`: an ASCII letter, digit, `_` or `-`. */
  predicate IsNameChar(c: char) {
    'a' <= c <= 'z' || 'A' <= c <= 'Z' || IsDigit(c) || c == '_' || c == '-'
  }

  /** The length of the longest prefix of `t` made of name characters. */
  function NameLength(t: string): (k: nat)
    ensures k <= |t|
    ensures forall i :: 0 <= i < k ==> IsNameChar(t[i])
    ensures k < |t| ==> !IsNameChar(t[k])
  {
    if t != [] && IsNameChar(t[0]) then 1 + NameLength(t[1..]) else 0
  }

  /** `/^[\w\-]+\.(png|jpg|jpeg|gif|svg|webp)$/i`: a bare image file name. */
  predicate IsImageFileName(t: string) {
    var k := NameLength(t);
    0 < k < |t| && t[k] == '.' && Lower(t[k + 1..]) in {"png", "jpg", "jpeg", "gif", "svg", "webp"}
  }

  /** The filter a trimmed text must pass to become a text block. */
  predicate KeepsText(t: string) {
    |t| > 10 && !IsImageFileName(t)
  }

  /** The text block for the trimmed text `s`, when it passes the filter. */
  function TextBlocks(s: string): seq<ContentBlock> {
    var t := Trim(s);
    if KeepsText(t) then [TextBlock(t)] else []
  }

  /** A PRE (or free-standing CODE) element: one code block when its text without line numbers is not blank. */
  function CodeBlocks(tag: string, className: string, cs: seq<Node>): seq<ContentBlock> {
    var code := Trim(LinelessOfAll(cs));
    if code != "" then [CodeBlock(code, CodeLanguage(tag, className, cs))] else []
  }

  /** What a block produced by the walk looks like. */
  predicate WellFormed(b: ContentBlock) {
    match b.kind
    case Text => b.language.None? && KeepsText(b.value) && !IsSpace(b.value[0]) && !IsSpace(b.value[|b.value| - 1])
    case Image => b.language.None? && StartsWith(b.value, "http")
    case Code => b.language.Some? && b.value != [] && !IsSpace(b.value[0]) && !IsSpace(b.value[|b.value| - 1])
    case Video => false
  }

  /** A text node or text element yields at most one block, a well-formed text
      block, exactly when its trimmed text passes the filter. */
  lemma TextBlocksSpec(s: string)
    ensures var r := TextBlocks(s);
      |r| <= 1 && (r != [] <==> KeepsText(Trim(s))) && forall b :: b in r ==> b.kind == Text && WellFormed(b)
  {
  }

  /** A code element yields at most one block, a well-formed code block holding
      its trimmed text without line numbers, exactly when that text is not blank. */
  lemma CodeBlocksSpec(tag: string, className: string, cs: seq<Node>)
    ensures var r := CodeBlocks(tag, className, cs);
      |r| <= 1 && (r != [] <==> Trim(LinelessOfAll(cs)) != "")
      && forall b :: b in r ==> b.kind == Code && b.value == Trim(LinelessOfAll(cs)) && WellFormed(b)
  {
    var code := Trim(LinelessOfAll(cs));
    if code != "" {
      var b := CodeBlock(code, CodeLanguage(tag, className, cs));
      assert CodeBlocks(tag, className, cs) == [b];
      assert WellFormed(b);
    } else {
      assert CodeBlocks(tag, className, cs) == [];
    }
  }

  /** The blocks `processNode(n)` pushes, for a node whose parent element has tag `parentTag`. */
  function NodeBlocks(n: Node, parentTag: string): seq<ContentBlock>
    decreases n
  {
    match n
    case TextNode(d) => TextBlocks(d)
    case Element(tag, cls, src, _, cs) =>
      if tag in SkippedTags then []
      else if tag == "IMG" then (if StartsWith(src, "http") then [ImageBlock(src)] else [])
      else if tag == "PRE" then CodeBlocks(tag, cls, cs)
      else if tag == "CODE" then (if parentTag == "PRE" then [] else CodeBlocks(tag, cls, cs))
      else if tag in TextTags && !HasTagIn(cs, MediaTags) then TextBlocks(TextOfAll(cs))
      else ChildBlocks(cs, tag)
  }

  /** `for (let child of node.childNodes) processNode(child)`. */
  function ChildBlocks(cs: seq<Node>, parentTag: string): seq<ContentBlock>
    decreases cs
  {
    if cs == [] then [] else ChildBlocks(cs[..|cs| - 1], parentTag) + NodeBlocks(cs[|cs| - 1], parentTag)
  }

  /** The walk itself: `blocks` is the array the in-page script pushes into. */
  class Walker {
    var blocks: seq<ContentBlock>

    constructor ()
      ensures blocks == []
    {
      blocks := [];
    }

    method ProcessNode(node: Node, parentTag: string)
      modifies this
      decreases node, 1
      ensures blocks == old(blocks) + NodeBlocks(node, parentTag)
    {
      match node
      case TextNode(d) =>
        var text := Trim(d);
        if KeepsText(text) {
          blocks := blocks + [TextBlock(text)];
        }
      case Element(tag, cls, src, _, cs) =>
        if tag in SkippedTags {
          return;
        }
        if tag == "IMG" {
          if StartsWith(src, "http") {
            blocks := blocks + [ImageBlock(src)];
          }
          return;
        }
        if tag == "PRE" || (tag == "CODE" && parentTag != "PRE") {
          var codeText := Trim(LinelessOfAll(cs));
          if codeText != "" {
            blocks := blocks + [CodeBlock(codeText, CodeLanguage(tag, cls, cs))];
          }
          return;
        }
        if tag == "CODE" {
          return;
        }
        if tag in TextTags && !HasTagIn(cs, MediaTags) {
          var text := Trim(TextOfAll(cs));
          if KeepsText(text) {
            blocks := blocks + [TextBlock(text)];
          }
          return;
        }
        // A heading or paragraph holding media, a DIV (all three of its
        // branches recurse) and every other element: walk the children.
        ProcessChildren(cs, tag);
    }

    method ProcessChildren(cs: seq<Node>, parentTag: string)
      modifies this
      decreases cs, 0
      ensures blocks == old(blocks) + ChildBlocks(cs, parentTag)
    {
      for i := 0 to |cs|
        invariant blocks == old(blocks) + ChildBlocks(cs[..i], parentTag)
      {
        assert cs[..i + 1] == cs[..i] + [cs[i]];
        ChildBlocksSnoc(cs[..i], cs[i], parentTag);
        ProcessNode(cs[i], parentTag);
      }
      assert cs[..|cs|] == cs;
    }
  }

  /** `content_container.evaluate(js_script)`: run the walk from the container. */
  method Evaluate(c: Container) returns (blocks: seq<ContentBlock>)
    ensures blocks == NodeBlocks(c.root, c.parentTag)
  {
    var walker := new Walker();
    walker.ProcessNode(c.root, c.parentTag);
    blocks := walker.blocks;
  }

  // ------------------------------------------------------------ _extract_content

  /** The Python post-filter: keep the blocks whose type is text, image or code. */
  function KeepKnownKinds(bs: seq<ContentBlock>): seq<ContentBlock> {
    if bs == [] then []
    else KeepKnownKinds(bs[..|bs| - 1]) + (if bs[|bs| - 1].kind in {Text, Image, Code} then [bs[|bs| - 1]] else [])
  }

  /** `_extract_content()` for the container the page query found (`None`:
      not found, or the query raised) and whether the in-page evaluation raised. */
  function ExtractedContent(container: Option<Container>, evalRaises: bool): seq<ContentBlock> {
    if container.None? then []
    else if evalRaises then
      var text := Trim(TextContent(container.value.root));
      if text != "" then [TextBlock(text)] else []
    else KeepKnownKinds(NodeBlocks(container.value.root, container.value.parentTag))
  }

  method ExtractContent(container: Option<Container>, evalRaises: bool) returns (valid: seq<ContentBlock>)
    ensures valid == ExtractedContent(container, evalRaises)
  {
    if container.None? {
      return [];
    }
    if evalRaises {
      var text := Trim(TextContent(container.value.root));
      if text != "" {
        return [TextBlock(text)];
      }
      return [];
    }
    var blocks := Evaluate(container.value);
    valid := [];
    for i := 0 to |blocks|
      invariant valid == KeepKnownKinds(blocks[..i])
    {
      assert blocks[..i + 1][..i] == blocks[..i];
      if blocks[i].kind in {Text, Image, Code} {
        valid := valid + [blocks[i]];
      }
    }
    assert blocks[..|blocks|] == blocks;
  }

  // ------------------------------------------------------------ properties

  /** Every block the walk emits is well-formed. */
  lemma {:induction false} WalkWellFormed(n: Node, parentTag: string)
    ensures forall b :: b in NodeBlocks(n, parentTag) ==> WellFormed(b)
    decreases n
  {
    match n
    case TextNode(d) => TextBlocksSpec(d);
    case Element(tag, cls, src, _, cs) =>
      if tag in SkippedTags || tag == "IMG" {
      } else if tag == "PRE" || tag == "CODE" {
        CodeBlocksSpec(tag, cls, cs);
      } else if tag in TextTags && !HasTagIn(cs, MediaTags) {
        TextBlocksSpec(TextOfAll(cs));
      } else {
        ChildrenWellFormed(cs, tag);
      }
  }

  lemma {:induction false} ChildrenWellFormed(cs: seq<Node>, parentTag: string)
    ensures forall b :: b in ChildBlocks(cs, parentTag) ==> WellFormed(b)
    decreases cs
  {
    if cs != [] {
      ChildrenWellFormed(cs[..|cs| - 1], parentTag);
      WalkWellFormed(cs[|cs| - 1], parentTag);
    }
  }

  /** The post-filter never drops a block the walk produced, so the result of a
      successful evaluation is the walk's blocks, each well-formed. */
  lemma {:induction false} PostFilterKeepsWalk(bs: seq<ContentBlock>)
    requires forall b :: b in bs ==> WellFormed(b)
    ensures KeepKnownKinds(bs) == bs
  {
    if bs != [] {
      var last := bs[|bs| - 1];
      assert last in bs && WellFormed(last);
      assert forall b :: b in bs[..|bs| - 1] ==> b in bs;
      PostFilterKeepsWalk(bs[..|bs| - 1]);
      assert bs[..|bs| - 1] + [last] == bs;
    }
  }

  /** What `_extract_content` returns: nothing without a container; the walk's
      blocks in document order when the evaluation succeeds; otherwise one text
      block with the container's trimmed text, or nothing if that is blank. */
  lemma ExtractedContentCases(container: Option<Container>, evalRaises: bool)
    ensures container.None? ==> ExtractedContent(container, evalRaises) == []
    ensures container.Some? && !evalRaises ==>
      ExtractedContent(container, evalRaises) == NodeBlocks(container.value.root, container.value.parentTag)
    ensures container.Some? && evalRaises ==>
      var text := Trim(TextContent(container.value.root));
      ExtractedContent(container, evalRaises) == (if text == "" then [] else [TextBlock(text)])
    ensures forall b :: b in ExtractedContent(container, evalRaises) ==> b.kind in {Text, Image, Code}
  {
    if container.Some? && !evalRaises {
      WalkWellFormed(container.value.root, container.value.parentTag);
      PostFilterKeepsWalk(NodeBlocks(container.value.root, container.value.parentTag));
    }
  }

  /** The element rules of the walk: SCRIPT, STYLE and NOSCRIPT subtrees and a
      CODE inside a PRE emit nothing; an IMG emits one image block exactly when
      its source starts with "http"; a PRE emits at most one block, a code
      block, and does not look at its children one by one. */
  lemma ElementRules(tag: string, cls: string, src: string, ln: bool, cs: seq<Node>, parentTag: string)
    ensures tag in SkippedTags ==> NodeBlocks(Element(tag, cls, src, ln, cs), parentTag) == []
    ensures tag == "IMG" ==> NodeBlocks(Element(tag, cls, src, ln, cs), parentTag) == (if StartsWith(src, "http") then [ImageBlock(src)] else [])
    ensures tag == "CODE" && parentTag == "PRE" ==> NodeBlocks(Element(tag, cls, src, ln, cs), parentTag) == []
    ensures tag == "PRE" ==> var r := NodeBlocks(Element(tag, cls, src, ln, cs), parentTag);
      |r| <= 1 && (r != [] <==> Trim(LinelessOfAll(cs)) != "") && forall b :: b in r ==> b.kind == Code && b.value == Trim(LinelessOfAll(cs))
  {
    assert "IMG" !in SkippedTags && "PRE" !in SkippedTags && "CODE" !in SkippedTags;
    CodeBlocksSpec(tag, cls, cs);
  }

  /** The `src` of every IMG element in a subtree. */
  function ImageSources(n: Node): set<string>
    decreases n
  {
    match n
    case TextNode(_) => {}
    case Element(tag, _, src, _, cs) => (if tag == "IMG" then {src} else {}) + ImageSourcesOf(cs)
  }

  function ImageSourcesOf(cs: seq<Node>): set<string>
    decreases cs
  {
    if cs == [] then {} else ImageSourcesOf(cs[..|cs| - 1]) + ImageSources(cs[|cs| - 1])
  }

  /** Every image block names the source of an IMG element of the subtree: the walk invents no image. */
  lemma {:induction false} ImagesComeFromTree(n: Node, parentTag: string)
    ensures forall b :: b in NodeBlocks(n, parentTag) && b.kind == Image ==> b.value in ImageSources(n)
    decreases n
  {
    match n
    case TextNode(d) => TextBlocksSpec(d);
    case Element(tag, cls, src, _, cs) =>
      if tag in SkippedTags || tag == "IMG" {
      } else if tag == "PRE" || tag == "CODE" {
        CodeBlocksSpec(tag, cls, cs);
      } else if tag in TextTags && !HasTagIn(cs, MediaTags) {
        TextBlocksSpec(TextOfAll(cs));
      } else {
        ImagesComeFromChildren(cs, tag);
      }
  }

  lemma {:induction false} ImagesComeFromChildren(cs: seq<Node>, parentTag: string)
    ensures forall b :: b in ChildBlocks(cs, parentTag) && b.kind == Image ==> b.value in ImageSourcesOf(cs)
    decreases cs
  {
    if cs != [] {
      ImagesComeFromChildren(cs[..|cs| - 1], parentTag);
      ImagesComeFromTree(cs[|cs| - 1], parentTag);
    }
  }

  /** A subtree holding no IMG, PRE or CODE element yields text blocks only. */
  lemma {:induction false} NoMediaTextOnly(n: Node, parentTag: string)
    requires !HasTagAt(n, MediaTags)
    ensures forall b :: b in NodeBlocks(n, parentTag) ==> b.kind == Text
    decreases n
  {
    match n
    case TextNode(d) => TextBlocksSpec(d);
    case Element(tag, cls, src, _, cs) =>
      if tag in SkippedTags {
      } else if tag in TextTags && !HasTagIn(cs, MediaTags) {
        TextBlocksSpec(TextOfAll(cs));
      } else {
        NoMediaChildrenTextOnly(cs, tag);
      }
  }

  lemma {:induction false} NoMediaChildrenTextOnly(cs: seq<Node>, parentTag: string)
    requires !HasTagIn(cs, MediaTags)
    ensures forall b :: b in ChildBlocks(cs, parentTag) ==> b.kind == Text
    decreases cs
  {
    if cs != [] {
      NoMediaChildrenTextOnly(cs[..|cs| - 1], parentTag);
      NoMediaTextOnly(cs[|cs| - 1], parentTag);
    }
  }

  /** Blocks keep document order: a container holding a paragraph, a PRE and an
      IMG, with no class names, yields the paragraph's text, then the code, then
      the image; a paragraph of ten characters or fewer is dropped. */
  lemma DocumentOrder(para: string, code: string, src: string)
    requires Trim(code) != "" && StartsWith(src, "http")
    ensures NodeBlocks(Element("DIV", "", "", false, [Paragraph(para), Pre(code), Img(src)]), "")
            == TextBlocks(para) + [CodeBlock(Trim(code), ""), ImageBlock(src)]
  {
    ChildrenInOrder(para, code, src);
    DivBlocks([Paragraph(para), Pre(code), Img(src)]);
  }

  lemma ChildrenInOrder(para: string, code: string, src: string)
    requires Trim(code) != "" && StartsWith(src, "http")
    ensures ChildBlocks([Paragraph(para), Pre(code), Img(src)], "DIV")
            == TextBlocks(para) + [CodeBlock(Trim(code), ""), ImageBlock(src)]
  {
    ThreeChildren(Paragraph(para), Pre(code), Img(src), "DIV");
    ParagraphBlocks(para);
    PreBlocks(code);
    ImgBlocks(src);
  }

  /** The walk over three children is the concatenation of their walks. */
  lemma ThreeChildren(a: Node, b: Node, c: Node, parentTag: string)
    ensures ChildBlocks([a, b, c], parentTag) == NodeBlocks(a, parentTag) + NodeBlocks(b, parentTag) + NodeBlocks(c, parentTag)
  {
    TwoChildren(a, b, parentTag);
    assert [a, b] + [c] == [a, b, c];
    ChildBlocksSnoc([a, b], c, parentTag);
  }

  lemma TwoChildren(a: Node, b: Node, parentTag: string)
    ensures ChildBlocks([a, b], parentTag) == NodeBlocks(a, parentTag) + NodeBlocks(b, parentTag)
  {
    OneChild(a, parentTag);
    assert [a] + [b] == [a, b];
    ChildBlocksSnoc([a], b, parentTag);
  }

  lemma OneChild(a: Node, parentTag: string)
    ensures ChildBlocks([a], parentTag) == NodeBlocks(a, parentTag)
  {
    assert [a][..0] == [];
  }

  lemma DivBlocks(cs: seq<Node>)
    ensures NodeBlocks(Element("DIV", "", "", false, cs), "") == ChildBlocks(cs, "DIV")
  {
    assert "DIV" !in SkippedTags && "DIV" != "IMG" && "DIV" != "PRE" && "DIV" != "CODE" && "DIV" !in TextTags;
  }

  lemma ImgBlocks(src: string)
    requires StartsWith(src, "http")
    ensures NodeBlocks(Img(src), "DIV") == [ImageBlock(src)]
  {
    assert "IMG" !in SkippedTags;
  }

  function Paragraph(t: string): Node { Element("P", "", "", false, [TextNode(t)]) }
  function Pre(t: string): Node { Element("PRE", "", "", false, [TextNode(t)]) }
  function Img(src: string): Node { Element("IMG", "", src, false, []) }

  lemma ChildBlocksSnoc(cs: seq<Node>, c: Node, parentTag: string)
    ensures ChildBlocks(cs + [c], parentTag) == ChildBlocks(cs, parentTag) + NodeBlocks(c, parentTag)
  {
    assert (cs + [c])[..|cs|] == cs;
  }

  lemma ParagraphBlocks(para: string)
    ensures NodeBlocks(Paragraph(para), "DIV") == TextBlocks(para)
  {
    var cs := [TextNode(para)];
    assert cs[..0] == [];
    assert "P" !in SkippedTags && "P" != "IMG" && "P" != "PRE" && "P" != "CODE" && "P" in TextTags;
    assert !HasTagIn(cs, MediaTags);
    assert TextOfAll(cs) == para;
  }

  lemma PreBlocks(code: string)
    requires Trim(code) != ""
    ensures NodeBlocks(Pre(code), "DIV") == [CodeBlock(Trim(code), "")]
  {
    var cs := [TextNode(code)];
    PreCodeBlocks(code);
    assert "PRE" !in SkippedTags && "PRE" != "IMG";
    assert NodeBlocks(Pre(code), "DIV") == CodeBlocks("PRE", "", cs);
  }

  lemma PreCodeBlocks(code: string)
    requires Trim(code) != ""
    ensures CodeBlocks("PRE", "", [TextNode(code)]) == [CodeBlock(Trim(code), "")]
  {
    var cs := [TextNode(code)];
    assert cs[..0] == [];
    assert LinelessOfAll(cs) == code;
    PreLanguage(cs);
  }

  lemma PreLanguage(cs: seq<Node>)
    requires |cs| == 1 && cs[0].TextNode?
    ensures CodeLanguage("PRE", "", cs) == ""
  {
    NoClassNoLanguage();
    assert FirstCodeClass(cs) == None by {
      assert cs[1..] == [];
    }
  }

  lemma NoClassNoLanguage()
    ensures ClassLanguage("") == ""
  {
    assert Lower("") == "";
    SearchLangSpec("", 0);
    assert forall j :: 0 <= j < |LangTokens| ==> LangTokens[j] != "";
  }

  /** Some alternative of the language expression starts at index `q` at or after `p`. */
  predicate TokenFrom(s: string, p: nat)
    requires p <= |s|
  {
    exists q, j :: p <= q <= |s| && 0 <= j < |LangTokens| && StartsWith(s[q..], LangTokens[j])
  }

  lemma {:induction false} MatchLangFound(s: string, p: nat, k: nat)
    requires p <= |s| && MatchLangAt(s, p, k).Some?
    ensures MatchLangAt(s, p, k).value in LangTokens
    ensures exists q :: p <= q <= |s| && StartsWith(s[q..], MatchLangAt(s, p, k).value)
    decreases |LangPrefixes| - k
  {
    if k < |LangPrefixes| {
      var pre := LangPrefixes[k];
      if StartsWith(s[p..], pre) && TokenAt(s, p + |pre|, LangTokens, 0).Some? {
        assert StartsWith(s[p + |pre|..], MatchLangAt(s, p, k).value);
      } else {
        MatchLangFound(s, p, k + 1);
      }
    } else {
      assert StartsWith(s[p..], MatchLangAt(s, p, k).value);
    }
  }

  lemma {:induction false} MatchLangMissing(s: string, p: nat, k: nat)
    requires p <= |s| && MatchLangAt(s, p, k).None?
    ensures forall j :: 0 <= j < |LangTokens| ==> !StartsWith(s[p..], LangTokens[j])
    decreases |LangPrefixes| - k
  {
    if k < |LangPrefixes| {
      MatchLangMissing(s, p, k + 1);
    }
  }

  /** The search comes back empty exactly when no token occurs at or after `p`,
      and otherwise names a token that occurs there. */
  lemma {:induction false} SearchLangSpec(s: string, p: nat)
    requires p <= |s|
    ensures SearchLang(s, p) == "" <==> !TokenFrom(s, p)
    ensures SearchLang(s, p) != "" ==> SearchLang(s, p) in LangTokens
    decreases |s| - p
  {
    var m := MatchLangAt(s, p, 0);
    if m.Some? {
      MatchHere(s, p);
    } else if p < |s| {
      SearchLangSpec(s, p + 1);
      NoMatchHere(s, p);
    } else {
      MatchLangMissing(s, p, 0);
      assert forall q, j :: p <= q <= |s| && 0 <= j < |LangTokens| ==> !StartsWith(s[q..], LangTokens[j]);
    }
  }

  /** A match at `p` is a token occurring at or after `p`. */
  lemma MatchHere(s: string, p: nat)
    requires p <= |s| && MatchLangAt(s, p, 0).Some?
    ensures MatchLangAt(s, p, 0).value in LangTokens && TokenFrom(s, p)
  {
    var m := MatchLangAt(s, p, 0);
    MatchLangFound(s, p, 0);
    var q :| p <= q <= |s| && StartsWith(s[q..], m.value);
    var j :| 0 <= j < |LangTokens| && LangTokens[j] == m.value;
    assert StartsWith(s[q..], LangTokens[j]);
  }

  /** Without a match at `p`, a token occurs from `p` on exactly when one occurs from `p + 1` on. */
  lemma NoMatchHere(s: string, p: nat)
    requires p < |s| && MatchLangAt(s, p, 0).None?
    ensures TokenFrom(s, p) <==> TokenFrom(s, p + 1)
  {
    MatchLangMissing(s, p, 0);
    if TokenFrom(s, p) {
      var q, j :| p <= q <= |s| && 0 <= j < |LangTokens| && StartsWith(s[q..], LangTokens[j]);
      assert q != p;
      assert TokenFrom(s, p + 1);
    }
    if TokenFrom(s, p + 1) {
      var q, j :| p + 1 <= q <= |s| && 0 <= j < |LangTokens| && StartsWith(s[q..], LangTokens[j]);
      assert TokenFrom(s, p);
    }
  }

  /** `getCodeLanguage` on a class name: "" exactly when none of the language
      tokens occurs in the lower-cased class name, and otherwise one of them. */
  lemma ClassLanguageSpec(className: string)
    ensures ClassLanguage(className) == "" <==> !TokenFrom(Lower(className), 0)
    ensures ClassLanguage(className) != "" ==> ClassLanguage(className) in LangTokens
  {
    SearchLangSpec(Lower(className), 0);
  }
}
