/**
 The independent XML reader: a stack of open elements fed by start, text and end tokens,
 against the documents those tokens spell (section 3.1 of XML 1.0), and the
 normalisation that merges adjacent text.
 */
module XmlTree {
  import opened Prelude
  import Utf8

  type Attributes = seq<(string, string)>

  datatype Part = Text(value: string) | Child(node: Node)

  datatype Node = Node(name: string, attributes: Attributes, content: seq<Part>)

  datatype Token =
    | StartTag(name: string, attributes: Attributes, empty: bool)
    | EndTag(name: string)
    | TextRun(value: string)

  datatype Limits = Limits(maxDepth: nat, maxNodes: nat)

  predicate Blank(s: string)
  {
    forall c | c in s :: Utf8.IsWhitespace(c as int)
  }

  // ---------- documents, and the tokens that spell them ----------

  datatype Item = TextItem(value: string) | SubItem(element: Element)

  /** An element as written: `selfClosed` tells `<a/>` from `<a></a>`. */
  datatype Element = Element(name: string, attributes: Attributes, selfClosed: bool, items: seq<Item>)

  function Tokens(e: Element): (ts: seq<Token>)
    decreases e
  {
    if e.selfClosed then [StartTag(e.name, e.attributes, true)]
    else [StartTag(e.name, e.attributes, false)] + TokensOf(e.items) + [EndTag(e.name)]
  }

  function TokensOf(items: seq<Item>): (ts: seq<Token>)
    decreases items
  {
    if items == [] then []
    else TokensOf(items[..|items| - 1]) + TokensOfItem(items[|items| - 1])
  }

  function TokensOfItem(item: Item): (ts: seq<Token>)
    decreases item
  {
    match item
    case TextItem(value) => [TextRun(value)]
    case SubItem(element) => Tokens(element)
  }

  /** The tree an element stands for. */
  function Raw(e: Element): (n: Node)
    decreases e
  {
    Node(e.name, e.attributes, RawParts(e.items))
  }

  function RawParts(items: seq<Item>): (parts: seq<Part>)
    decreases items
  {
    if items == [] then []
    else RawParts(items[..|items| - 1]) + [RawPart(items[|items| - 1])]
  }

  function RawPart(item: Item): (part: Part)
    decreases item
  {
    match item
    case TextItem(value) => Text(value)
    case SubItem(element) => Child(Raw(element))
  }

  /** Only an element without content is self-closed. */
  predicate WellFormed(e: Element)
    decreases e
  {
    (e.selfClosed ==> e.items == []) && WellFormedItems(e.items)
  }

  predicate WellFormedItems(items: seq<Item>)
    decreases items
  {
    items == [] ||
    (WellFormedItems(items[..|items| - 1]) && WellFormedItem(items[|items| - 1]))
  }

  predicate WellFormedItem(item: Item)
    decreases item
  {
    match item case TextItem(_) => true case SubItem(e) => WellFormed(e)
  }

  function Depth(e: Element): (d: nat)
    decreases e
  {
    1 + DepthOf(e.items)
  }

  function DepthOf(items: seq<Item>): (d: nat)
    decreases items
  {
    if items == [] then 0
    else
      Max(DepthOf(items[..|items| - 1]), DepthOfItem(items[|items| - 1]))
  }

  function DepthOfItem(item: Item): (d: nat)
    decreases item
  {
    match item case TextItem(_) => 0 case SubItem(e) => Depth(e)
  }

  function Count(e: Element): (n: nat)
    decreases e
  {
    1 + CountOf(e.items)
  }

  function CountOf(items: seq<Item>): (n: nat)
    decreases items
  {
    if items == [] then 0
    else CountOf(items[..|items| - 1]) + CountOfItem(items[|items| - 1])
  }

  function CountOfItem(item: Item): (n: nat)
    decreases item
  {
    match item case TextItem(_) => 0 case SubItem(e) => Count(e)
  }

  // ---------- the reader ----------

  datatype Reader = Reader(stack: seq<Node>, root: Option<Node>, nodes: nat)

  function Push(n: Node, part: Part): (r: Node)
  {
    n.(content := n.content + [part])
  }

  /** A finished node goes to its parent, or becomes the one root. */
  function Attach(stack: seq<Node>, root: Option<Node>, node: Node): (r: Option<(seq<Node>, Option<Node>)>)
  {
    if stack != [] then
      Some((stack[..|stack| - 1] + [Push(stack[|stack| - 1], Child(node))], root))
    else if root.Some? then None
    else Some((stack, Some(node)))
  }

  function Step(rd: Reader, t: Token, limits: Limits): (r: Option<Reader>)
  {
    match t
    case StartTag(name, attributes, empty) =>
      if rd.nodes + 1 > limits.maxNodes || |rd.stack| + 1 > limits.maxDepth then None
      else
        var node := Node(name, attributes, []);
        if empty then
          (match Attach(rd.stack, rd.root, node)
           case None => None
           case Some((stack, root)) => Some(Reader(stack, root, rd.nodes + 1)))
        else Some(Reader(rd.stack + [node], rd.root, rd.nodes + 1))
    case EndTag(name) =>
      if rd.stack == [] || rd.stack[|rd.stack| - 1].name != name then None
      else
        (match Attach(rd.stack[..|rd.stack| - 1], rd.root, rd.stack[|rd.stack| - 1])
         case None => None
         case Some((stack, root)) => Some(Reader(stack, root, rd.nodes)))
    case TextRun(value) =>
      if rd.stack != [] then
        Some(rd.(stack := rd.stack[..|rd.stack| - 1] + [Push(rd.stack[|rd.stack| - 1], Text(value))]))
      else if Blank(value) then Some(rd)
      else None
  }

  function Read(tokens: seq<Token>, rd: Reader, limits: Limits): (r: Option<Reader>)
  {
    if tokens == [] then Some(rd)
    else
      match Read(tokens[..|tokens| - 1], rd, limits)
      case None => None
      case Some(rd') => Step(rd', tokens[|tokens| - 1], limits)
  }

  lemma {:induction false} ReadConcat(a: seq<Token>, b: seq<Token>, rd: Reader, limits: Limits)
    ensures Read(a + b, rd, limits) ==
            match Read(a, rd, limits) case None => None case Some(rd') => Read(b, rd', limits)
    decreases |b|
  {
    if b == [] {
      assert a + b == a;
    } else {
      assert (a + b)[..|a + b| - 1] == a + b[..|b| - 1];
      ReadConcat(a, b[..|b| - 1], rd, limits);
    }
  }

  lemma ReadOne(t: Token, rd: Reader, limits: Limits)
    ensures Read([t], rd, limits) == Step(rd, t, limits)
  {
    assert [t][..0] == [];
  }

  // ---------- every document within the limits is rebuilt ----------

  /** The reader after the node on top of its stack got more content. */
  function Filled(rd: Reader, parts: seq<Part>, nodes: nat): (r: Reader)
    requires rd.stack != []
  {
    var top := rd.stack[|rd.stack| - 1];
    Reader(rd.stack[..|rd.stack| - 1] + [top.(content := top.content + parts)], rd.root, rd.nodes + nodes)
  }

  lemma FilledTwice(rd: Reader, a: seq<Part>, m: nat, b: seq<Part>, n: nat)
    requires rd.stack != []
    ensures Filled(Filled(rd, a, m), b, n) == Filled(rd, a + b, m + n)
  {
    var top := rd.stack[|rd.stack| - 1];
    assert top.content + a + b == top.content + (a + b);
    assert Filled(rd, a, m).stack[..|rd.stack| - 1] == rd.stack[..|rd.stack| - 1];
  }

  lemma FilledNothing(rd: Reader)
    requires rd.stack != []
    ensures Filled(rd, [], 0) == rd
  {
    var top := rd.stack[|rd.stack| - 1];
    assert top.content + [] == top.content;
    assert rd.stack[..|rd.stack| - 1] + [top] == rd.stack;
  }

  lemma ReadNothing(rd: Reader, limits: Limits)
    ensures Read([], rd, limits) == Some(rd)
  {
  }

  /** Reading an element attaches its tree and counts its nodes. */
  lemma {:induction false} ReadElement(e: Element, rd: Reader, limits: Limits)
    requires WellFormed(e) && |rd.stack| + Depth(e) <= limits.maxDepth && rd.nodes + Count(e) <= limits.maxNodes
    ensures Read(Tokens(e), rd, limits) ==
            match Attach(rd.stack, rd.root, Raw(e))
            case None => None
            case Some((stack, root)) => Some(Reader(stack, root, rd.nodes + Count(e)))
    decreases e
  {
    hide Attach, Read;
    var start := StartTag(e.name, e.attributes, e.selfClosed);
    ReadOne(start, rd, limits);
    if !e.selfClosed {
      var begun := Reader(rd.stack + [Node(e.name, e.attributes, [])], rd.root, rd.nodes + 1);
      ReadItems(e.items, begun, limits);
      var filled := Reader(rd.stack + [Raw(e)], rd.root, rd.nodes + Count(e));
      assert begun.stack[..|rd.stack|] == rd.stack && [] + RawParts(e.items) == RawParts(e.items);
      assert filled == Filled(begun, RawParts(e.items), CountOf(e.items));
      ReadConcat([start], TokensOf(e.items), rd, limits);
      ReadConcat([start] + TokensOf(e.items), [EndTag(e.name)], rd, limits);
      ReadOne(EndTag(e.name), filled, limits);
      assert filled.stack[..|rd.stack|] == rd.stack;
    }
  }

  lemma {:induction false} ReadItem(item: Item, rd: Reader, limits: Limits)
    requires WellFormedItem(item) && rd.stack != []
    requires |rd.stack| + DepthOfItem(item) <= limits.maxDepth && rd.nodes + CountOfItem(item) <= limits.maxNodes
    ensures Read(TokensOfItem(item), rd, limits) == Some(Filled(rd, [RawPart(item)], CountOfItem(item)))
    decreases item
  {
    hide Read, Tokens, Raw, Depth, Count, WellFormed;
    match item
    case TextItem(value) => ReadOne(TextRun(value), rd, limits);
    case SubItem(e) => ReadElement(e, rd, limits);
  }

  /** Reading the content of an open element appends its parts to the node on top of the stack. */
  lemma {:induction false} ReadItems(items: seq<Item>, rd: Reader, limits: Limits)
    requires WellFormedItems(items) && rd.stack != []
    requires |rd.stack| + DepthOf(items) <= limits.maxDepth && rd.nodes + CountOf(items) <= limits.maxNodes
    ensures Read(TokensOf(items), rd, limits) == Some(Filled(rd, RawParts(items), CountOf(items)))
    decreases items
  {
    hide Read;
    if items == [] {
      FilledNothing(rd);
      ReadNothing(rd, limits);
    } else {
      var most, last := items[..|items| - 1], items[|items| - 1];
      ReadItems(most, rd, limits);
      ReadConcat(TokensOf(most), TokensOfItem(last), rd, limits);
      ReadItem(last, Filled(rd, RawParts(most), CountOf(most)), limits);
      FilledTwice(rd, RawParts(most), CountOf(most), [RawPart(last)], CountOfItem(last));
    }
  }

  // ---------- whole documents ----------

  /** Blank text, one root element, blank text. */
  datatype Document = Document(lead: seq<string>, root: Element, trail: seq<string>)

  function Texts(values: seq<string>): (ts: seq<Token>)
  {
    seq(|values|, i requires 0 <= i < |values| => TextRun(values[i]))
  }

  function DocumentTokens(d: Document): (ts: seq<Token>)
  {
    Texts(d.lead) + Tokens(d.root) + Texts(d.trail)
  }

  predicate AllBlank(values: seq<string>)
  {
    forall i | 0 <= i < |values| :: Blank(values[i])
  }

  predicate Acceptable(d: Document, limits: Limits)
  {
    AllBlank(d.lead) && AllBlank(d.trail) && WellFormed(d.root) &&
    Depth(d.root) <= limits.maxDepth && Count(d.root) <= limits.maxNodes
  }

  const NOTHING := Reader([], None, 0)

  lemma {:induction false} ReadBlank(values: seq<string>, rd: Reader, limits: Limits)
    requires AllBlank(values) && rd.stack == []
    ensures Read(Texts(values), rd, limits) == Some(rd)
  {
    if values != [] {
      var most := values[..|values| - 1];
      ReadBlank(most, rd, limits);
      assert Texts(values)[..|values| - 1] == Texts(most);
    }
  }

  /** Every document within the limits is read back as its tree. */
  lemma ReadDocument(d: Document, limits: Limits)
    requires Acceptable(d, limits)
    ensures Read(DocumentTokens(d), NOTHING, limits) == Some(Reader([], Some(Raw(d.root)), Count(d.root)))
  {
    hide Read;
    ReadBlank(d.lead, NOTHING, limits);
    ReadConcat(Texts(d.lead), Tokens(d.root), NOTHING, limits);
    ReadElement(d.root, NOTHING, limits);
    ReadConcat(Texts(d.lead) + Tokens(d.root), Texts(d.trail), NOTHING, limits);
    ReadBlank(d.trail, Reader([], Some(Raw(d.root)), Count(d.root)), limits);
  }

  // ---------- nothing else is read ----------

  /** The tokens of the elements still open, outermost first, with the content each has so far. */
  function OpenTokens(path: seq<Element>): (ts: seq<Token>)
  {
    if path == [] then []
    else
      var e := path[|path| - 1];
      OpenTokens(path[..|path| - 1]) + [StartTag(e.name, e.attributes, false)] + TokensOf(e.items)
  }

  function OpenCount(path: seq<Element>): (n: nat)
  {
    if path == [] then 0 else OpenCount(path[..|path| - 1]) + Count(path[|path| - 1])
  }

  predicate OpenAt(e: Element, level: nat, node: Node, limits: Limits)
  {
    !e.selfClosed && WellFormed(e) && node == Raw(e) && level + Depth(e) <= limits.maxDepth
  }

  predicate OpenPath(path: seq<Element>, stack: seq<Node>, limits: Limits)
  {
    |path| == |stack| && forall i | 0 <= i < |path| :: OpenAt(path[i], i, stack[i], limits)
  }

  /** What the tokens read so far spell: an open path, a finished document, or a second root begun. */
  datatype Story = Opening(lead: seq<string>, path: seq<Element>) | Closed(document: Document) | SecondRoot

  ghost predicate Tells(story: Story, tokens: seq<Token>, rd: Reader, limits: Limits)
  {
    match story
    case Opening(lead, path) =>
      AllBlank(lead) && tokens == Texts(lead) + OpenTokens(path) && OpenPath(path, rd.stack, limits) &&
      rd.root.None? && rd.nodes == OpenCount(path) <= limits.maxNodes
    case Closed(d) =>
      Acceptable(d, limits) && tokens == DocumentTokens(d) && rd == Reader([], Some(Raw(d.root)), Count(d.root))
    case SecondRoot =>
      rd.stack != [] && rd.root.Some?
  }

  lemma ItemsSnoc(items: seq<Item>, item: Item)
    ensures TokensOf(items + [item]) == TokensOf(items) + TokensOfItem(item)
    ensures RawParts(items + [item]) == RawParts(items) + [RawPart(item)]
    ensures DepthOf(items + [item]) == Max(DepthOf(items), DepthOfItem(item))
    ensures CountOf(items + [item]) == CountOf(items) + CountOfItem(item)
    ensures WellFormedItems(items + [item]) <==> WellFormedItems(items) && WellFormedItem(item)
  {
    assert (items + [item])[..|items|] == items;
  }

  /** The innermost open element with one more item. */
  function Grown(path: seq<Element>, item: Item): (r: seq<Element>)
    requires path != []
  {
    var e := path[|path| - 1];
    path[..|path| - 1] + [e.(items := e.items + [item])]
  }

  lemma PathGrows(path: seq<Element>, stack: seq<Node>, limits: Limits, item: Item)
    requires path != [] && OpenPath(path, stack, limits) && WellFormedItem(item)
    requires |path| + DepthOfItem(item) <= limits.maxDepth
    ensures OpenPath(Grown(path, item), stack[..|stack| - 1] + [Push(stack[|stack| - 1], RawPart(item))], limits)
    ensures OpenTokens(Grown(path, item)) == OpenTokens(path) + TokensOfItem(item)
    ensures OpenCount(Grown(path, item)) == OpenCount(path) + CountOfItem(item)
  {
    hide TokensOf, RawParts, DepthOf, CountOf, WellFormedItems;
    var n := |path| - 1;
    var e, path' := path[n], Grown(path, item);
    ItemsSnoc(e.items, item);
    assert OpenAt(e, n, stack[n], limits);
    assert path'[..n] == path[..n] && path'[n] == e.(items := e.items + [item]);
    assert OpenAt(path'[n], n, Push(stack[n], RawPart(item)), limits);
    assert OpenTokens(path[..n]) + [StartTag(e.name, e.attributes, false)] + (TokensOf(e.items) + TokensOfItem(item))
        == OpenTokens(path) + TokensOfItem(item);
  }

  /** Closing the innermost open element spells it out in full. */
  lemma {:induction false} PathCloses(path: seq<Element>)
    requires path != [] && !path[|path| - 1].selfClosed
    ensures OpenTokens(path) + [EndTag(path[|path| - 1].name)]
         == OpenTokens(path[..|path| - 1]) + Tokens(path[|path| - 1])
  {
  }

  lemma BareElement(e: Element)
    requires e.items == []
    ensures WellFormed(e) && Raw(e) == Node(e.name, e.attributes, []) && Depth(e) == 1 && Count(e) == 1
    ensures TokensOf(e.items) == []
  {
  }

  lemma {:induction false} PathOpens(path: seq<Element>, stack: seq<Node>, limits: Limits, name: string,
                                     attributes: Attributes)
    requires OpenPath(path, stack, limits) && |path| + 1 <= limits.maxDepth
    ensures var e := Element(name, attributes, false, []);
            OpenPath(path + [e], stack + [Node(name, attributes, [])], limits) &&
            OpenTokens(path + [e]) == OpenTokens(path) + [StartTag(name, attributes, false)] &&
            OpenCount(path + [e]) == OpenCount(path) + 1
  {
    var e := Element(name, attributes, false, []);
    BareElement(e);
    assert (path + [e])[..|path|] == path;
    assert OpenAt(e, |path|, Node(name, attributes, []), limits);
    assert OpenTokens(path + [e]) == OpenTokens(path) + [StartTag(name, attributes, false)] + [];
  }

  lemma NoPath()
    ensures OpenTokens([]) == [] && OpenCount([]) == 0
  {
  }

  lemma PathLength(path: seq<Element>, stack: seq<Node>, limits: Limits)
    requires OpenPath(path, stack, limits)
    ensures |path| == |stack|
  {
  }

  /** An element finished under an open path, or as the root. */
  lemma Finished(
    lead: seq<string>, path: seq<Element>, tokens: seq<Token>, e: Element, stack: seq<Node>, nodes: nat, limits: Limits)
    returns (story: Story)
    requires AllBlank(lead) && OpenPath(path, stack, limits) && WellFormed(e)
    requires tokens == Texts(lead) + (OpenTokens(path) + Tokens(e))
    requires |path| + Depth(e) <= limits.maxDepth && nodes == OpenCount(path) + Count(e) <= limits.maxNodes
    ensures Attach(stack, None, Raw(e)).Some?
    ensures var (stack', root') := Attach(stack, None, Raw(e)).value;
            Tells(story, tokens, Reader(stack', root', nodes), limits)
  {
    hide Tokens, Raw, Depth, Count, WellFormed, OpenTokens, OpenPath, OpenCount;
    if path == [] {
      NoPath();
      PathLength(path, stack, limits);
      story := Closed(Document(lead, e, []));
      assert Texts([]) == [];
      assert Texts(lead) + ([] + Tokens(e)) == Texts(lead) + Tokens(e) + [];
    } else {
      PathLength(path, stack, limits);
      PathGrows(path, stack, limits, SubItem(e));
      story := Opening(lead, Grown(path, SubItem(e)));
    }
  }

  lemma TellStart(lead: seq<string>, path: seq<Element>, tokens: seq<Token>, rd: Reader, t: Token, limits: Limits)
    returns (story: Story)
    requires Tells(Opening(lead, path), tokens, rd, limits) && t.StartTag? && Step(rd, t, limits).Some?
    ensures Tells(story, tokens + [t], Step(rd, t, limits).value, limits)
  {
    hide OpenTokens, OpenPath, OpenCount, Texts;
    PathLength(path, rd.stack, limits);
    if t.empty {
      var e := Element(t.name, t.attributes, true, []);
      assert tokens + [t] == Texts(lead) + (OpenTokens(path) + Tokens(e));
      story := Finished(lead, path, tokens + [t], e, rd.stack, rd.nodes + 1, limits);
    } else {
      PathOpens(path, rd.stack, limits, t.name, t.attributes);
      story := Opening(lead, path + [Element(t.name, t.attributes, false, [])]);
      assert tokens + [t] == Texts(lead) + (OpenTokens(path) + [t]);
    }
  }

  lemma TellEnd(lead: seq<string>, path: seq<Element>, tokens: seq<Token>, rd: Reader, t: Token, limits: Limits)
    returns (story: Story)
    requires Tells(Opening(lead, path), tokens, rd, limits) && t.EndTag? && Step(rd, t, limits).Some?
    ensures Tells(story, tokens + [t], Step(rd, t, limits).value, limits)
  {
    hide OpenTokens, Texts, Depth, Count, WellFormed;
    var n := |path| - 1;
    var e := path[n];
    assert OpenAt(e, n, rd.stack[n], limits);
    PathCloses(path);
    assert OpenPath(path[..n], rd.stack[..n], limits);
    assert tokens + [t] == Texts(lead) + (OpenTokens(path) + [t]);
    story := Finished(lead, path[..n], tokens + [t], e, rd.stack[..n], rd.nodes, limits);
  }

  lemma DepthFits(path: seq<Element>, stack: seq<Node>, limits: Limits)
    requires OpenPath(path, stack, limits) && path != []
    ensures |path| <= limits.maxDepth
  {
    assert OpenAt(path[|path| - 1], |path| - 1, stack[|path| - 1], limits);
  }

  lemma TellText(lead: seq<string>, path: seq<Element>, tokens: seq<Token>, rd: Reader, t: Token, limits: Limits)
    returns (story: Story)
    requires Tells(Opening(lead, path), tokens, rd, limits) && t.TextRun? && Step(rd, t, limits).Some?
    ensures Tells(story, tokens + [t], Step(rd, t, limits).value, limits)
  {
    hide OpenTokens, OpenPath, OpenCount;
    PathLength(path, rd.stack, limits);
    if path == [] {
      NoPath();
      story := Opening(lead + [t.value], []);
      assert Texts(lead + [t.value]) == Texts(lead) + [t];
      assert tokens + [t] == Texts(lead + [t.value]) + [];
    } else {
      DepthFits(path, rd.stack, limits);
      PathGrows(path, rd.stack, limits, TextItem(t.value));
      story := Opening(lead, Grown(path, TextItem(t.value)));
      assert tokens + [t] == Texts(lead) + (OpenTokens(path) + [t]);
    }
  }

  /** After the root: blank text continues the document, and a new element can never be finished. */
  lemma TellMore(d: Document, tokens: seq<Token>, rd: Reader, t: Token, limits: Limits) returns (story: Story)
    requires Tells(Closed(d), tokens, rd, limits) && Step(rd, t, limits).Some?
    ensures Tells(story, tokens + [t], Step(rd, t, limits).value, limits)
  {
    hide Tokens, Raw, Depth, Count, WellFormed;
    if t.TextRun? {
      story := Closed(d.(trail := d.trail + [t.value]));
      assert Texts(d.trail + [t.value]) == Texts(d.trail) + [t];
      assert tokens + [t] == Texts(d.lead) + Tokens(d.root) + (Texts(d.trail) + [t]);
    } else {
      story := SecondRoot;
    }
  }

  lemma EmptyPath(limits: Limits)
    ensures OpenPath([], [], limits)
  {
  }

  lemma StaysSecond(rd: Reader, t: Token, limits: Limits)
    requires rd.stack != [] && rd.root.Some? && Step(rd, t, limits).Some?
    ensures var rd' := Step(rd, t, limits).value; rd'.stack != [] && rd'.root.Some?
  {
  }

  /** Whatever is read so far can be told. */
  lemma {:induction false} Tell(tokens: seq<Token>, limits: Limits) returns (story: Story)
    requires Read(tokens, NOTHING, limits).Some?
    ensures Tells(story, tokens, Read(tokens, NOTHING, limits).value, limits)
  {
    hide Step, OpenTokens, OpenPath, OpenCount;
    if tokens == [] {
      NoPath();
      EmptyPath(limits);
      story := Opening([], []);
      assert Texts([]) + [] == [];
    } else {
      var most, t := tokens[..|tokens| - 1], tokens[|tokens| - 1];
      var before := Tell(most, limits);
      var rd := Read(most, NOTHING, limits).value;
      assert most + [t] == tokens;
      match before
      case Closed(d) =>
        story := TellMore(d, most, rd, t, limits);
      case SecondRoot =>
        StaysSecond(rd, t, limits);
        story := SecondRoot;
      case Opening(lead, path) =>
        match t {
          case StartTag(_, _, _) => story := TellStart(lead, path, most, rd, t, limits);
          case EndTag(_) => story := TellEnd(lead, path, most, rd, t, limits);
          case TextRun(_) => story := TellText(lead, path, most, rd, t, limits);
        }
    }
  }

  // ---------- normalisation ----------

  /** Appends a part, merging text into text. */
  function Merge(parts: seq<Part>, part: Part): (r: seq<Part>)
  {
    if part.Text? && parts != [] && parts[|parts| - 1].Text?
    then parts[..|parts| - 1] + [Text(parts[|parts| - 1].value + part.value)]
    else parts + [part]
  }

  function Normalize(n: Node): (r: Node)
    decreases n
  {
    n.(content := NormalizeParts(n.content))
  }

  function NormalizeParts(parts: seq<Part>): (r: seq<Part>)
    decreases parts
  {
    if parts == [] then []
    else Merge(NormalizeParts(parts[..|parts| - 1]), NormalizePart(parts[|parts| - 1]))
  }

  function NormalizePart(part: Part): (r: Part)
    decreases part
  {
    match part case Text(_) => part case Child(n) => Child(Normalize(n))
  }

  /** No two adjacent texts, at any depth. */
  predicate Normalized(n: Node)
    decreases n
  {
    NormalizedParts(n.content)
  }

  predicate NormalizedParts(parts: seq<Part>)
    decreases parts
  {
    (forall i | 0 <= i < |parts| - 1 :: !(parts[i].Text? && parts[i + 1].Text?)) &&
    forall i | 0 <= i < |parts| :: NormalizedPart(parts[i])
  }

  predicate NormalizedPart(part: Part)
    decreases part
  {
    match part case Text(_) => true case Child(n) => Normalized(n)
  }

  /** A tree as the stream of its tags and characters, in document order. */
  datatype Event = Open(name: string, attributes: Attributes) | Char(c: char) | Close

  function Chars(s: string): (es: seq<Event>)
  {
    seq(|s|, i requires 0 <= i < |s| => Char(s[i]))
  }

  function Events(n: Node): (es: seq<Event>)
    decreases n
  {
    [Open(n.name, n.attributes)] + EventsOf(n.content) + [Close]
  }

  function EventsOf(parts: seq<Part>): (es: seq<Event>)
    decreases parts
  {
    if parts == [] then [] else EventsOfPart(parts[0]) + EventsOf(parts[1..])
  }

  function EventsOfPart(part: Part): (es: seq<Event>)
    decreases part
  {
    match part case Text(value) => Chars(value) case Child(n) => Events(n)
  }

  lemma {:induction false} EventsSnoc(parts: seq<Part>, part: Part)
    ensures EventsOf(parts + [part]) == EventsOf(parts) + EventsOfPart(part)
    decreases |parts|
  {
    hide EventsOfPart;
    if parts == [] {
      assert [part][1..] == [];
      assert parts + [part] == [part];
    } else {
      assert (parts + [part])[1..] == parts[1..] + [part];
      EventsSnoc(parts[1..], part);
      assert EventsOfPart(parts[0]) + (EventsOf(parts[1..]) + EventsOfPart(part))
          == EventsOfPart(parts[0]) + EventsOf(parts[1..]) + EventsOfPart(part);
    }
  }

  lemma MergeEvents(parts: seq<Part>, part: Part)
    ensures EventsOf(Merge(parts, part)) == EventsOf(parts) + EventsOfPart(part)
  {
    hide EventsOf, Events;
    if part.Text? && parts != [] && parts[|parts| - 1].Text? {
      var most, last := parts[..|parts| - 1], parts[|parts| - 1];
      assert parts == most + [last];
      EventsSnoc(most, last);
      EventsSnoc(most, Text(last.value + part.value));
      assert Chars(last.value + part.value) == Chars(last.value) + Chars(part.value);
      assert EventsOf(most) + (Chars(last.value) + Chars(part.value)) ==
             EventsOf(most) + Chars(last.value) + Chars(part.value);
    } else {
      EventsSnoc(parts, part);
    }
  }

  lemma NoParts()
    ensures NormalizedParts([])
  {
  }

  lemma {:induction false} MergeNormalized(parts: seq<Part>, part: Part)
    requires NormalizedParts(parts) && NormalizedPart(part)
    ensures NormalizedParts(Merge(parts, part))
  {
  }

  /** Normalising changes no tag, no character and no order, and leaves no adjacent texts. */
  lemma {:induction false} NormalizeKeeps(n: Node)
    ensures Events(Normalize(n)) == Events(n) && Normalized(Normalize(n))
    decreases n
  {
    NormalizePartsKeeps(n.content);
  }

  lemma {:induction false} NormalizePartsKeeps(parts: seq<Part>)
    ensures EventsOf(NormalizeParts(parts)) == EventsOf(parts) && NormalizedParts(NormalizeParts(parts))
    decreases parts
  {
    hide EventsOf, EventsOfPart, NormalizedParts, Merge;
    if parts == [] {
      NoParts();
    } else {
      var most, last := parts[..|parts| - 1], parts[|parts| - 1];
      NormalizePartsKeeps(most);
      NormalizePartKeeps(last);
      MergeEvents(NormalizeParts(most), NormalizePart(last));
      MergeNormalized(NormalizeParts(most), NormalizePart(last));
      EventsSnoc(most, last);
      assert parts == most + [last];
    }
  }

  lemma {:induction false} NormalizePartKeeps(part: Part)
    ensures EventsOfPart(NormalizePart(part)) == EventsOfPart(part) && NormalizedPart(NormalizePart(part))
    decreases part
  {
    if part.Child? { NormalizeKeeps(part.node); }
  }

  lemma {:induction false} NormalizedPartsFixed(parts: seq<Part>)
    requires NormalizedParts(parts)
    ensures NormalizeParts(parts) == parts
    decreases parts
  {
    if parts != [] {
      var most, last := parts[..|parts| - 1], parts[|parts| - 1];
      assert most + [last] == parts;
      NormalizedPartsFixed(most);
      NormalizedPartFixed(last);
    }
  }

  /** Normalised trees are exactly the fixed points, so normalising twice is normalising once. */
  lemma {:induction false} NormalizeFixes(n: Node)
    ensures Normalized(n) <==> Normalize(n) == n
    ensures Normalize(Normalize(n)) == Normalize(n)
  {
    NormalizeKeeps(n);
    if Normalized(n) { NormalizedPartsFixed(n.content); }
    NormalizedPartsFixed(Normalize(n).content);
  }

  lemma {:induction false} NormalizedPartFixed(part: Part)
    requires NormalizedPart(part)
    ensures NormalizePart(part) == part
    decreases part
  {
    if part.Child? { NormalizedPartsFixed(part.node.content); }
  }

  // ---------- normal forms are canonical ----------

  predicate NoEmptyText(parts: seq<Part>)
    decreases parts
  {
    forall i | 0 <= i < |parts| :: NoEmptyTextIn(parts[i])
  }

  predicate NoEmptyTextIn(part: Part)
    decreases part
  {
    match part case Text(value) => value != [] case Child(n) => NoEmptyText(n.content)
  }

  predicate Canonical(parts: seq<Part>)
  {
    NormalizedParts(parts) && NoEmptyText(parts)
  }

  lemma EventsCons(ps: seq<Part>)
    requires ps != []
    ensures EventsOf(ps) == EventsOfPart(ps[0]) + EventsOf(ps[1..])
  {
  }

  /** What can follow a text in canonical content: a tag. */
  lemma AfterText(parts: seq<Part>, rest: seq<Event>)
    requires parts != [] ==> parts[0].Child?
    ensures !(EventsOf(parts) + [Close] + rest)[0].Char?
  {
    if parts != [] {
      EventsCons(parts);
      assert EventsOfPart(parts[0])[0] == Open(parts[0].node.name, parts[0].node.attributes);
    }
  }

  /** How many characters a stream begins with. */
  function Run(es: seq<Event>): (n: nat)
  {
    if es == [] || !es[0].Char? then 0 else 1 + Run(es[1..])
  }

  lemma {:induction false} RunOfChars(v: string, s: seq<Event>)
    requires s != [] && !s[0].Char?
    ensures Run(Chars(v) + s) == |v|
  {
    if v == [] {
      assert Chars(v) + s == s;
    } else {
      RunOfChars(v[1..], s);
      assert (Chars(v) + s)[1..] == Chars(v[1..]) + s;
    }
  }

  /** Two runs of characters, each followed by a tag, are equal if the streams are. */
  lemma SameText(ps: seq<Part>, qs: seq<Part>, s: seq<Event>, t: seq<Event>)
    requires ps != [] && qs != [] && ps[0].Text? && qs[0].Text?
    requires s != [] && t != [] && !s[0].Char? && !t[0].Char?
    requires Chars(ps[0].value) + s == Chars(qs[0].value) + t
    ensures ps[0] == qs[0] && s == t
  {
    var v, w := ps[0].value, qs[0].value;
    var left, right := Chars(v) + s, Chars(w) + t;
    RunOfChars(v, s);
    RunOfChars(w, t);
    forall i | 0 <= i < |v|
      ensures v[i] == w[i]
    {
      assert left[i] == Char(v[i]) && right[i] == Char(w[i]);
    }
    assert left[|v|..] == s && right[|w|..] == t;
  }

  lemma {:induction false} CanonicalTail(ps: seq<Part>)
    requires ps != [] && Canonical(ps)
    ensures Canonical(ps[1..]) && NoEmptyTextIn(ps[0]) && NormalizedPart(ps[0])
    ensures ps[0].Child? ==> Canonical(ps[0].node.content)
    ensures ps[0].Text? && |ps| > 1 ==> ps[1].Child?
  {
    var tail := ps[1..];
    assert NoEmptyTextIn(ps[0]) && NormalizedPart(ps[0]);
    if |ps| > 1 { assert !(ps[0].Text? && ps[0 + 1].Text?); }
    forall i | 0 <= i < |tail|
      ensures NoEmptyTextIn(tail[i]) && NormalizedPart(tail[i])
      ensures i + 1 < |tail| ==> !(tail[i].Text? && tail[i + 1].Text?)
    {
      assert tail[i] == ps[i + 1] && NoEmptyTextIn(ps[i + 1]) && NormalizedPart(ps[i + 1]);
      if i + 1 < |tail| { assert !(ps[i + 1].Text? && ps[i + 1 + 1].Text?); }
    }
    assert NormalizedParts(tail);
    assert NoEmptyText(tail);
    if ps[0].Child? {
      assert Normalized(ps[0].node);
      assert NoEmptyText(ps[0].node.content);
    }
  }

  /** The first event tells text from element, and either from the end. */
  lemma FirstEvent(ps: seq<Part>, s: seq<Event>)
    requires ps != [] && Canonical(ps)
    ensures var es := EventsOf(ps) + [Close] + s;
            if ps[0].Text? then es[0].Char? else es[0].Open?
    ensures ps[0].Text? ==> !(EventsOf(ps[1..]) + [Close] + s)[0].Char?
  {
    CanonicalTail(ps);
    EventsCons(ps);
    if ps[0].Text? {
      assert EventsOf(ps)[0] == Chars(ps[0].value)[0];
      AfterText(ps[1..], s);
    } else {
      assert EventsOfPart(ps[0])[0] == Open(ps[0].node.name, ps[0].node.attributes);
    }
  }

  lemma SameWhenEmpty(ps: seq<Part>, qs: seq<Part>, s: seq<Event>, t: seq<Event>)
    requires Canonical(ps) && Canonical(qs) && (ps == [] || qs == [])
    requires EventsOf(ps) + [Close] + s == EventsOf(qs) + [Close] + t
    ensures ps == qs && s == t
  {
    if ps != [] {
      FirstEvent(ps, s);
    } else if qs != [] {
      FirstEvent(qs, t);
    } else {
      assert (EventsOf(ps) + [Close] + s)[1..] == s && (EventsOf(qs) + [Close] + t)[1..] == t;
    }
  }

  /** Canonical content is determined by its events, whatever follows its closing tag. */
  lemma {:induction false} SameEvents(ps: seq<Part>, qs: seq<Part>, s: seq<Event>, t: seq<Event>)
    requires Canonical(ps) && Canonical(qs)
    requires EventsOf(ps) + [Close] + s == EventsOf(qs) + [Close] + t
    ensures ps == qs && s == t
    decreases ps
  {
    hide EventsOf, NormalizedParts, NoEmptyText;
    if ps == [] || qs == [] {
      SameWhenEmpty(ps, qs, s, t);
    } else {
      FirstEvent(ps, s);
      FirstEvent(qs, t);
      CanonicalTail(ps);
      CanonicalTail(qs);
      EventsCons(ps);
      EventsCons(qs);
      var s', t' := EventsOf(ps[1..]) + [Close] + s, EventsOf(qs[1..]) + [Close] + t;
      assert EventsOf(ps) + [Close] + s == EventsOfPart(ps[0]) + s';
      assert EventsOf(qs) + [Close] + t == EventsOfPart(qs[0]) + t';
      if ps[0].Text? {
        SameText(ps, qs, s', t');
      } else {
        SameChild(ps[0], qs[0], s', t');
      }
      SameEvents(ps[1..], qs[1..], s, t);
      assert ps == [ps[0]] + ps[1..] && qs == [qs[0]] + qs[1..];
    }
  }

  lemma {:induction false} SameChild(p: Part, q: Part, s: seq<Event>, t: seq<Event>)
    requires p.Child? && q.Child? && Canonical(p.node.content) && Canonical(q.node.content)
    requires EventsOfPart(p) + s == EventsOfPart(q) + t
    ensures p == q && s == t
    decreases p
  {
    hide EventsOf, NormalizedParts, NoEmptyText;
    var a, b := p.node, q.node;
    var left, right := EventsOfPart(p) + s, EventsOfPart(q) + t;
    assert left[0] == Open(a.name, a.attributes) && right[0] == Open(b.name, b.attributes);
    assert left[1..] == EventsOf(a.content) + [Close] + s;
    assert right[1..] == EventsOf(b.content) + [Close] + t;
    SameEvents(a.content, b.content, s, t);
  }

  lemma {:induction false} NormalizeNoEmpty(parts: seq<Part>)
    requires NoEmptyText(parts)
    ensures NoEmptyText(NormalizeParts(parts))
    decreases parts
  {
    if parts != [] {
      var most, last := parts[..|parts| - 1], parts[|parts| - 1];
      assert NoEmptyTextIn(last);
      NormalizeNoEmpty(most);
      NormalizeNoEmptyIn(last);
    }
  }

  lemma {:induction false} NormalizeNoEmptyIn(part: Part)
    requires NoEmptyTextIn(part)
    ensures NoEmptyTextIn(NormalizePart(part))
    decreases part
  {
    if part.Child? { NormalizeNoEmpty(part.node.content); }
  }

  /**
   The normal form is canonical: trees without empty texts have the same normal form
   exactly when they have the same tags and characters in the same order.
   */
  lemma NormalFormsCanonical(m: Node, n: Node)
    requires NoEmptyText(m.content) && NoEmptyText(n.content)
    ensures Normalize(m) == Normalize(n) <==> Events(m) == Events(n)
  {
    hide EventsOf, NormalizeParts, NoEmptyText, NormalizedParts;
    NormalizeKeeps(m);
    NormalizeKeeps(n);
    if Events(m) == Events(n) {
      var m', n' := Normalize(m), Normalize(n);
      NormalizeNoEmpty(m.content);
      NormalizeNoEmpty(n.content);
      assert Events(m')[0] == Open(m.name, m.attributes) && Events(n')[0] == Open(n.name, n.attributes);
      assert Events(m')[1..] == EventsOf(m'.content) + [Close] + [];
      assert Events(n')[1..] == EventsOf(n'.content) + [Close] + [];
      SameEvents(m'.content, n'.content, [], []);
    }
  }

  // ---------- the code ----------

  method NormalizeRawXmlNode(node: Node) returns (r: Node)
    ensures r == Normalize(node)
    ensures Events(r) == Events(node) && Normalized(r)
    decreases node
  {
    NormalizeKeeps(node);
    var normalized: seq<Part> := [];
    var i := 0;
    while i < |node.content|
      invariant 0 <= i <= |node.content|
      invariant normalized == NormalizeParts(node.content[..i])
    {
      var part := node.content[i];
      assert node.content[..i + 1][..i] == node.content[..i];
      match part {
      case Text(value) =>
        if normalized != [] && normalized[|normalized| - 1].Text? {
          var previous := normalized[|normalized| - 1].value;
          normalized := normalized[..|normalized| - 1] + [Text(previous + value)];
        } else {
          normalized := normalized + [Text(value)];
        }
      case Child(child) =>
        assert part in node.content;
        var child' := NormalizeRawXmlNode(child);
        normalized := normalized + [Child(child')];
      }
      i := i + 1;
    }
    assert node.content[..|node.content|] == node.content;
    r := node.(content := normalized);
  }

  /** A JTL report: a `testResults` root of version 1.2. */
  predicate IsReport(name: string, attributes: Attributes)
  {
    name == "testResults" && ("version", "1.2") in attributes
  }

  /** `d` is a report within the limits, spelled by these tokens. */
  ghost predicate Spells(d: Document, tokens: seq<Token>, limits: Limits)
  {
    Acceptable(d, limits) && IsReport(d.root.name, d.root.attributes) && tokens == DocumentTokens(d)
  }

  /** One token more: the reading goes on with its step, or is refused for good. */
  lemma ReadOnward(tokens: seq<Token>, i: nat, limits: Limits)
    requires i < |tokens| && Read(tokens[..i], NOTHING, limits).Some?
    ensures Read(tokens[..i + 1], NOTHING, limits) == Step(Read(tokens[..i], NOTHING, limits).value, tokens[i], limits)
    ensures Read(tokens[..i + 1], NOTHING, limits).None? ==> Read(tokens, NOTHING, limits).None?
  {
    hide Step;
    assert tokens[..i + 1][..i] == tokens[..i];
    ReadConcat(tokens[..i + 1], tokens[i + 1..], NOTHING, limits);
    assert tokens[..i + 1] + tokens[i + 1..] == tokens;
  }

  /** The stack loop, as a reader that has consumed all its tokens. */
  method ReadTokens(tokens: seq<Token>, limits: Limits) returns (r: Option<Reader>)
    ensures r == Read(tokens, NOTHING, limits)
  {
    hide Read;
    ReadNothing(NOTHING, limits);
    var stack: seq<Node> := [];
    var root: Option<Node> := None;
    var nodes := 0;
    var i := 0;
    while i < |tokens|
      invariant 0 <= i <= |tokens| && Read(tokens[..i], NOTHING, limits) == Some(Reader(stack, root, nodes))
    {
      ReadOnward(tokens, i, limits);
      match tokens[i] {
      case StartTag(name, attributes, empty) =>
        nodes := nodes + 1;
        if nodes > limits.maxNodes || |stack| + 1 > limits.maxDepth {
          return None;
        }
        var node := Node(name, attributes, []);
        if empty {
          var attached := Attach(stack, root, node);
          if attached.None? {
            return None;
          }
          stack, root := attached.value.0, attached.value.1;
        } else {
          stack := stack + [node];
        }
      case EndTag(name) =>
        if stack == [] {
          return None;
        }
        var node := stack[|stack| - 1];
        stack := stack[..|stack| - 1];
        if node.name != name {
          return None;
        }
        var attached := Attach(stack, root, node);
        if attached.None? {
          return None;
        }
        stack, root := attached.value.0, attached.value.1;
      case TextRun(value) =>
        if stack != [] {
          stack := stack[..|stack| - 1] + [Push(stack[|stack| - 1], Text(value))];
        } else if !Blank(value) {
          return None;
        }
      }
      i := i + 1;
    }
    assert tokens[..|tokens|] == tokens;
    return Some(Reader(stack, root, nodes));
  }

  /** Every reading that ends with an empty stack and a root has read a document. */
  lemma ReadIsDocument(tokens: seq<Token>, limits: Limits) returns (d: Document)
    requires Read(tokens, NOTHING, limits).Some?
    requires var rd := Read(tokens, NOTHING, limits).value; rd.stack == [] && rd.root.Some?
    ensures Acceptable(d, limits) && tokens == DocumentTokens(d)
    ensures Read(tokens, NOTHING, limits).value.root == Some(Raw(d.root))
  {
    var story := Tell(tokens, limits);
    d := story.document;
  }

  /**
   The reader accepts exactly the reports within the limits, and returns the normalised
   tree of the report its tokens spell.
   */
  method Parse(tokens: seq<Token>, limits: Limits) returns (r: Option<Node>)
    ensures r.Some? ==> exists d :: Spells(d, tokens, limits) && r == Some(Normalize(Raw(d.root)))
    ensures forall d | Spells(d, tokens, limits) :: r == Some(Normalize(Raw(d.root)))
  {
    var read := ReadTokens(tokens, limits);
    forall d | Spells(d, tokens, limits)
      ensures read == Some(Reader([], Some(Raw(d.root)), Count(d.root)))
      ensures Raw(d.root).name == d.root.name && Raw(d.root).attributes == d.root.attributes
    {
      ReadDocument(d, limits);
    }
    if read.None? || read.value.stack != [] || read.value.root.None? {
      return None;
    }
    var root := read.value.root.value;
    ghost var d := ReadIsDocument(tokens, limits);
    if !IsReport(root.name, root.attributes) {
      return None;
    }
    assert Spells(d, tokens, limits);
    var normalized := NormalizeRawXmlNode(root);
    return Some(normalized);
  }
}
