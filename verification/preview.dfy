/**
  The script injected into the preview in edit mode: the locator that names
  an element by its path from the document root, and the mouse-up / click
  handlers that decide which message the preview posts to the application.

  The document is abstracted to what the locator reads: for the element it
  starts from and each element above it, the lower-case tag name, the `id`
  and the lower-case tag names of the previous element siblings.
 */
module Preview {
  import opened Text

  /** One element on the walk: lower-case tag, `id` ("" when it has none), and
      the lower-case tags of its previous element siblings in document order. */
  datatype Level = Level(tag: string, id: string, previousSiblingTags: seq<string>)

  /** What the locator is given: an element together with its element ancestors
      (nearest first, up to the first ancestor that is not an element, such as
      the document), or a node that is not an element. */
  datatype Target = NotAnElement | Element(self: Level, ancestors: seq<Level>)

  /** The message the preview posts to the application. */
  datatype Message =
    | ElementSelected(selector: Option<string>)
    | TextSelected(selector: Option<string>, text: string)
    | OtherMessage

  /** The levels the walk may visit, the element itself first. */
  function Chain(target: Target): seq<Level>
    requires target.Element?
  {
    [target.self] + target.ancestors
  }

  /** How many of `tags` are `tag`. */
  function CountTag(tags: seq<string>, tag: string): nat
  {
    if tags == [] then 0 else (if tags[0] == tag then 1 else 0) + CountTag(tags[1..], tag)
  }

  /** The 1-based position of an element among its siblings of the same tag. */
  function NthOfType(level: Level): nat
  {
    1 + CountTag(level.previousSiblingTags, level.tag)
  }

  /** What one level contributes to the locator. */
  function Segment(level: Level): string
  {
    if level.id != "" then level.tag + "#" + level.id
    else if NthOfType(level) == 1 then level.tag
    else level.tag + ":nth-of-type(" + NatToString(NthOfType(level)) + ")"
  }

  /** How many levels the walk visits: all of them, or up to and including the
      first one with an id. */
  function Visited(chain: seq<Level>): (n: nat)
    ensures n <= |chain|
    ensures chain != [] ==> n >= 1
    ensures forall j :: 0 <= j < n - 1 ==> chain[j].id == ""
    ensures n < |chain| ==> chain[n - 1].id != ""
  {
    if chain == [] then 0
    else if chain[0].id != "" then 1
    else 1 + Visited(chain[1..])
  }

  /** The segments of the first `n` levels, root side first. */
  function Segments(chain: seq<Level>, n: nat): (r: seq<string>)
    requires n <= |chain|
    ensures |r| == n
    ensures forall j :: 0 <= j < n ==> r[j] == Segment(chain[n - 1 - j])
  {
    if n == 0 then [] else [Segment(chain[n - 1])] + Segments(chain, n - 1)
  }

  /** The locator of a target: nothing for a non-element, otherwise the
      segments of the visited levels joined root to leaf with " > ". */
  function Locator(target: Target): Option<string>
  {
    match target
    case NotAnElement => None
    case Element(_, _) =>
      var chain := Chain(target);
      Some(Join(Segments(chain, Visited(chain)), " > "))
  }

  /** `getCssSelector`: walks up from the target, prepending one segment per
      element, and stops after an element with an id or at the first
      ancestor that is not an element. */
  method GetCssSelector(target: Target) returns (r: Option<string>)
    ensures r == Locator(target)
    ensures r.None? <==> target.NotAnElement?
  {
    if target.NotAnElement? {
      return None;
    }
    var chain := [target.self] + target.ancestors;
    var path: seq<string> := [];
    var i := 0;
    var stopped := false;
    while i < |chain| && !stopped
      invariant 0 <= i <= |chain|
      invariant stopped ==> i == Visited(chain)
      invariant !stopped ==> i + Visited(chain[i..]) == Visited(chain)
      invariant path == Segments(chain, i)
    {
      var level := chain[i];
      var selector := LevelSelector(level);
      stopped := level.id != "";
      assert Segments(chain, i + 1) == [selector] + Segments(chain, i);
      assert chain[i..][1..] == chain[i + 1..];
      path := [selector] + path;
      i := i + 1;
    }
    return Some(Join(path, " > "));
  }

  /** One step of `getCssSelector`: the element's tag, followed by `#` and
      its id when it has one, or else by its position among the previous
      siblings of the same tag when it is not the first of them. */
  method LevelSelector(level: Level) returns (selector: string)
    ensures selector == Segment(level)
  {
    selector := level.tag;
    if level.id != "" {
      selector := selector + "#" + level.id;
    } else {
      var nth := CountNthOfType(level);
      if nth != 1 {
        selector := selector + ":nth-of-type(" + NatToString(nth) + ")";
      }
    }
  }

  /** The inner loop of `getCssSelector`: walks the previous element siblings
      from the nearest one back, counting those with the element's tag. */
  method CountNthOfType(level: Level) returns (nth: nat)
    ensures nth == NthOfType(level)
    ensures nth >= 1
  {
    var siblings := level.previousSiblingTags;
    nth := 1;
    var j := |siblings|;
    while j > 0
      invariant 0 <= j <= |siblings|
      invariant nth == 1 + CountTag(siblings[j..], level.tag)
    {
      j := j - 1;
      assert siblings[j..][1..] == siblings[j + 1..];
      if siblings[j] == level.tag {
        nth := nth + 1;
      }
    }
    assert siblings[0..] == siblings;
  }

  /** An element with an id is located by `tag#id` alone. */
  lemma LocatorById(self: Level, ancestors: seq<Level>)
    requires self.id != ""
    ensures Locator(Element(self, ancestors)) == Some(self.tag + "#" + self.id)
  {
    var chain := Chain(Element(self, ancestors));
    assert Segments(chain, 1) == [Segment(self)];
  }

  /** The first `n + 1` segments of a chain are the `n` segments of the chain
      above its first level, followed by that level's segment. */
  lemma SegmentsOfTail(chain: seq<Level>, n: nat)
    requires n + 1 <= |chain|
    ensures Segments(chain, n + 1) == Segments(chain[1..], n) + [Segment(chain[0])]
  {
  }

  /** Without an id, an element's locator is its parent's locator, then " > ",
      then its own segment; an element with no element parent is located by
      its segment alone. */
  lemma LocatorExtendsParent(self: Level, ancestors: seq<Level>)
    requires self.id == ""
    ensures ancestors == [] ==> Locator(Element(self, ancestors)) == Some(Segment(self))
    ensures ancestors != [] ==>
      Locator(Element(self, ancestors)) ==
        Some(Locator(Element(ancestors[0], ancestors[1..])).value + " > " + Segment(self))
  {
    var chain := Chain(Element(self, ancestors));
    assert chain[1..] == ancestors;
    var v := Visited(ancestors);
    assert Visited(chain) == v + 1;
    SegmentsOfTail(chain, v);
    if ancestors != [] {
      assert Chain(Element(ancestors[0], ancestors[1..])) == ancestors;
      JoinSnoc(Segments(ancestors, v), Segment(self), " > ");
    } else {
      assert Segments(chain, 1) == [Segment(self)];
    }
  }

  /** The disambiguator counts only previous siblings with the same tag: the
      third child of [div, span, div, div] is the second `div`. */
  lemma NthOfTypeExample()
    ensures Segment(Level("div", "", ["div", "span"])) == "div:nth-of-type(2)"
  {
    assert CountTag(["div", "span"], "div") == 1 by {
      assert ["div", "span"][1..] == ["span"];
      assert ["span"][1..] == [];
    }
  }

  /** An element that is the first of its tag among its siblings gets no suffix. */
  lemma FirstOfTypeHasNoSuffix(level: Level)
    requires level.id == ""
    requires forall j :: 0 <= j < |level.previousSiblingTags| ==> level.previousSiblingTags[j] != level.tag
    ensures Segment(level) == level.tag
  {
    NoOtherTag(level.previousSiblingTags, level.tag);
  }

  lemma {:induction false} NoOtherTag(tags: seq<string>, tag: string)
    requires forall j :: 0 <= j < |tags| ==> tags[j] != tag
    ensures CountTag(tags, tag) == 0
  {
    if tags != [] {
      NoOtherTag(tags[1..], tag);
    }
  }

  // ---------------------------------------------------------------------------
  // Text selection

  /** The characters JavaScript's `trim` removes: white space (tab, vertical
      tab, form feed, no-break space, byte order mark and the space separators
      of Unicode) and line terminators. */
  predicate IsWhiteSpace(c: char)
  {
    || c == '\t' || c == '\U{000B}' || c == '\U{000C}' || c == ' ' || c == '\U{00A0}'
    || c == '\U{FEFF}' || c == '\n' || c == '\r' || c == '\U{2028}' || c == '\U{2029}'
    || c == '\U{1680}' || ('\U{2000}' <= c <= '\U{200A}') || c == '\U{202F}'
    || c == '\U{205F}' || c == '\U{3000}'
  }

  /** `s` without its leading white space. */
  function TrimStart(s: string): (r: string)
    ensures |r| <= |s| && r == s[|s| - |r|..]
    ensures r != "" ==> !IsWhiteSpace(r[0])
    ensures forall j :: 0 <= j < |s| - |r| ==> IsWhiteSpace(s[j])
  {
    if s != [] && IsWhiteSpace(s[0]) then TrimStart(s[1..]) else s
  }

  /** `s` without its trailing white space. */
  function TrimEnd(s: string): (r: string)
    ensures |r| <= |s| && r == s[..|r|]
    ensures r != "" ==> !IsWhiteSpace(r[|r| - 1])
    ensures forall j :: |r| <= j < |s| ==> IsWhiteSpace(s[j])
  {
    if s != [] && IsWhiteSpace(s[|s| - 1]) then TrimEnd(s[..|s| - 1]) else s
  }

  /** JavaScript `trim`: the part of `s` between its leading and trailing white
      space, which is empty exactly when `s` is all white space. */
  function Trim(s: string): (r: string)
    ensures var a := |s| - |TrimStart(s)|;
      && a + |r| <= |s| && r == s[a..a + |r|]
      && (forall j :: 0 <= j < a ==> IsWhiteSpace(s[j]))
      && (forall j :: a + |r| <= j < |s| ==> IsWhiteSpace(s[j]))
    ensures r != "" ==> !IsWhiteSpace(r[0]) && !IsWhiteSpace(r[|r| - 1])
    ensures r == "" <==> forall j :: 0 <= j < |s| ==> IsWhiteSpace(s[j])
  {
    var t := TrimStart(s);
    var r := TrimEnd(t);
    var a := |s| - |t|;
    assert r == s[a..a + |r|];
    r
  }

  /** Where the selection starts: inside a text node (whose parent element is
      then the target) or at some other node. */
  datatype Anchor = InText(parentElement: Target) | AtNode(node: Target)

  /** The node whose locator a text selection reports. */
  function AnchorElement(anchor: Anchor): Target
  {
    match anchor
    case InText(parent) => parent
    case AtNode(node) => node
  }

  /** The script's state: the last non-empty text selection, which suppresses
      the click that ends the same gesture. */
  class SelectionScript {
    var lastSelection: string

    constructor ()
      ensures lastSelection == ""
    {
      lastSelection := "";
    }

    /** Mouse-up: a non-empty trimmed selection is remembered and reported with
        the locator of the element holding it; an empty one reports nothing. */
    method OnMouseUp(selectionText: string, anchor: Anchor) returns (message: Option<Message>)
      modifies this
      ensures Trim(selectionText) == "" ==> message == None && lastSelection == old(lastSelection)
      ensures Trim(selectionText) != "" ==>
        && lastSelection == Trim(selectionText)
        && message == Some(TextSelected(Locator(AnchorElement(anchor)), Trim(selectionText)))
    {
      var selectedText := Trim(selectionText);
      message := None;
      if selectedText != "" {
        lastSelection := selectedText;
        var parentElement := AnchorElement(anchor);
        var selector := GetCssSelector(parentElement);
        message := Some(TextSelected(selector, selectedText));
      }
    }

    /** Click: swallowed (and the remembered selection forgotten) right after a
        text selection; otherwise reports the clicked element's locator. */
    method OnClick(target: Target) returns (message: Option<Message>)
      modifies this
      ensures lastSelection == ""
      ensures old(lastSelection) != "" ==> message == None
      ensures old(lastSelection) == "" ==> message == Some(ElementSelected(Locator(target)))
    {
      if lastSelection != "" {
        lastSelection := "";
        return None;
      }
      var selector := GetCssSelector(target);
      message := Some(ElementSelected(selector));
    }
  }

  /** One gesture, a mouse-up followed by its click, posts at most one message:
      the text selection if there is one, else the clicked element unless a
      remembered selection swallows the click; afterwards nothing is remembered. */
  method Gesture(script: SelectionScript, selectionText: string, anchor: Anchor, target: Target)
    returns (messages: seq<Message>)
    modifies script
    ensures script.lastSelection == ""
    ensures Trim(selectionText) != "" ==>
      messages == [TextSelected(Locator(AnchorElement(anchor)), Trim(selectionText))]
    ensures Trim(selectionText) == "" && old(script.lastSelection) == "" ==>
      messages == [ElementSelected(Locator(target))]
    ensures Trim(selectionText) == "" && old(script.lastSelection) != "" ==> messages == []
  {
    messages := [];
    var up := script.OnMouseUp(selectionText, anchor);
    if up.Some? {
      messages := messages + [up.value];
    }
    var click := script.OnClick(target);
    if click.Some? {
      messages := messages + [click.value];
    }
  }

  /** The preview document: in edit mode the page followed by the selection
      script in a script element, otherwise the page unchanged. */
  function SrcDoc(htmlContent: string, isEditMode: bool, selectionScript: string): (r: string)
    ensures |r| >= |htmlContent| && r[..|htmlContent|] == htmlContent
    ensures isEditMode ==> r[|htmlContent|..] == "<script>" + selectionScript + "</script>"
    ensures r == htmlContent <==> !isEditMode
  {
    if isEditMode then htmlContent + "<script>" + selectionScript + "</script>" else htmlContent
  }
}
