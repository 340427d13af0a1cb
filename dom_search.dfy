/** `talksAbout` of chapter 14: does any text below a document node contain
    a given string? The document is an abstract tree of element nodes,
    text nodes and nodes of any other type. */
module DomSearch {

  /** A document node, by its `nodeType`: an element with its `childNodes`,
      a text node with its `nodeValue`, or any other kind of node. */
  datatype Node = Element(children: seq<Node>) | Text(value: string) | Other

  /** What `talksAbout` returns: a boolean, or `undefined` when it falls
      off its end. */
  datatype Answer = Undefined | Bool(b: bool)

  /** The `if (talksAbout(...))` test: only `true` is truthy. */
  predicate Truthy(a: Answer) {
    a == Bool(true)
  }

  /** `s` occurs in `text` at position `k`. */
  predicate OccursAt(text: string, s: string, k: nat) {
    k + |s| <= |text| && text[k..k + |s|] == s
  }

  /** The reference meaning of a substring test. */
  ghost predicate Contains(text: string, s: string) {
    exists k: nat :: OccursAt(text, s, k)
  }

  /** The search of `indexOf`, from position `k` on. */
  function IndexFrom(text: string, s: string, k: nat): (r: int)
    decreases |text| - k
    ensures r == -1 || k <= r
    ensures r >= 0 ==> OccursAt(text, s, r) && forall j: nat :: k <= j < r ==> !OccursAt(text, s, j)
    ensures r == -1 ==> forall j: nat :: k <= j ==> !OccursAt(text, s, j)
  {
    if k + |s| > |text| then -1
    else if text[k..k + |s|] == s then k
    else IndexFrom(text, s, k + 1)
  }

  /** `text.indexOf(s)`: the first position where `s` occurs, or -1; the
      empty string occurs at position 0. */
  function IndexOf(text: string, s: string): (r: int)
    ensures r == -1 || (0 <= r && OccursAt(text, s, r))
    ensures r >= 0 ==> forall j: nat :: j < r ==> !OccursAt(text, s, j)
  {
    IndexFrom(text, s, 0)
  }

  /** `indexOf(s) > -1` exactly when `s` is a substring. */
  lemma IndexOfContains(text: string, s: string)
    ensures IndexOf(text, s) > -1 <==> Contains(text, s)
    ensures s == [] ==> IndexOf(text, s) == 0
  {
    if IndexOf(text, s) > -1 {
      var k: nat := IndexOf(text, s);
      assert OccursAt(text, s, k);
    }
    if s == [] {
      assert text[0..0] == s;
    }
  }

  /** `talksAbout(node, string)`. An element searches its children in
      order and answers `true` at the first that talks about the string,
      `false` when none does; a text node answers whether its value
      contains the string; any other node falls off the end of the
      function and answers `undefined`. */
  function TalksAbout(node: Node, s: string): (r: Answer)
    decreases node, 1
    ensures r == Undefined <==> node.Other?
  {
    match node
    case Element(children) => Bool(SearchChildren(node, s, 0))
    case Text(value) => Bool(IndexOf(value, s) > -1)
    case Other => Undefined
  }

  /** The loop of `talksAbout` over `node.childNodes`, from index `i`. */
  function SearchChildren(node: Node, s: string, i: nat): (found: bool)
    requires node.Element? && i <= |node.children|
    decreases node, 0, |node.children| - i
    ensures found <==> exists j :: i <= j < |node.children| && Truthy(TalksAbout(node.children[j], s))
  {
    if i == |node.children| then false
    else if Truthy(TalksAbout(node.children[i], s)) then true
    else SearchChildren(node, s, i + 1)
  }

  /** The texts of a tree in document order: the reference for what a
      search can see. */
  function Texts(node: Node): seq<string>
    decreases node, 1
  {
    match node
    case Element(children) => TextsFrom(node, 0)
    case Text(value) => [value]
    case Other => []
  }

  function TextsFrom(node: Node, i: nat): seq<string>
    requires node.Element? && i <= |node.children|
    decreases node, 0, |node.children| - i
  {
    if i == |node.children| then [] else Texts(node.children[i]) + TextsFrom(node, i + 1)
  }

  ghost predicate SomeTextContains(texts: seq<string>, s: string) {
    exists t :: t in texts && Contains(t, s)
  }

  /** `talksAbout` answers `true` exactly when some text node below `node`
      contains the string. */
  lemma {:induction false} TalksAboutTexts(node: Node, s: string)
    decreases node, 1
    ensures Truthy(TalksAbout(node, s)) <==> SomeTextContains(Texts(node), s)
  {
    match node
    case Element(children) =>
      TextsFromSearch(node, s, 0);
    case Text(value) =>
      IndexOfContains(value, s);
      assert Texts(node) == [value];
    case Other =>
  }

  lemma {:induction false} TextsFromSearch(node: Node, s: string, i: nat)
    requires node.Element? && i <= |node.children|
    decreases node, 0, |node.children| - i
    ensures SearchChildren(node, s, i) <==> SomeTextContains(TextsFrom(node, i), s)
  {
    if i < |node.children| {
      var child := node.children[i];
      TalksAboutTexts(child, s);
      TextsFromSearch(node, s, i + 1);
      var rest := TextsFrom(node, i + 1);
      assert TextsFrom(node, i) == Texts(child) + rest;
      if SomeTextContains(TextsFrom(node, i), s) {
        var t :| t in Texts(child) + rest && Contains(t, s);
        if t in Texts(child) {
          assert Truthy(TalksAbout(child, s));
        } else {
          assert t in rest;
        }
      }
      if SearchChildren(node, s, i) {
        if !Truthy(TalksAbout(child, s)) {
          assert SearchChildren(node, s, i + 1);
          var t :| t in rest && Contains(t, s);
          assert t in Texts(child) + rest;
        } else {
          var t :| t in Texts(child) && Contains(t, s);
          assert t in Texts(child) + rest;
        }
      }
    }
  }

  /** An element without children answers `false`; an element always
      answers a boolean, true exactly when one of its children does. */
  lemma ElementAnswers(children: seq<Node>, s: string)
    ensures TalksAbout(Element([]), s) == Bool(false)
    ensures TalksAbout(Element(children), s)
         == Bool(exists j :: 0 <= j < |children| && Truthy(TalksAbout(children[j], s)))
  {
  }

  /** The example: a body whose second paragraph mentions a book. */
  lemma BodyTalksAboutBook()
    ensures TalksAbout(Element([Text("My "), Element([Text("ostrich")]), Element([Other, Text("a book")])]), "book")
         == Bool(true)
  {
    var body := Element([Text("My "), Element([Text("ostrich")]), Element([Other, Text("a book")])]);
    var p := body.children[2];
    var t := p.children[1];
    assert t.value[2..6] == "book";
    assert OccursAt(t.value, "book", 2);
    IndexOfContains(t.value, "book");
    assert Truthy(TalksAbout(p.children[1], "book"));
    assert Truthy(TalksAbout(body.children[2], "book"));
  }
}
