/** The document side of radical_highlighter.js: the guards of
    `highlightNode`, the span that replaces a text node, and
    `highlightAll`, which collects every text node under the body before
    it replaces any of them. */
module RadicalDom {
  import opened Radicals

  /** A DOM node: text, or an element with its tag name (lower case), its
      class list and its children. */
  datatype Node = Text(value: string) | Element(tag: string, classes: set<string>, children: seq<Node>)

  /** A node is named by the child indices leading to it from the body. */
  type Path = seq<nat>

  /** `textContent`: the text of every text node below, in document order. */
  function Content(n: Node): string
    decreases n
  {
    match n
    case Text(v) => v
    case Element(_, _, ch) => ContentOf(ch)
  }

  function ContentOf(ns: seq<Node>): string
    decreases ns
  {
    if ns == [] then [] else Content(ns[0]) + ContentOf(ns[1..])
  }

  lemma ContentOfCons(n: Node, ns: seq<Node>)
    ensures ContentOf([n] + ns) == Content(n) + ContentOf(ns)
  {
    assert ([n] + ns)[1..] == ns;
  }

  /** The characters that sit inside a `radical-highlight` element. */
  function Marked(n: Node): string
    decreases n
  {
    match n
    case Text(_) => []
    case Element(_, cls, ch) => if "radical-highlight" in cls then ContentOf(ch) else MarkedOf(ch)
  }

  function MarkedOf(ns: seq<Node>): string
    decreases ns
  {
    if ns == [] then [] else Marked(ns[0]) + MarkedOf(ns[1..])
  }

  lemma MarkedOfCons(n: Node, ns: seq<Node>)
    ensures MarkedOf([n] + ns) == Marked(n) + MarkedOf(ns)
  {
    assert ([n] + ns)[1..] == ns;
  }

  /** The characters of `text` that the substitution wraps, in order. */
  function WrappedChars(text: string): (r: string)
    ensures forall k :: 0 <= k < |r| ==> Wrapped(r[k])
    ensures |r| <= |text|
  {
    if text == [] then []
    else if Wrapped(text[0]) then [text[0]] + WrappedChars(text[1..])
    else WrappedChars(text[1..])
  }

  /** A character the HTML parser reads as itself in text. The others
      are `<`, which starts a tag, `&`, which starts a character
      reference, a carriage return, which becomes a line feed, and NUL,
      which the parser drops. */
  predicate Literal(c: char) {
    c != '<' && c != '&' && c != '\r' && c != '\0'
  }

  predicate LiteralText(v: string) {
    forall k :: 0 <= k < |v| ==> Literal(v[k])
  }

  lemma LiteralTail(v: string)
    requires v != [] && LiteralText(v)
    ensures Literal(v[0]) && LiteralText(v[1..])
  {
    forall k | 0 <= k < |v[1..]| ensures Literal(v[1..][k]) {
      assert v[1..][k] == v[k + 1];
    }
  }

  // ---------------------------------------------------------------------
  // Reading the substituted string back as nodes (`span.innerHTML = …`)

  /** Whether `s` starts with one wrapped character. */
  predicate SpanAt(s: string) {
    |s| >= |Open| + 1 + |Close| && s[..|Open|] == Open && s[|Open| + 1..|Open| + 1 + |Close|] == Close
  }

  /** The element the parser builds from `Open + c + Close`. */
  function Mark(c: char): Node {
    Element("span", {"radical-highlight"}, [Text([c])])
  }

  /** Adds one character in front of parsed nodes, joining it to a leading
      text node as the parser does with a run of characters. */
  function Prepend(c: char, ns: seq<Node>): (r: seq<Node>)
    ensures ContentOf(r) == [c] + ContentOf(ns)
    ensures MarkedOf(r) == MarkedOf(ns)
  {
    if ns != [] && ns[0].Text? then
      ContentOfCons(ns[0], ns[1..]);
      MarkedOfCons(ns[0], ns[1..]);
      assert ns == [ns[0]] + ns[1..];
      ContentOfCons(Text([c] + ns[0].value), ns[1..]);
      MarkedOfCons(Text([c] + ns[0].value), ns[1..]);
      [Text([c] + ns[0].value)] + ns[1..]
    else
      ContentOfCons(Text([c]), ns);
      MarkedOfCons(Text([c]), ns);
      [Text([c])] + ns
  }

  /** The child nodes the parser makes of the substituted string: every
      wrapper becomes a highlight element holding its character, and each
      run of other characters one text node. Markup other than the wrapper
      is read as characters. */
  function Parse(s: string): seq<Node>
    decreases |s|
  {
    if s == [] then []
    else if SpanAt(s) then [Mark(s[|Open|])] + Parse(s[|Open| + 1 + |Close|..])
    else Prepend(s[0], Parse(s[1..]))
  }

  /** Removing the wrappers gives back the input, in order, and the
      highlight elements hold exactly the wrapped characters, provided the
      input holds only characters the parser reads as themselves (the
      source does not escape the text it splices in). */
  lemma {:induction false} ParseSubstitute(text: string)
    requires LiteralText(text)
    ensures ContentOf(Parse(Substitute(text).0)) == text
    ensures MarkedOf(Parse(Substitute(text).0)) == WrappedChars(text)
  {
    if text != [] {
      var c, rest := text[0], Substitute(text[1..]).0;
      LiteralTail(text);
      ParseSubstitute(text[1..]);
      assert Substitute(text).0 == WrapChar(c) + rest;
      ParseWrapCharText(c, rest);
      assert text == [c] + text[1..];
    }
  }

  /** What one substituted character adds to the parsed text and to the
      highlighted text. */
  lemma ParseWrapCharText(c: char, rest: string)
    requires c != '<'
    ensures ContentOf(Parse(WrapChar(c) + rest)) == [c] + ContentOf(Parse(rest))
    ensures MarkedOf(Parse(WrapChar(c) + rest)) == (if Wrapped(c) then [c] else []) + MarkedOf(Parse(rest))
  {
    ParseWrapChar(c, rest);
    if Wrapped(c) {
      MarkContent(c);
      ContentOfCons(Mark(c), Parse(rest));
      MarkedOfCons(Mark(c), Parse(rest));
    }
  }

  /** The parser reads one substituted character followed by more text:
      a wrapped character becomes one highlight element in front of the
      rest, any other character joins the leading text. */
  lemma ParseWrapChar(c: char, rest: string)
    requires c != '<'
    ensures Parse(WrapChar(c) + rest) ==
      if Wrapped(c) then [Mark(c)] + Parse(rest) else Prepend(c, Parse(rest))
  {
    if Wrapped(c) {
      ParseWrapped(c, rest);
    } else {
      ParsePlain(c, rest);
    }
  }

  lemma MarkContent(c: char)
    ensures Content(Mark(c)) == [c] && Marked(Mark(c)) == [c]
  {
    ContentOfCons(Text([c]), []);
    assert [Text([c])] + [] == [Text([c])];
  }

  /** A wrapper at the front becomes one highlight element. */
  lemma ParseWrapped(c: char, rest: string)
    ensures Parse(Open + [c] + Close + rest) == [Mark(c)] + Parse(rest)
  {
    var s := Open + [c] + Close + rest;
    assert s[..|Open|] == Open;
    assert s[|Open| + 1..|Open| + 1 + |Close|] == Close;
    assert s[|Open|] == c;
    assert s[|Open| + 1 + |Close|..] == rest;
  }

  /** Any character other than `<` at the front joins the leading text. */
  lemma ParsePlain(c: char, rest: string)
    requires c != '<'
    ensures Parse([c] + rest) == Prepend(c, Parse(rest))
  {
    var s := [c] + rest;
    assert !SpanAt(s) by {
      if |s| >= |Open| { assert s[..|Open|][0] == c; }
    }
    assert s[1..] == rest;
  }

  // ---------------------------------------------------------------------
  // highlightNode

  /** The tags of `closest('input, textarea, script, style')`. */
  predicate Excluded(tag: string) {
    tag in {"input", "textarea", "script", "style"}
  }

  /** `highlightNode` applied to `n`, whose ancestors, from the root down
      to its parent, have the tags `anc`. The result is what then stands
      where `n` stood. */
  function HighlightNode(n: Node, anc: seq<string>): (r: Node)
    ensures r != n <==>
      n.Text? && anc != [] && (forall k :: 0 <= k < |anc| ==> !Excluded(anc[k])) &&
      exists i :: 0 <= i < |n.value| && Wrapped(n.value[i])
    ensures r != n ==> r.Element? && r.tag == "span" && r.classes == {}
  {
    if !n.Text? then n
    else if anc == [] || exists k :: 0 <= k < |anc| && Excluded(anc[k]) then n
    else if n.value == [] then n
    else
      var (replaced, hasRadical) := Substitute(n.value);
      if hasRadical then Element("span", {}, Parse(replaced)) else n
  }

  /** A replaced text node keeps its text, and its highlight elements hold
      exactly its radicals. */
  lemma HighlightNodeKeepsText(n: Node, anc: seq<string>)
    requires n.Text? && LiteralText(n.value)
    ensures Content(HighlightNode(n, anc)) == n.value
    ensures HighlightNode(n, anc) != n ==> Marked(HighlightNode(n, anc)) == WrappedChars(n.value)
  {
    ParseSubstitute(n.value);
  }

  // ---------------------------------------------------------------------
  // highlightAll

  /** The paths of the text nodes strictly below `n`, in document order:
      what the TreeWalker rooted at `n` yields. */
  function Descendants(n: Node): seq<Path>
    decreases n
  {
    if n.Text? then [] else ChildPaths(n.children, 0)
  }

  function ChildPaths(ns: seq<Node>, i: nat): seq<Path>
    decreases ns, |ns| - i, 1
  {
    if i >= |ns| then []
    else OwnPaths(ns, i) + ChildPaths(ns, i + 1)
  }

  /** The paths of child `i` itself, when it is text, or of the text below it. */
  function OwnPaths(ns: seq<Node>, i: nat): seq<Path>
    requires i < |ns|
    decreases ns, |ns| - i, 0
  {
    if ns[i].Text? then [[i]] else Under(i, Descendants(ns[i]))
  }

  /** Paths relative to child `i`, made relative to its parent. */
  function Under(i: nat, ps: seq<Path>): (r: seq<Path>)
    ensures |r| == |ps|
  {
    if ps == [] then [] else [[i] + ps[0]] + Under(i, ps[1..])
  }

  /** `highlightNode` on the node at path `p` below `n`, whose own
      ancestors have the tags `anc`. */
  function Step(n: Node, p: Path, anc: seq<string>): Node
    decreases |p|
  {
    if p == [] then HighlightNode(n, anc)
    else match n
      case Text(_) => n
      case Element(t, cls, ch) =>
        if p[0] < |ch| then Element(t, cls, ch[p[0] := Step(ch[p[0]], p[1..], anc + [t])]) else n
  }

  /** `forEach(highlightNode)` over a list of paths, first to last. */
  function Fold(n: Node, ps: seq<Path>, anc: seq<string>): Node
    decreases |ps|
  {
    if ps == [] then n else Fold(Step(n, ps[0], anc), ps[1..], anc)
  }

  lemma {:induction false} FoldAppend(n: Node, ps: seq<Path>, qs: seq<Path>, anc: seq<string>)
    ensures Fold(n, ps + qs, anc) == Fold(Fold(n, ps, anc), qs, anc)
    decreases |ps|
  {
    if ps == [] {
      assert ps + qs == qs;
    } else {
      assert (ps + qs)[1..] == ps[1..] + qs;
      FoldAppend(Step(n, ps[0], anc), ps[1..], qs, anc);
    }
  }

  /** Following paths below child `i` changes child `i` only. */
  lemma {:induction false} FoldUnder(t: string, cls: set<string>, ch: seq<Node>, i: nat, ps: seq<Path>, anc: seq<string>)
    requires i < |ch|
    ensures Fold(Element(t, cls, ch), Under(i, ps), anc) == Element(t, cls, ch[i := Fold(ch[i], ps, anc + [t])])
    decreases |ps|
  {
    if ps != [] {
      var ch' := ch[i := Step(ch[i], ps[0], anc + [t])];
      assert ([i] + ps[0])[1..] == ps[0];
      assert Step(Element(t, cls, ch), [i] + ps[0], anc) == Element(t, cls, ch');
      FoldUnder(t, cls, ch', i, ps[1..], anc);
      assert ch'[i := Fold(ch'[i], ps[1..], anc + [t])] == ch[i := Fold(ch[i], ps, anc + [t])];
    }
  }

  /** The one-pass reading of `highlightAll` below a node: every text node
      that exists at the start goes through `highlightNode` once, and the
      spans that replace them are not entered. */
  function Visit(n: Node, anc: seq<string>): Node
    decreases n
  {
    match n
    case Text(_) => HighlightNode(n, anc)
    case Element(t, cls, ch) => Element(t, cls, VisitAll(ch, anc + [t]))
  }

  function VisitAll(ns: seq<Node>, anc: seq<string>): (r: seq<Node>)
    ensures |r| == |ns|
    ensures forall k :: 0 <= k < |ns| ==> r[k] == Visit(ns[k], anc)
    decreases ns
  {
    if ns == [] then []
    else
      var r := [Visit(ns[0], anc)] + VisitAll(ns[1..], anc);
      assert forall k :: 1 <= k < |ns| ==> ns[k] == ns[1..][k - 1];
      r
  }

  /** `highlightAll` on the body `root`: the walker never yields its root. */
  function HighlightTree(root: Node): Node {
    if root.Text? then root else Visit(root, [])
  }

  /** Following the snapshot of paths, one at a time, does the one-pass
      rewrite: a replacement never shifts a sibling or a path still to
      come. */
  lemma {:induction false} FoldDescendants(n: Node, anc: seq<string>)
    requires n.Element?
    ensures Fold(n, Descendants(n), anc) == Visit(n, anc)
    decreases n, 0
  {
    FoldChildPaths(n.tag, n.classes, n.children, n.children, 0, anc);
    assert VisitAll(n.children, anc + [n.tag]) == Visit(n, anc).children;
  }

  lemma {:induction false} FoldChildPaths(t: string, cls: set<string>, ch: seq<Node>, orig: seq<Node>, i: nat, anc: seq<string>)
    requires |ch| == |orig| && i <= |orig|
    requires forall k :: 0 <= k < i ==> ch[k] == Visit(orig[k], anc + [t])
    requires forall k :: i <= k < |orig| ==> ch[k] == orig[k]
    ensures Fold(Element(t, cls, ch), ChildPaths(orig, i), anc) == Element(t, cls, VisitAll(orig, anc + [t]))
    decreases orig, |orig| - i, 1
  {
    if i == |orig| {
      assert ch == VisitAll(orig, anc + [t]);
    } else {
      FoldAppend(Element(t, cls, ch), OwnPaths(orig, i), ChildPaths(orig, i + 1), anc);
      FoldOwnPaths(t, cls, ch, orig, i, anc);
      FoldChildPaths(t, cls, ch[i := Visit(orig[i], anc + [t])], orig, i + 1, anc);
    }
  }

  lemma {:induction false} FoldOwnPaths(t: string, cls: set<string>, ch: seq<Node>, orig: seq<Node>, i: nat, anc: seq<string>)
    requires i < |ch| == |orig| && ch[i] == orig[i]
    ensures Fold(Element(t, cls, ch), OwnPaths(orig, i), anc) == Element(t, cls, ch[i := Visit(orig[i], anc + [t])])
    decreases orig, |orig| - i, 0
  {
    var e := Element(t, cls, ch);
    if orig[i].Text? {
      assert [i][1..] == [];
      assert Step(ch[i], [], anc + [t]) == Visit(orig[i], anc + [t]);
      assert Step(e, [i], anc) == Element(t, cls, ch[i := Visit(orig[i], anc + [t])]);
      assert Fold(e, [[i]], anc) == Fold(Step(e, [i], anc), [], anc);
    } else {
      FoldUnder(t, cls, ch, i, Descendants(orig[i]), anc);
      FoldDescendants(orig[i], anc + [t]);
    }
  }

  /** Every text node below that `highlightNode` replaces holds no
      character the HTML parser would misread in the unescaped
      substitution output; text the pass leaves alone may hold any. */
  predicate SafeAt(n: Node, anc: seq<string>)
    decreases n
  {
    match n
    case Text(v) => HighlightNode(n, anc) != n ==> LiteralText(v)
    case Element(t, _, ch) => forall k :: 0 <= k < |ch| ==> SafeAt(ch[k], anc + [t])
  }

  /** The text nodes keep their text: only wrappers are added. */
  lemma {:induction false} VisitKeepsText(n: Node, anc: seq<string>)
    requires SafeAt(n, anc)
    ensures Content(Visit(n, anc)) == Content(n)
    decreases n, 0
  {
    match n
    case Text(_) =>
      if HighlightNode(n, anc) != n {
        HighlightNodeKeepsText(n, anc);
      }
    case Element(t, _, ch) => VisitAllKeepsText(ch, anc + [t]);
  }

  lemma {:induction false} VisitAllKeepsText(ns: seq<Node>, anc: seq<string>)
    requires forall k :: 0 <= k < |ns| ==> SafeAt(ns[k], anc)
    ensures ContentOf(VisitAll(ns, anc)) == ContentOf(ns)
    decreases ns, 1
  {
    if ns != [] {
      var r := VisitAll(ns, anc);
      assert r == [r[0]] + r[1..];
      assert r[1..] == VisitAll(ns[1..], anc);
      ContentOfCons(r[0], r[1..]);
      VisitKeepsText(ns[0], anc);
      VisitAllKeepsText(ns[1..], anc);
    }
  }

  lemma HighlightTreeKeepsText(root: Node)
    requires root.Text? || SafeAt(root, [])
    ensures Content(HighlightTree(root)) == Content(root)
  {
    if root.Element? {
      VisitKeepsText(root, []);
    }
  }

  /** No text node below holds a radical the substitution would wrap. */
  predicate NoRadical(n: Node)
    decreases n
  {
    match n
    case Text(v) => forall i :: 0 <= i < |v| ==> !Wrapped(v[i])
    case Element(_, _, ch) => forall k :: 0 <= k < |ch| ==> NoRadical(ch[k])
  }

  /** A page without radicals comes out of `highlightAll` unchanged. */
  lemma {:induction false} VisitNoRadical(n: Node, anc: seq<string>)
    requires NoRadical(n)
    ensures Visit(n, anc) == n
    decreases n
  {
    match n
    case Text(_) =>
    case Element(t, _, ch) =>
      forall k | 0 <= k < |ch| ensures Visit(ch[k], anc + [t]) == ch[k] {
        VisitNoRadical(ch[k], anc + [t]);
      }
      assert VisitAll(ch, anc + [t]) == ch;
  }

  lemma HighlightTreeNoRadical(root: Node)
    requires NoRadical(root)
    ensures HighlightTree(root) == root
  {
    if root.Element? {
      VisitNoRadical(root, []);
    }
  }

  /** A second pass is not a no-op: the text inside a highlight element is
      a text node like any other, and no guard excludes it, so its radical
      is wrapped again. */
  lemma SecondPassRewraps()
    ensures var page := Element("p", {}, [Text("龠")]);
      HighlightTree(HighlightTree(page)) != HighlightTree(page)
  {
    RadicalCount();
    var c := '龠';
    var span := Element("span", {}, [Mark(c)]);
    HighlightRadical(c, ["p"]);
    var once := Element("p", {}, [span]);
    assert HighlightTree(Element("p", {}, [Text([c])])) == once;
    assert ["p"] + ["span"] == ["p", "span"];
    RewrapMark(c, ["p", "span"]);
    assert VisitAll([Mark(c)], ["p", "span"]) == [Element("span", {"radical-highlight"}, [span])];
    assert Visit(span, ["p"]) == Element("span", {}, [Element("span", {"radical-highlight"}, [span])]);
    var twice := Element("p", {}, [Element("span", {}, [Element("span", {"radical-highlight"}, [span])])]);
    assert VisitAll([span], ["p"]) == [Visit(span, ["p"])];
    assert [] + ["p"] == ["p"];
    assert Visit(once, []) == twice;
  }

  /** A text node holding one radical, with a parent and no excluded
      ancestor, becomes a plain span around one highlight element. */
  lemma HighlightRadical(c: char, anc: seq<string>)
    requires Wrapped(c) && anc != [] && forall k :: 0 <= k < |anc| ==> !Excluded(anc[k])
    ensures HighlightNode(Text([c]), anc) == Element("span", {}, [Mark(c)])
  {
    var s := Open + [c] + Close;
    assert [c][1..] == [];
    assert WrapChar(c) == s;
    assert Substitute([c]) == (s + [], true);
    assert s + [] == s;
    ParseWrapped(c, []);
    assert Parse([]) == [];
  }

  /** Any highlight element, met by a later pass below ancestors none of
      which is excluded, is wrapped again: its text node has a parent (the
      highlight element itself), so nothing stops `highlightNode`. */
  lemma RewrapMark(c: char, anc: seq<string>)
    requires Wrapped(c) && forall k :: 0 <= k < |anc| ==> !Excluded(anc[k])
    ensures Visit(Mark(c), anc) ==
      Element("span", {"radical-highlight"}, [Element("span", {}, [Mark(c)])])
  {
    VisitMark(c, anc);
    HighlightRadical(c, anc + ["span"]);
  }

  /** The pass over a highlight element hands its text node to
      `highlightNode` with the element's own tag added to the ancestors. */
  lemma VisitMark(c: char, anc: seq<string>)
    requires forall k :: 0 <= k < |anc| ==> !Excluded(anc[k])
    ensures Visit(Mark(c), anc) == Element("span", {"radical-highlight"}, [HighlightNode(Text([c]), anc + ["span"])])
    ensures anc + ["span"] != [] && forall k :: 0 <= k < |anc + ["span"]| ==> !Excluded((anc + ["span"])[k])
  {
    NoneExcludedAppend(anc, "span");
    var r := VisitAll([Text([c])], anc + ["span"]);
    assert r == [r[0]];
  }

  lemma NoneExcludedAppend(anc: seq<string>, t: string)
    requires !Excluded(t) && forall k :: 0 <= k < |anc| ==> !Excluded(anc[k])
    ensures forall k :: 0 <= k < |anc + [t]| ==> !Excluded((anc + [t])[k])
  {
  }

  /** The page; `body` is `document.body`. */
  class Page {
    var body: Node

    constructor (body: Node)
      ensures this.body == body
    {
      this.body := body;
    }

    /** `highlightAll`: snapshot the text nodes with the walker, then hand
        each to `highlightNode`, first to last. */
    method HighlightAll()
      modifies this
      ensures body == HighlightTree(old(body))
    {
      var textNodes := Descendants(body);
      ghost var start := body;
      for i := 0 to |textNodes|
        invariant body == Fold(start, textNodes[..i], [])
      {
        FoldAppend(start, textNodes[..i], [textNodes[i]], []);
        assert textNodes[..i + 1] == textNodes[..i] + [textNodes[i]];
        body := Step(body, textNodes[i], []);
      }
      assert textNodes[..|textNodes|] == textNodes;
      if start.Element? {
        FoldDescendants(start, []);
      }
    }
  }
}
