/** The DOM side of latin_to_cyrillic.js: the walk that rewrites or
    restores text nodes (`translateTextNodes`), the per-element
    `data-translated` marker (`processMessageContent`, `restoreLatin`) and
    the global `cyrillicEnabled` flag flipped by the toggle button.

    Text nodes and elements are objects. The script never adds, removes
    or reorders children, so an element's class list and child list are
    constants; what changes is a text node's content and its cached
    original (the `__latinOriginal` property), and an element's marker. */
module CyrillicDom {
  import opened Cyrillic

  /** What the walk reads and writes on one text node. `original` is
      `None` until the first forward visit. */
  datatype TextState = TextState(content: string, original: Option<string>)

  /** JavaScript truthiness of the cached original: present and non-empty. */
  predicate HasCache(original: Option<string>) {
    original.Some? && original.value != []
  }

  /** A forward visit: cache the text unless a truthy cache exists, then
      replace the text by its translation. */
  function Forward(st: TextState, translate: string -> string): TextState {
    TextState(translate(st.content),
              if HasCache(st.original) then st.original else Some(st.content))
  }

  /** A reverse visit: write a truthy cache back; otherwise do nothing. */
  function Reverse(st: TextState): TextState {
    if HasCache(st.original) then TextState(st.original.value, st.original) else st
  }

  function Visit(st: TextState, translate: string -> string, reverse: bool): TextState {
    if reverse then Reverse(st) else Forward(st, translate)
  }

  /** The Latin text a node stands for: its cache when it has a truthy one,
      its current text otherwise. */
  function Latin(st: TextState): string {
    if HasCache(st.original) then st.original.value else st.content
  }

  /** The states the script produces from a fresh node: showing either the
      Latin text or its translation. */
  predicate Consistent(st: TextState) {
    st.content == Latin(st) || st.content == ToCyrillic(Latin(st))
  }

  /** A forward visit keeps the Latin text and shows its translation. */
  lemma ForwardShowsTranslation(st: TextState)
    requires Consistent(st)
    ensures Latin(Forward(st, ToCyrillic)) == Latin(st)
    ensures Forward(st, ToCyrillic).content == ToCyrillic(Latin(st))
    ensures Consistent(Forward(st, ToCyrillic))
  {
    ToCyrillicIdempotent(Latin(st));
  }

  /** A reverse visit shows the Latin text again, whatever the state; a
      node without a truthy cache is left exactly as it was. */
  lemma ReverseShowsLatin(st: TextState)
    ensures Reverse(st).content == Latin(st)
    ensures !HasCache(st.original) ==> Reverse(st) == st
    ensures Latin(Reverse(st)) == Latin(st)
    ensures Consistent(Reverse(st))
  {
  }

  /** Forward then reverse gives back the text a node showed, when it
      showed Latin text (as every node does before its first visit). */
  lemma RoundTrip(st: TextState)
    requires Consistent(st) && st.content == Latin(st)
    ensures Reverse(Forward(st, ToCyrillic)).content == st.content
  {
    ForwardShowsTranslation(st);
    ReverseShowsLatin(Forward(st, ToCyrillic));
  }

  /** A second forward visit changes nothing, cache included. */
  lemma ForwardIdempotent(st: TextState)
    ensures Forward(Forward(st, ToCyrillic), ToCyrillic) == Forward(st, ToCyrillic)
  {
    ToCyrillicIdempotent(st.content);
  }

  /** Restoring and translating again reproduces the first translation
      exactly. */
  lemma ReenableReproduces(st: TextState)
    requires Consistent(st)
    ensures Forward(Reverse(Forward(st, ToCyrillic)), ToCyrillic) == Forward(st, ToCyrillic)
  {
    ForwardShowsTranslation(st);
    ReverseShowsLatin(Forward(st, ToCyrillic));
    ForwardShowsTranslation(Reverse(Forward(st, ToCyrillic)));
  }

  class TextNode {
    var content: string
    var original: Option<string>

    constructor (text: string)
      ensures content == text && original == None
    {
      content, original := text, None;
    }

    function State(): TextState
      reads this
    {
      TextState(content, original)
    }
  }

  datatype Child = TextChild(text: TextNode) | ElementChild(elem: Element)

  /** The text nodes inside one child. */
  ghost function Own(c: Child): set<TextNode> {
    match c
    case TextChild(t) => {t}
    case ElementChild(e) => e.texts
  }

  class Element {
    const classes: set<string>
    const children: seq<Child>
    var translated: bool          // data-translated="true"
    ghost const height: nat       // bounds the depth of the subtree
    ghost const texts: set<TextNode>  // every text node in the subtree

    /** A tree: children are lower, and no text node is shared between
        two children (a DOM node has one parent). */
    ghost predicate Valid()
      decreases height
    {
      && (forall i :: 0 <= i < |children| && children[i].ElementChild? ==>
            children[i].elem.height < height && children[i].elem.Valid())
      && (forall i, j :: 0 <= i < j < |children| ==> Own(children[i]) !! Own(children[j]))
      && texts == OwnUpTo(|children|)
    }

    ghost function OwnUpTo(k: nat): set<TextNode>
      requires k <= |children|
    {
      if k == 0 then {} else OwnUpTo(k - 1) + Own(children[k - 1])
    }

    /** The text nodes the walk visits: none under a `CodeBlock`
        element, the root included. */
    ghost function Visible(): set<TextNode>
      requires Valid()
      decreases height, |children| + 1
    {
      if "CodeBlock" in classes then {} else VisibleUpTo(|children|)
    }

    ghost function VisibleUpTo(k: nat): set<TextNode>
      requires Valid() && k <= |children|
      decreases height, k
    {
      if k == 0 then {} else VisibleUpTo(k - 1) + VisibleOf(children[k - 1])
    }

    constructor (classes: set<string>, children: seq<Child>)
      requires forall i :: 0 <= i < |children| && children[i].ElementChild? ==> children[i].elem.Valid()
      requires forall i, j :: 0 <= i < j < |children| ==> Own(children[i]) !! Own(children[j])
      ensures Valid() && !translated
      ensures this.classes == classes && this.children == children
    {
      this.classes := classes;
      this.children := children;
      translated := false;
      height := 1 + MaxHeight(children);
      texts := OwnsOf(children);
      new;
      OwnsOfIsOwnUpTo(|children|);
      assert children[..|children|] == children;
    }

    lemma OwnsOfIsOwnUpTo(k: nat)
      requires k <= |children|
      ensures OwnsOf(children[..k]) == OwnUpTo(k)
    {
      if k > 0 {
        OwnsOfIsOwnUpTo(k - 1);
        assert children[..k] == children[..k - 1] + [children[k - 1]];
        OwnsOfAppend(children[..k - 1], children[k - 1]);
      }
    }

    lemma {:induction false} OwnWithin(i: nat, k: nat)
      requires i < k <= |children|
      ensures Own(children[i]) <= OwnUpTo(k)
    {
      if i < k - 1 {
        OwnWithin(i, k - 1);
      }
    }

    lemma {:induction false} OwnUpToDisjoint(k: nat, m: nat)
      requires Valid() && k <= m < |children|
      ensures OwnUpTo(k) !! Own(children[m])
    {
      if k > 0 {
        OwnUpToDisjoint(k - 1, m);
        assert Own(children[k - 1]) !! Own(children[m]);
      }
    }

    lemma {:induction false} VisibleWithin()
      requires Valid()
      ensures Visible() <= texts
      decreases height, |children| + 1
    {
      if "CodeBlock" !in classes {
        VisibleUpToWithin(|children|);
      }
    }

    lemma {:induction false} VisibleUpToWithin(k: nat)
      requires Valid() && k <= |children|
      ensures VisibleUpTo(k) <= OwnUpTo(k)
      decreases height, k
    {
      if k > 0 {
        VisibleUpToWithin(k - 1);
        VisibleOfWithin(children[k - 1]);
      }
    }

    /** What the walk over child `k` adds: the text nodes it may visit
        lie inside that child, which no earlier child shares. */
    lemma VisibleStep(k: nat)
      requires Valid() && k < |children|
      ensures Own(children[k]) <= texts
      ensures VisibleUpTo(k) !! Own(children[k])
      ensures VisibleOf(children[k]) <= Own(children[k])
    {
      OwnWithin(k, |children|);
      OwnUpToDisjoint(k, k);
      VisibleUpToWithin(k);
      VisibleOfWithin(children[k]);
    }

    /** `textContent`: the text of every text node in document order,
        including those under `CodeBlock` elements. */
    function TextContent(): string
      requires Valid()
      reads texts
      decreases height, |children| + 1
    {
      ContentUpTo(|children|)
    }

    function ContentUpTo(k: nat): string
      requires Valid() && k <= |children|
      reads texts
      decreases height, k, 1
    {
      if k == 0 then "" else ContentUpTo(k - 1) + ChildText(k - 1)
    }

    /** The text of child `k`. */
    function ChildText(k: nat): string
      requires Valid() && k < |children|
      reads texts
      decreases height, k + 1, 0
    {
      OwnWithin(k, |children|);
      match children[k]
      case TextChild(t) => t.content
      case ElementChild(e) => e.TextContent()
    }

    /** A forbidden string in any child element, `CodeBlock` or not, makes
        the whole element skipped. */
    lemma {:induction false} SkipFromChild(k: nat)
      requires Valid() && k < |children| && children[k].ElementChild?
      requires ShouldSkip(children[k].elem.TextContent())
      ensures ShouldSkip(TextContent())
    {
      OwnWithin(k, |children|);
      var e := children[k].elem;
      var rest := RestFrom(k + 1);
      assert ContentUpTo(k + 1) == ContentUpTo(k) + e.TextContent();
      ContentSplit(k + 1);
      ShouldSkipInfix(ContentUpTo(k), e.TextContent(), rest);
      assert TextContent() == ContentUpTo(k) + e.TextContent() + rest;
    }

    /** The text of the children after position `from`. */
    function RestFrom(from: nat): string
      requires Valid() && from <= |children|
      reads texts
      decreases |children| - from
    {
      if from == |children| then "" else ChildText(from) + RestFrom(from + 1)
    }

    lemma {:induction false} ContentSplit(k: nat)
      requires Valid() && k <= |children|
      ensures TextContent() == ContentUpTo(k) + RestFrom(k)
      decreases |children| - k
    {
      if k < |children| {
        ContentSplit(k + 1);
        assert ContentUpTo(k + 1) == ContentUpTo(k) + ChildText(k);
        assert RestFrom(k) == ChildText(k) + RestFrom(k + 1);
        assert ContentUpTo(k) + ChildText(k) + RestFrom(k + 1) == ContentUpTo(k) + (ChildText(k) + RestFrom(k + 1));
      }
    }

    /** The text of the first `k` children, read from a snapshot `m` of
        the text nodes' contents instead of from the nodes. */
    ghost function ContentIn(k: nat, m: map<TextNode, string>): string
      requires Valid() && k <= |children| && texts <= m.Keys
      decreases height, k, 1
    {
      if k == 0 then "" else ContentIn(k - 1, m) + ChildIn(k - 1, m)
    }

    ghost function ChildIn(k: nat, m: map<TextNode, string>): string
      requires Valid() && k < |children| && texts <= m.Keys
      decreases height, k + 1, 0
    {
      OwnWithin(k, |children|);
      match children[k]
      case TextChild(t) => m[t]
      case ElementChild(e) => e.ContentIn(|e.children|, m)
    }

    /** Read from a snapshot of the current contents, the text is the
        element's text. */
    lemma {:induction false} ContentInSnapshot(k: nat, m: map<TextNode, string>)
      requires Valid() && k <= |children|
      requires forall t :: t in texts ==> t in m && m[t] == t.content
      ensures ContentIn(k, m) == ContentUpTo(k)
      decreases height, k
    {
      if k > 0 {
        ContentInSnapshot(k - 1, m);
        OwnWithin(k - 1, |children|);
        match children[k - 1] {
          case TextChild(t) =>
          case ElementChild(e) =>
            e.ContentInSnapshot(|e.children|, m);
        }
        assert ChildIn(k - 1, m) == ChildText(k - 1);
      }
    }

    /** Translating some of the text nodes in a snapshot leaves the shape
        of the text as it was. */
    lemma {:induction false} ContentInShape(k: nat, m: map<TextNode, string>, m': map<TextNode, string>)
      requires Valid() && k <= |children| && texts <= m.Keys && texts <= m'.Keys
      requires forall t :: t in texts ==> m'[t] == m[t] || m'[t] == ToCyrillic(m[t])
      ensures Shape(ContentIn(k, m')) == Shape(ContentIn(k, m))
      decreases height, k
    {
      if k > 0 {
        ContentInShape(k - 1, m, m');
        OwnWithin(k - 1, |children|);
        match children[k - 1] {
          case TextChild(t) =>
            if m'[t] != m[t] {
              ShapeToCyrillic(m[t]);
            }
          case ElementChild(e) =>
            e.ContentInShape(|e.children|, m, m');
        }
        ShapeConcat(ContentIn(k - 1, m'), ContentIn(k - 1, m), ChildIn(k - 1, m'), ChildIn(k - 1, m));
      }
    }

    /** `translateTextNodes(element, translateFn, reverse)`. */
    method TranslateTextNodes(translateFn: string -> string, reverse: bool)
      requires Valid()
      modifies texts
      ensures forall t :: t in texts ==>
        t.State() == if t in Visible() then Visit(old(t.State()), translateFn, reverse) else old(t.State())
      decreases height, 1
    {
      if "CodeBlock" in classes {
        return;
      }
      for k := 0 to |children|
        invariant forall t :: t in texts ==>
          t.State() == if t in VisibleUpTo(k) then Visit(old(t.State()), translateFn, reverse) else old(t.State())
      {
        VisibleStep(k);
        label Before:
        VisitChild(children[k], translateFn, reverse);
        forall t | t in texts
          ensures t.State() == if t in VisibleUpTo(k + 1) then Visit(old(t.State()), translateFn, reverse) else old(t.State())
        {
          if t in Own(children[k]) {
            assert t !in VisibleUpTo(k);
          } else {
            assert t.State() == old@Before(t.State()) && t !in VisibleOf(children[k]);
          }
        }
      }
    }
  }

  /** Termination measure for the walk's mutual recursion between an
      element and its children. */
  ghost function ChildHeight(c: Child): nat {
    match c
    case TextChild(_) => 0
    case ElementChild(e) => e.height
  }

  ghost function ChildRank(c: Child): nat {
    match c
    case TextChild(_) => 0
    case ElementChild(e) => |e.children| + 2
  }

  /** The text nodes of one child that the walk visits. */
  ghost function VisibleOf(c: Child): set<TextNode>
    requires c.ElementChild? ==> c.elem.Valid()
    decreases ChildHeight(c), ChildRank(c)
  {
    match c
    case TextChild(t) => {t}
    case ElementChild(e) => e.Visible()
  }

  lemma VisibleOfWithin(c: Child)
    requires c.ElementChild? ==> c.elem.Valid()
    ensures VisibleOf(c) <= Own(c)
    decreases ChildHeight(c), ChildRank(c)
  {
    if c.ElementChild? {
      c.elem.VisibleWithin();
    }
  }

  /** The body of the loop over `childNodes`: a text node is visited, an
      element is walked. */
  method VisitChild(c: Child, translateFn: string -> string, reverse: bool)
    requires c.ElementChild? ==> c.elem.Valid()
    modifies Own(c)
    ensures forall t :: t in Own(c) ==>
      t.State() == if t in VisibleOf(c) then Visit(old(t.State()), translateFn, reverse) else old(t.State())
    decreases ChildHeight(c), ChildRank(c)
  {
    match c
    case TextChild(t) =>
      if !reverse {
        if !HasCache(t.original) {
          t.original := Some(t.content);
        }
        t.content := translateFn(t.content);
      } else {
        if HasCache(t.original) {
          t.content := t.original.value;
        }
      }
    case ElementChild(e) =>
      e.TranslateTextNodes(translateFn, reverse);
  }

  ghost function MaxHeight(cs: seq<Child>): (h: nat)
    ensures forall i :: 0 <= i < |cs| && cs[i].ElementChild? ==> cs[i].elem.height <= h
  {
    if cs == [] then 0
    else
      var h := MaxHeight(cs[..|cs| - 1]);
      var last := if cs[|cs| - 1].ElementChild? then cs[|cs| - 1].elem.height else 0;
      var m := if h < last then last else h;
      assert forall i :: 0 <= i < |cs| - 1 ==> cs[i] == cs[..|cs| - 1][i];
      m
  }

  ghost function OwnsOf(cs: seq<Child>): set<TextNode> {
    if cs == [] then {} else OwnsOf(cs[..|cs| - 1]) + Own(cs[|cs| - 1])
  }

  lemma OwnsOfAppend(cs: seq<Child>, c: Child)
    ensures OwnsOf(cs + [c]) == OwnsOf(cs) + Own(c)
  {
    assert (cs + [c])[..|cs|] == cs;
  }

  /** `restoreLatin(el)`: write the cached originals back and drop the
      marker. */
  method RestoreLatin(el: Element)
    requires el.Valid()
    modifies el, el.texts
    ensures !el.translated
    ensures forall t :: t in el.texts ==>
      t.State() == if t in el.Visible() then Reverse(old(t.State())) else old(t.State())
  {
    el.TranslateTextNodes(s => s, true);
    el.translated := false;
  }

  /** The script's global state: the `cyrillicEnabled` flag. */
  class Translator {
    var enabled: bool

    /** Only a stored "false" turns the transform off. */
    constructor (stored: Option<string>)
      ensures enabled == (stored != Some("false"))
    {
      enabled := stored != Some("false");
    }

    /** `processMessageContent(el)`. Afterwards a further call does
        nothing: the flag is off, the element is marked, or it is skipped. */
    method ProcessMessageContent(el: Element)
      requires el.Valid()
      modifies el, el.texts
      ensures var go := enabled && !old(el.translated) && !ShouldSkip(old(el.TextContent()));
        && el.translated == (old(el.translated) || go)
        && forall t :: t in el.texts ==>
             t.State() == if go && t in el.Visible() then Forward(old(t.State()), ToCyrillic) else old(t.State())
      ensures !enabled || el.translated || ShouldSkip(el.TextContent())
    {
      if !enabled {
        return;
      }
      if el.translated {
        return;
      }
      if ShouldSkip(el.TextContent()) {
        return;
      }
      el.TranslateTextNodes(ToCyrillic, false);
      el.translated := true;
    }

    /** `forEach(processMessageContent)` over the candidates, with the
        flag on. Exactly the candidates that were unmarked and not skipped
        at the start get marked, and exactly the text nodes a walk from one
        of them visits end in the state of one forward visit (a nested
        pending candidate visits them again, which `ForwardIdempotent`
        makes a no-op). Translating one candidate
        never changes another's skip verdict (`SkipToCyrillic`), so the
        order of the candidates and their overlaps do not matter. */
    method ProcessAll(candidates: seq<Element>)
      requires enabled
      requires forall e :: e in candidates ==> e.Valid()
      modifies (set e | e in candidates), TextsOf(candidates)
      ensures forall e :: e in candidates ==>
        e.translated == (old(e.translated) || !ShouldSkip(old(e.TextContent())))
      ensures forall t :: t in TextsOf(candidates) ==>
        t.State() == if t in ReachedBy(candidates, old(PendingIn(candidates)))
                     then Forward(old(t.State()), ToCyrillic) else old(t.State())
    {
      ghost var pend := PendingIn(candidates);
      ghost var all: set<TextNode> := TextsOf(candidates);
      ghost var start: map<TextNode, TextState> := map t | t in all :: t.State();
      PendingFromSnapshot(candidates, Contents(start));
      ProcessEach(candidates, pend, all, start);
    }

    /** The loop of `ProcessAll`, with the pending candidates `pend` and the
        start states `start` of the text nodes `all` fixed in advance. */
    method ProcessEach(candidates: seq<Element>, ghost pend: set<Element>, ghost all: set<TextNode>,
                       ghost start: map<TextNode, TextState>)
      requires enabled
      requires forall e :: e in candidates ==> e.Valid() && e.texts <= all
      requires all <= start.Keys && forall t :: t in all ==> t.State() == start[t]
      requires forall e :: e in candidates ==>
        (e in pend <==> !e.translated && !ShouldSkip(e.ContentIn(|e.children|, Contents(start))))
      modifies (set e | e in candidates), all
      ensures forall e :: e in candidates ==> e.translated == (old(e.translated) || e in pend)
      ensures forall t :: t in all ==>
        t.State() == if t in ReachedBy(candidates, pend) then Forward(start[t], ToCyrillic) else start[t]
    {
      ghost var reached: set<TextNode> := {};
      for i := 0 to |candidates|
        invariant reached == ReachedBy(candidates[..i], pend)
        invariant forall e :: e in candidates ==> e.translated == (old(e.translated) || (e in candidates[..i] && e in pend))
        invariant forall t :: t in all ==>
          t.State() == if t in reached then Forward(start[t], ToCyrillic) else start[t]
      {
        var c := candidates[i];
        ReachedByNext(candidates, i, pend);
        label Before:
        ProcessNext(c, all, start, reached, c in pend, c in candidates[..i], old(c.translated));
        forall e | e in candidates
          ensures e.translated == (old(e.translated) || (e in candidates[..i + 1] && e in pend))
        {
          if e != c {
            assert e.translated == old@Before(e.translated);
          }
        }
        reached := reached + (if c in pend then c.Visible() else {});
      }
      assert candidates[..|candidates|] == candidates;
    }

    /** One step of `ProcessEach`: `processMessageContent(c)`, where the
        text nodes in `all` started out as `start` and those in `reached`
        have been translated since. The skip verdict on `c` is then the
        one it had at the start, so `c` is processed exactly when it was
        pending and no earlier candidate was the same element (`done`). */
    method ProcessNext(c: Element, ghost all: set<TextNode>, ghost start: map<TextNode, TextState>,
                       ghost reached: set<TextNode>, ghost pending: bool, ghost done: bool, ghost marked: bool)
      requires enabled && c.Valid() && c.texts <= all && all <= start.Keys
      requires forall t :: t in all ==>
        t.State() == if t in reached then Forward(start[t], ToCyrillic) else start[t]
      requires pending <==> !marked && !ShouldSkip(c.ContentIn(|c.children|, Contents(start)))
      requires c.translated == (marked || (done && pending))
      requires done && pending ==> c.Visible() <= reached
      modifies c, c.texts
      ensures c.translated == (marked || pending)
      ensures forall t :: t in all ==>
        t.State() == if t in reached + (if pending then c.Visible() else {})
                     then Forward(start[t], ToCyrillic) else start[t]
    {
      c.VisibleWithin();
      ghost var before := Contents(start);
      forall t | t in c.texts
        ensures t.content == before[t] || t.content == ToCyrillic(before[t])
      {
      }
      SkipUnchanged(c, before);
      ghost var go := !c.translated && !ShouldSkip(c.TextContent());
      assert go <==> pending && !done;
      ProcessMessageContent(c);
      forall t | t in all
        ensures t.State() == if t in reached + (if pending then c.Visible() else {})
                             then Forward(start[t], ToCyrillic) else start[t]
      {
        if t in c.texts {
          ForwardIdempotent(start[t]);
        }
      }
    }

    /** The toggle button's click handler, restore/process part: flip the
        flag; when it goes off, restore every element of `marked` (the
        result of the `[data-translated="true"]` query); when it goes on,
        process every element of `candidates` (the `.message-content,
        .message` query). */
    method Toggle(marked: seq<Element>, candidates: seq<Element>)
      requires forall e :: e in marked ==> e.Valid()
      requires forall e :: e in candidates ==> e.Valid()
      modifies this, (set e | e in marked), (set e | e in candidates), TextsOf(marked), TextsOf(candidates)
      ensures enabled == !old(enabled)
      ensures !enabled ==>
        && (forall e :: e in marked ==> !e.translated)
        && (forall e :: e in candidates && e !in marked ==> e.translated == old(e.translated))
        && (forall t :: t in TextsOf(marked) ==>
              t.State() == if t in VisibleIn(marked) then Reverse(old(t.State())) else old(t.State()))
        && (forall t :: t in TextsOf(candidates) && t !in TextsOf(marked) ==> t.State() == old(t.State()))
      ensures enabled ==>
        && (forall e :: e in marked && e !in candidates ==> e.translated == old(e.translated))
        && (forall e :: e in candidates ==> e.translated == (old(e.translated) || !ShouldSkip(old(e.TextContent()))))
        && (forall t :: t in TextsOf(candidates) ==>
              t.State() == if t in ReachedBy(candidates, old(PendingIn(candidates)))
                           then Forward(old(t.State()), ToCyrillic) else old(t.State()))
        && (forall t :: t in TextsOf(marked) && t !in TextsOf(candidates) ==> t.State() == old(t.State()))
    {
      ghost var pend := PendingIn(candidates);
      enabled := !enabled;
      assert pend == PendingIn(candidates);
      if !enabled {
        RestoreAll(marked);
      } else {
        ProcessAll(candidates);
      }
    }
  }

  /** `forEach(restoreLatin)` over the marked elements. */
  method RestoreAll(marked: seq<Element>)
    requires forall e :: e in marked ==> e.Valid()
    modifies (set e | e in marked), TextsOf(marked)
    ensures forall e :: e in marked ==> !e.translated
    ensures forall t :: t in TextsOf(marked) ==>
      t.State() == if t in VisibleIn(marked) then Reverse(old(t.State())) else old(t.State())
  {
    for i := 0 to |marked|
      invariant forall e :: e in marked[..i] ==> !e.translated
      invariant forall t :: t in TextsOf(marked) ==>
        t.State() == if t in VisibleIn(marked[..i]) then Reverse(old(t.State())) else old(t.State())
    {
      var m := marked[i];
      m.VisibleWithin();
      assert marked[..i + 1] == marked[..i] + [m];
      VisibleInAppend(marked[..i], m);
      RestoreLatin(m);
    }
    assert marked[..|marked|] == marked;
  }

  /** The text nodes under any of `es`. */
  ghost function TextsOf(es: seq<Element>): set<TextNode> {
    set e, t | e in es && t in e.texts :: t
  }

  /** The text nodes a walk from any of `es` visits. */
  ghost function VisibleIn(es: seq<Element>): set<TextNode>
    requires forall e :: e in es ==> e.Valid()
  {
    set e, t | e in es && t in e.Visible() :: t
  }

  lemma VisibleInAppend(es: seq<Element>, e: Element)
    requires forall x :: x in es + [e] ==> x.Valid()
    ensures VisibleIn(es + [e]) == VisibleIn(es) + e.Visible()
  {
  }

  /** What `processMessageContent` acts on while the flag is on: an
      unmarked element whose text is not skipped. */
  predicate Pending(e: Element)
    requires e.Valid()
    reads e, e.texts
  {
    !e.translated && !ShouldSkip(e.TextContent())
  }

  ghost function PendingIn(es: seq<Element>): set<Element>
    requires forall e :: e in es ==> e.Valid()
    reads (set e | e in es), TextsOf(es)
  {
    set e | e in es && Pending(e)
  }

  /** The text nodes a walk from one of `es` that is in `pend` visits. */
  ghost function ReachedBy(es: seq<Element>, pend: set<Element>): set<TextNode>
    requires forall e :: e in es ==> e.Valid()
  {
    set e, t | e in es && e in pend && t in e.Visible() :: t
  }

  /** Walking one more candidate: its elements and text nodes are added. */
  lemma ReachedByNext(es: seq<Element>, i: nat, pend: set<Element>)
    requires i < |es| && forall x :: x in es ==> x.Valid()
    ensures forall e :: e in es[..i + 1] <==> e in es[..i] || e == es[i]
    ensures ReachedBy(es[..i + 1], pend) == ReachedBy(es[..i], pend) + (if es[i] in pend then es[i].Visible() else {})
  {
    assert es[..i + 1] == es[..i] + [es[i]];
  }

  /** Translating some of the text nodes below `e` since a snapshot was
      taken leaves its skip verdict as it was in the snapshot. */
  lemma SkipUnchanged(e: Element, before: map<TextNode, string>)
    requires e.Valid() && e.texts <= before.Keys
    requires forall t :: t in e.texts ==> t.content == before[t] || t.content == ToCyrillic(before[t])
    ensures ShouldSkip(e.TextContent()) == ShouldSkip(e.ContentIn(|e.children|, before))
  {
    var now := map t | t in e.texts :: t.content;
    e.ContentInSnapshot(|e.children|, now);
    e.ContentInShape(|e.children|, before, now);
    SkipShape(e.TextContent(), e.ContentIn(|e.children|, before));
  }

  /** The contents of a snapshot of text-node states. */
  ghost function Contents(start: map<TextNode, TextState>): (m: map<TextNode, string>)
    ensures m.Keys == start.Keys && forall t :: t in m ==> m[t] == start[t].content
  {
    map t | t in start :: start[t].content
  }

  /** Which elements are pending can be read from a snapshot of the
      contents. */
  lemma PendingFromSnapshot(es: seq<Element>, m: map<TextNode, string>)
    requires forall e :: e in es ==> e.Valid()
    requires forall t :: t in TextsOf(es) ==> t in m && m[t] == t.content
    ensures forall e :: e in es ==>
      e.texts <= m.Keys && (e in PendingIn(es) <==> !e.translated && !ShouldSkip(e.ContentIn(|e.children|, m)))
  {
    forall e | e in es
      ensures e.texts <= m.Keys && e.ContentIn(|e.children|, m) == e.TextContent()
    {
      e.ContentInSnapshot(|e.children|, m);
    }
  }
}
