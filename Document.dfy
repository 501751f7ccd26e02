/**
 * The parsed HTML document as the tree-based extractor sees it: elements
 * with a tag name, a set of CSS classes, string attributes and children, and
 * text leaves. The lookups are the handful of BeautifulSoup calls the
 * extractor makes: `get_text(strip=True)`, `select`, `select_one`, `find`,
 * `find_all` and `get`. Document order is pre-order.
 */
module Document {
  import opened Text
  import opened Wrappers

  datatype Node =
    | Element(tag: string, classes: set<string>, attrs: map<string, string>, children: seq<Node>)
    | TextNode(text: string)

  /** `n` followed by all of its descendants, in document order. */
  function Subtree(n: Node): seq<Node>
    decreases n, 1
  {
    [n] + (if n.Element? then Forest(n.children) else [])
  }

  /** The subtrees of `ns`, one after the other, in document order. */
  function Forest(ns: seq<Node>): seq<Node>
    decreases ns, 0
  {
    if ns == [] then [] else Subtree(ns[0]) + Forest(ns[1..])
  }

  /** Every node strictly below `n`, in document order (`n.descendants`). */
  function Descendants(n: Node): seq<Node> {
    if n.Element? then Forest(n.children) else []
  }

  // ---------------------------------------------------------------------
  // get_text(strip=True)

  /** The text leaves among `ns`, each stripped, with the empty ones dropped. */
  function TextPieces(ns: seq<Node>): (ps: seq<string>)
    ensures forall k | 0 <= k < |ps| :: ps[k] != [] && IsStripped(ps[k])
  {
    if ns == [] then []
    else
      var rest := TextPieces(ns[1..]);
      if ns[0].TextNode? && Strip(ns[0].text) != "" then [Strip(ns[0].text)] + rest else rest
  }

  /** `tag.get_text(strip=True)`: the stripped, non-empty text leaves of the
      subtree joined without a separator. The result has no whitespace at
      either end. */
  function GetText(n: Node): (r: string)
    ensures IsStripped(r)
  {
    ConcatStripped(TextPieces(Subtree(n)));
    Concat(TextPieces(Subtree(n)))
  }

  /** An element whose only content is one text leaf yields that text,
      stripped. */
  lemma GetTextOfLeaf(tag: string, classes: set<string>, attrs: map<string, string>, t: string)
    ensures GetText(Element(tag, classes, attrs, [TextNode(t)])) == Strip(t)
  {
    var leaf := TextNode(t);
    var n := Element(tag, classes, attrs, [leaf]);
    assert Forest([leaf]) == [leaf] by {
      assert [leaf][1..] == [];
    }
    var sub := Subtree(n);
    assert sub == [n, leaf];
    assert sub[1..] == [leaf] && sub[1..][1..] == [];
    assert TextPieces(sub) == TextPieces([leaf]);
    assert Concat(TextPieces(sub)) == Strip(t) by {
      if Strip(t) != "" {
        assert TextPieces([leaf]) == [Strip(t)];
        assert Concat([Strip(t)]) == Strip(t) + Concat([]);
      }
    }
  }

  /** `tag.get(name, default)`. */
  function Attr(n: Node, name: string, default: string): (r: string)
    ensures n.Element? && name in n.attrs ==> r == n.attrs[name]
    ensures !(n.Element? && name in n.attrs) ==> r == default
  {
    if n.Element? && name in n.attrs then n.attrs[name] else default
  }

  // ---------------------------------------------------------------------
  // selectors

  /** The simple selectors the extractor uses: `tag`, `.class` and
      `tag.class`. */
  datatype Selector = Tag(name: string) | Class(cls: string) | TagClass(tagName: string, className: string)

  predicate Matches(n: Node, sel: Selector) {
    n.Element? &&
    match sel
    case Tag(t) => n.tag == t
    case Class(c) => c in n.classes
    case TagClass(t, c) => n.tag == t && c in n.classes
  }

  /** The nodes of `ns` that match `sel`, in their order in `ns`. */
  function Filter(ns: seq<Node>, sel: Selector): (r: seq<Node>)
    ensures |r| <= |ns|
    ensures forall x :: x in r <==> x in ns && Matches(x, sel)
  {
    if ns == [] then []
    else
      var rest := Filter(ns[1..], sel);
      assert forall x :: x in ns <==> x == ns[0] || x in ns[1..];
      if Matches(ns[0], sel) then [ns[0]] + rest else rest
  }

  /** The first node of `ns` matching `sel`, if any. */
  function FirstMatch(ns: seq<Node>, sel: Selector): (r: Option<Node>)
    ensures r.None? <==> forall k | 0 <= k < |ns| :: !Matches(ns[k], sel)
    ensures r.Some? ==>
      exists k | 0 <= k < |ns| :: ns[k] == r.value && Matches(ns[k], sel) &&
        forall j | 0 <= j < k :: !Matches(ns[j], sel)
  {
    if ns == [] then None
    else if Matches(ns[0], sel) then Some(ns[0])
    else
      var r := FirstMatch(ns[1..], sel);
      assert forall k | 1 <= k < |ns| :: ns[k] == ns[1..][k - 1];
      r
  }

  /** `tag.select(sel)` and `tag.find_all(name)`: every descendant matching
      `sel`, in document order. */
  function SelectAll(root: Node, sel: Selector): seq<Node> {
    Filter(Descendants(root), sel)
  }

  /** `tag.select_one(sel)` and `tag.find(name)`: the first descendant
      matching `sel` in document order, or nothing. */
  function SelectOne(root: Node, sel: Selector): Option<Node> {
    FirstMatch(Descendants(root), sel)
  }

  /** `select_one` is the head of `select`. */
  lemma {:induction false} FirstMatchIsFilterHead(ns: seq<Node>, sel: Selector)
    ensures FirstMatch(ns, sel) == if Filter(ns, sel) == [] then None else Some(Filter(ns, sel)[0])
  {
    if ns != [] && !Matches(ns[0], sel) {
      FirstMatchIsFilterHead(ns[1..], sel);
    }
  }

  lemma SelectOneIsFirstOfSelect(root: Node, sel: Selector)
    ensures SelectOne(root, sel) ==
      if SelectAll(root, sel) == [] then None else Some(SelectAll(root, sel)[0])
  {
    FirstMatchIsFilterHead(Descendants(root), sel);
  }

  // ---------------------------------------------------------------------
  // the descendant combinator `.cls tag`

  /** The nodes of the subtree of `n` that carry tag `tag` and lie below an
      element with class `cls`; `under` says that an ancestor of `n` already
      has that class. */
  function NestedIn(n: Node, under: bool, cls: string, tag: string): seq<Node>
    decreases n, 1
  {
    (if under && n.Element? && n.tag == tag then [n] else [])
    + (if n.Element? then NestedInForest(n.children, under || cls in n.classes, cls, tag) else [])
  }

  function NestedInForest(ns: seq<Node>, under: bool, cls: string, tag: string): seq<Node>
    decreases ns, 0
  {
    if ns == [] then [] else NestedIn(ns[0], under, cls, tag) + NestedInForest(ns[1..], under, cls, tag)
  }

  /** `root.select_one('.cls tag')`: the first descendant with tag `tag` that
      has an ancestor with class `cls` (the ancestor may be `root` itself). */
  function SelectOneNested(root: Node, cls: string, tag: string): Option<Node> {
    if root.Element? then
      var found := NestedInForest(root.children, cls in root.classes, cls, tag);
      if found == [] then None else Some(found[0])
    else None
  }

  /** Below an element with class `cls`, the combinator selects exactly the
      nodes with tag `tag`. */
  lemma {:induction false} NestedUnderIsTagFilter(n: Node, cls: string, tag: string)
    ensures NestedIn(n, true, cls, tag) == Filter(Subtree(n), Tag(tag))
    decreases n, 1
  {
    if n.Element? {
      NestedUnderIsTagFilterForest(n.children, cls, tag);
    }
    FilterAppend([n], if n.Element? then Forest(n.children) else [], Tag(tag));
  }

  lemma {:induction false} NestedUnderIsTagFilterForest(ns: seq<Node>, cls: string, tag: string)
    ensures NestedInForest(ns, true, cls, tag) == Filter(Forest(ns), Tag(tag))
    decreases ns, 0
  {
    if ns != [] {
      NestedUnderIsTagFilter(ns[0], cls, tag);
      NestedUnderIsTagFilterForest(ns[1..], cls, tag);
      FilterAppend(Subtree(ns[0]), Forest(ns[1..]), Tag(tag));
    }
  }

  lemma {:induction false} FilterAppend(a: seq<Node>, b: seq<Node>, sel: Selector)
    ensures Filter(a + b, sel) == Filter(a, sel) + Filter(b, sel)
  {
    if a != [] {
      assert (a + b)[0] == a[0];
      assert (a + b)[1..] == a[1..] + b;
      FilterAppend(a[1..], b, sel);
    } else {
      assert a + b == b;
    }
  }

  /** Every element the combinator finds carries tag `tag` and lies in the
      subtree. */
  lemma {:induction false} NestedInFindsTags(n: Node, under: bool, cls: string, tag: string)
    ensures forall x | x in NestedIn(n, under, cls, tag) :: x in Filter(Subtree(n), Tag(tag))
    decreases n, 1
  {
    if n.Element? {
      NestedInForestFindsTags(n.children, under || cls in n.classes, cls, tag);
    }
    FilterAppend([n], if n.Element? then Forest(n.children) else [], Tag(tag));
  }

  lemma {:induction false} NestedInForestFindsTags(ns: seq<Node>, under: bool, cls: string, tag: string)
    ensures forall x | x in NestedInForest(ns, under, cls, tag) :: x in Filter(Forest(ns), Tag(tag))
    decreases ns, 0
  {
    if ns != [] {
      NestedInFindsTags(ns[0], under, cls, tag);
      NestedInForestFindsTags(ns[1..], under, cls, tag);
      FilterAppend(Subtree(ns[0]), Forest(ns[1..]), Tag(tag));
    }
  }

  /** What `select_one('.cls tag')` returns is a descendant with tag `tag`;
      when `root` itself has class `cls` it is the first such descendant. */
  lemma SelectOneNestedFindsTag(root: Node, cls: string, tag: string)
    ensures SelectOneNested(root, cls, tag).Some? ==>
      SelectOneNested(root, cls, tag).value in SelectAll(root, Tag(tag))
    ensures root.Element? && cls in root.classes ==>
      SelectOneNested(root, cls, tag) == SelectOne(root, Tag(tag))
  {
    if root.Element? {
      NestedInForestFindsTags(root.children, cls in root.classes, cls, tag);
      if cls in root.classes {
        NestedUnderIsTagFilterForest(root.children, cls, tag);
        FirstMatchIsFilterHead(Descendants(root), Tag(tag));
      }
    }
  }

  // ---------------------------------------------------------------------
  // the descendant combinator against the ancestor chain

  /** The nodes of the subtree of `n` in document order, each paired with
      its ancestors from the outermost down; `anc` are the ancestors of `n`. */
  function Placed(n: Node, anc: seq<Node>): seq<(Node, seq<Node>)>
    decreases n, 1
  {
    [(n, anc)] + (if n.Element? then PlacedForest(n.children, anc + [n]) else [])
  }

  function PlacedForest(ns: seq<Node>, anc: seq<Node>): seq<(Node, seq<Node>)>
    decreases ns, 0
  {
    if ns == [] then [] else Placed(ns[0], anc) + PlacedForest(ns[1..], anc)
  }

  /** The descendants of `root`, each with its ancestor chain starting at
      `root`. */
  function PlacedDescendants(root: Node): seq<(Node, seq<Node>)> {
    if root.Element? then PlacedForest(root.children, [root]) else []
  }

  /** The nodes of a placed sequence, in order. */
  function Nodes(ps: seq<(Node, seq<Node>)>): (r: seq<Node>)
    ensures |r| == |ps|
  {
    if ps == [] then [] else [ps[0].0] + Nodes(ps[1..])
  }

  /** `a` lists the ancestors of `x` from the outermost down: each is an
      element whose children hold the next one, and the last one's children
      hold `x`. */
  predicate ParentChain(a: seq<Node>, x: Node) {
    forall i | 0 <= i < |a| :: a[i].Element? && (if i + 1 < |a| then a[i + 1] else x) in a[i].children
  }

  predicate HasClassAncestor(a: seq<Node>, cls: string) {
    exists i | 0 <= i < |a| :: a[i].Element? && cls in a[i].classes
  }

  /** What `.cls tag` asks of a node: tag `tag` and an ancestor with class
      `cls`. */
  predicate Qualifies(p: (Node, seq<Node>), cls: string, tag: string) {
    p.0.Element? && p.0.tag == tag && HasClassAncestor(p.1, cls)
  }

  /** The qualifying nodes of `ps`, in order. */
  function Candidates(ps: seq<(Node, seq<Node>)>, cls: string, tag: string): seq<Node> {
    if ps == [] then []
    else (if Qualifies(ps[0], cls, tag) then [ps[0].0] else []) + Candidates(ps[1..], cls, tag)
  }

  /** No candidate exactly when no entry qualifies; otherwise the first
      candidate is the node of the first qualifying entry. */
  lemma {:induction false} CandidatesFirst(ps: seq<(Node, seq<Node>)>, cls: string, tag: string)
    ensures Candidates(ps, cls, tag) == [] <==> forall k | 0 <= k < |ps| :: !Qualifies(ps[k], cls, tag)
    ensures Candidates(ps, cls, tag) != [] ==>
      exists k | 0 <= k < |ps| :: Qualifies(ps[k], cls, tag) && ps[k].0 == Candidates(ps, cls, tag)[0] &&
        forall j | 0 <= j < k :: !Qualifies(ps[j], cls, tag)
  {
    if ps != [] {
      CandidatesFirst(ps[1..], cls, tag);
      assert forall k | 1 <= k < |ps| :: ps[k] == ps[1..][k - 1];
    }
  }

  lemma {:induction false} CandidatesAppend(a: seq<(Node, seq<Node>)>, b: seq<(Node, seq<Node>)>, cls: string, tag: string)
    ensures Candidates(a + b, cls, tag) == Candidates(a, cls, tag) + Candidates(b, cls, tag)
  {
    if a != [] {
      assert (a + b)[0] == a[0];
      assert (a + b)[1..] == a[1..] + b;
      CandidatesAppend(a[1..], b, cls, tag);
    } else {
      assert a + b == b;
    }
  }

  lemma {:induction false} NodesAppend(a: seq<(Node, seq<Node>)>, b: seq<(Node, seq<Node>)>)
    ensures Nodes(a + b) == Nodes(a) + Nodes(b)
  {
    if a != [] {
      assert (a + b)[0] == a[0];
      assert (a + b)[1..] == a[1..] + b;
      NodesAppend(a[1..], b);
    } else {
      assert a + b == b;
    }
  }

  lemma ClassAncestorSnoc(a: seq<Node>, n: Node, cls: string)
    ensures HasClassAncestor(a + [n], cls) <==> HasClassAncestor(a, cls) || (n.Element? && cls in n.classes)
  {
    assert forall i | 0 <= i < |a| :: (a + [n])[i] == a[i];
    assert (a + [n])[|a|] == n;
  }

  /** The placed sequence lists the subtree in document order. */
  lemma {:induction false} PlacedNodes(n: Node, anc: seq<Node>)
    ensures Nodes(Placed(n, anc)) == Subtree(n)
    decreases n, 1
  {
    var rest := if n.Element? then PlacedForest(n.children, anc + [n]) else [];
    if n.Element? {
      PlacedForestNodes(n.children, anc + [n]);
    }
    NodesAppend([(n, anc)], rest);
    assert Nodes([(n, anc)]) == [n];
  }

  lemma {:induction false} PlacedForestNodes(ns: seq<Node>, anc: seq<Node>)
    ensures Nodes(PlacedForest(ns, anc)) == Forest(ns)
    decreases ns, 0
  {
    if ns != [] {
      PlacedNodes(ns[0], anc);
      PlacedForestNodes(ns[1..], anc);
      NodesAppend(Placed(ns[0], anc), PlacedForest(ns[1..], anc));
    }
  }

  /** The combinator finds exactly the qualifying nodes of the subtree, in
      document order, when `under` says whether an ancestor has the class. */
  lemma {:induction false} NestedInIsCandidates(n: Node, anc: seq<Node>, cls: string, tag: string)
    ensures NestedIn(n, HasClassAncestor(anc, cls), cls, tag) == Candidates(Placed(n, anc), cls, tag)
    decreases n, 1
  {
    var rest := if n.Element? then PlacedForest(n.children, anc + [n]) else [];
    if n.Element? {
      ClassAncestorSnoc(anc, n, cls);
      NestedInForestIsCandidates(n.children, anc + [n], cls, tag);
    }
    CandidatesAppend([(n, anc)], rest, cls, tag);
    assert [(n, anc)][1..] == [];
  }

  lemma {:induction false} NestedInForestIsCandidates(ns: seq<Node>, anc: seq<Node>, cls: string, tag: string)
    ensures NestedInForest(ns, HasClassAncestor(anc, cls), cls, tag) == Candidates(PlacedForest(ns, anc), cls, tag)
    decreases ns, 0
  {
    if ns != [] {
      NestedInIsCandidates(ns[0], anc, cls, tag);
      NestedInForestIsCandidates(ns[1..], anc, cls, tag);
      CandidatesAppend(Placed(ns[0], anc), PlacedForest(ns[1..], anc), cls, tag);
    }
  }

  /** Every entry's chain starts with `anc` and is the entry's ancestry. */
  predicate AllPlaced(ps: seq<(Node, seq<Node>)>, anc: seq<Node>) {
    forall k | 0 <= k < |ps| :: |anc| <= |ps[k].1| && ps[k].1[..|anc|] == anc && ParentChain(ps[k].1, ps[k].0)
  }

  lemma AllPlacedAppend(a: seq<(Node, seq<Node>)>, b: seq<(Node, seq<Node>)>, anc: seq<Node>)
    requires AllPlaced(a, anc) && AllPlaced(b, anc)
    ensures AllPlaced(a + b, anc)
  {
    forall k | 0 <= k < |a + b| ensures (a + b)[k] == if k < |a| then a[k] else b[k - |a|] {
    }
  }

  lemma AllPlacedShorter(ps: seq<(Node, seq<Node>)>, anc: seq<Node>, n: Node)
    requires AllPlaced(ps, anc + [n])
    ensures AllPlaced(ps, anc)
  {
    forall k | 0 <= k < |ps| ensures ps[k].1[..|anc|] == anc {
      assert ps[k].1[..|anc|] == ps[k].1[..|anc| + 1][..|anc|];
    }
  }

  lemma ChainSnoc(anc: seq<Node>, n: Node, c: Node)
    requires ParentChain(anc, n) && n.Element? && c in n.children
    ensures ParentChain(anc + [n], c)
  {
    var a := anc + [n];
    forall i | 0 <= i < |a| ensures a[i].Element? && (if i + 1 < |a| then a[i + 1] else c) in a[i].children {
      if i < |anc| {
        assert a[i] == anc[i];
        if i + 1 < |anc| {
          assert a[i + 1] == anc[i + 1];
        } else {
          assert a[i + 1] == n;
        }
      } else {
        assert a[i] == n;
      }
    }
  }

  lemma {:induction false} PlacedAncestry(n: Node, anc: seq<Node>)
    requires ParentChain(anc, n)
    ensures AllPlaced(Placed(n, anc), anc)
    decreases n, 1
  {
    var rest := if n.Element? then PlacedForest(n.children, anc + [n]) else [];
    if n.Element? {
      forall j | 0 <= j < |n.children| ensures ParentChain(anc + [n], n.children[j]) {
        ChainSnoc(anc, n, n.children[j]);
      }
      PlacedForestAncestry(n.children, anc + [n]);
      AllPlacedShorter(rest, anc, n);
    }
    assert AllPlaced([(n, anc)], anc) by {
      assert anc[..|anc|] == anc;
    }
    AllPlacedAppend([(n, anc)], rest, anc);
  }

  lemma {:induction false} PlacedForestAncestry(ns: seq<Node>, anc: seq<Node>)
    requires forall j | 0 <= j < |ns| :: ParentChain(anc, ns[j])
    ensures AllPlaced(PlacedForest(ns, anc), anc)
    decreases ns, 0
  {
    if ns != [] {
      PlacedAncestry(ns[0], anc);
      assert forall j | 0 <= j < |ns[1..]| :: ns[1..][j] == ns[j + 1];
      PlacedForestAncestry(ns[1..], anc);
      AllPlacedAppend(Placed(ns[0], anc), PlacedForest(ns[1..], anc), anc);
    }
  }

  /** Each descendant of `root` is placed with its ancestor chain from
      `root` down to its parent, and the placed sequence is in document
      order. */
  lemma PlacedDescendantsMeaning(root: Node)
    ensures Nodes(PlacedDescendants(root)) == Descendants(root)
    ensures forall k | 0 <= k < |PlacedDescendants(root)| ::
      var (x, a) := PlacedDescendants(root)[k];
      a != [] && a[0] == root && ParentChain(a, x)
  {
    if root.Element? {
      PlacedForestNodes(root.children, [root]);
      forall j | 0 <= j < |root.children| ensures ParentChain([root], root.children[j]) {
      }
      PlacedForestAncestry(root.children, [root]);
    }
  }

  /** `root.select_one('.cls tag')`: the first descendant in document order
      that has tag `tag` and an ancestor, `root` included, carrying class
      `cls`; nothing exactly when no descendant is like that. */
  lemma SelectOneNestedIsFirstQualifying(root: Node, cls: string, tag: string)
    ensures var ps := PlacedDescendants(root);
      && (SelectOneNested(root, cls, tag).None? <==> forall k | 0 <= k < |ps| :: !Qualifies(ps[k], cls, tag))
      && (SelectOneNested(root, cls, tag).Some? ==>
        exists k | 0 <= k < |ps| :: Qualifies(ps[k], cls, tag) && ps[k].0 == SelectOneNested(root, cls, tag).value &&
          forall j | 0 <= j < k :: !Qualifies(ps[j], cls, tag))
  {
    if root.Element? {
      assert HasClassAncestor([root], cls) == (cls in root.classes) by {
        assert [root][0] == root;
      }
      NestedInForestIsCandidates(root.children, [root], cls, tag);
    }
    CandidatesFirst(PlacedDescendants(root), cls, tag);
  }
}
