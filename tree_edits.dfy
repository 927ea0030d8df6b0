/**
 * The hand-written tree edits of the editor, on child lists: unwrapping an element into its
 * parent, the walk from a node up to its nearest ancestor of a given kind, `Node.normalize()`,
 * replacing search markers by their text, and dropping attribute-less spans from pasted Word
 * markup.
 */
module TreeEdits {
  import opened Wrappers
  import opened Strings
  import opened Dom
  import opened TagPolicy

  // ---- Unwrapping an element ----

  /** The child list after the element at `k` has been replaced by its own children. */
  function Unwrapped(siblings: seq<Node>, k: nat): seq<Node>
    requires k < |siblings| && siblings[k].Element?
  {
    siblings[..k] + siblings[k].children + siblings[k + 1..]
  }

  /**
   * The unwrap loop `while (w.firstChild) parent.insertBefore(w.firstChild, w);
   * parent.removeChild(w)` on the parent's child list: each round moves the wrapper's first
   * child to just before the wrapper.
   */
  method UnwrapChild(siblings: seq<Node>, k: nat) returns (r: seq<Node>)
    requires k < |siblings| && siblings[k].Element?
    ensures r == Unwrapped(siblings, k)
  {
    var wrapper := siblings[k];
    var rest := wrapper.children;
    var moved := 0;
    r := siblings;
    while rest != []
      invariant moved <= |wrapper.children| && rest == wrapper.children[moved..]
      invariant r == siblings[..k] + wrapper.children[..moved]
                     + [Element(wrapper.tag, wrapper.attrs, rest)] + siblings[k + 1..]
      decreases |rest|
    {
      var first := rest[0];
      rest := rest[1..];
      assert wrapper.children[..moved + 1] == wrapper.children[..moved] + [first];
      r := r[..k + moved] + [first, Element(wrapper.tag, wrapper.attrs, rest)] + r[k + moved + 1..];
      moved := moved + 1;
    }
    assert wrapper.children[..moved] == wrapper.children;
    r := r[..k + moved] + r[k + moved + 1..];
  }

  /** Unwrapping keeps the parent's text: the children keep their order where the wrapper was. */
  lemma {:induction false} UnwrappedText(siblings: seq<Node>, k: nat)
    requires k < |siblings| && siblings[k].Element?
    ensures TextOf(Unwrapped(siblings, k)) == TextOf(siblings)
  {
    var kids := siblings[k].children;
    TextOfAppend(siblings[..k] + kids, siblings[k + 1..]);
    TextOfAppend(siblings[..k], kids);
    TextOfUpdate(siblings, k, siblings[k]);
  }

  /** Unwrapping removes exactly one element, the wrapper, and keeps every other element. */
  lemma {:induction false} UnwrappedTags(siblings: seq<Node>, k: nat)
    requires k < |siblings| && siblings[k].Element?
    ensures multiset(ElementTags(Unwrapped(siblings, k))) + multiset{siblings[k].tag}
            == multiset(ElementTags(siblings))
  {
    var pre, w, post := siblings[..k], siblings[k], siblings[k + 1..];
    var A, K, B := ElementTags(pre), ElementTags(w.children), ElementTags(post);
    ElementTagsAppend(pre + w.children, post);
    ElementTagsAppend(pre, w.children);
    assert ElementTags(Unwrapped(siblings, k)) == A + K + B;
    assert siblings == (pre + [w]) + post;
    ElementTagsAppend(pre + [w], post);
    ElementTagsAppend(pre, [w]);
    ElementTagsSingle(w);
    assert ElementTags(siblings) == A + ([w.tag] + K) + B;
    calc {
      multiset(ElementTags(siblings));
      multiset(A) + (multiset{w.tag} + multiset(K)) + multiset(B);
      multiset(A + K + B) + multiset{w.tag};
    }
  }

  /** Unwrapping never turns a compliant tree into a non-compliant one. */
  lemma {:induction false} UnwrapKeepsCompliance(siblings: seq<Node>, k: nat, allowed: seq<string>)
    requires k < |siblings| && siblings[k].Element?
    requires OnlyAllowedTags(siblings, allowed)
    ensures OnlyAllowedTags(Unwrapped(siblings, k), allowed)
  {
    UnwrappedTags(siblings, k);
    forall t | t in ElementTags(Unwrapped(siblings, k))
      ensures ToLower(t) in allowed
    {
      assert t in multiset(ElementTags(siblings));
    }
  }

  // ---- Ancestor walks ----

  /** The node at `q` is an element whose tag is one of `tags`. */
  predicate Tagged(cs: seq<Node>, q: Path, tags: set<string>)
  {
    ValidPath(cs, q) && At(cs, q).Element? && At(cs, q).tag in tags
  }

  /**
   * The nearest node on the way from `p` up to the editor (both ends included, the editor
   * excluded) that is an element with one of `tags`, or the editor itself (the empty path) when
   * there is none.
   */
  function NearestAncestor(cs: seq<Node>, p: Path, tags: set<string>): (q: Path)
    requires p == [] || ValidPath(cs, p)
    ensures q == [] || Tagged(cs, q, tags)
    decreases |p|
  {
    if p == [] then []
    else if At(cs, p).Element? && At(cs, p).tag in tags then p
    else if |p| == 1 then []
    else
      ParentIsElement(cs, p);
      NearestAncestor(cs, Parent(p), tags)
  }

  /**
   * The walk finds the nearest such ancestor: the result is on the path from `p` to the editor,
   * is a matching element unless it is the editor, and nothing strictly between it and `p`
   * (nor `p` itself) matches.
   */
  lemma {:induction false} NearestAncestorSpec(cs: seq<Node>, p: Path, tags: set<string>)
    requires p == [] || ValidPath(cs, p)
    ensures NearestAncestor(cs, p, tags) <= p
    ensures NearestAncestor(cs, p, tags) != [] ==> Tagged(cs, NearestAncestor(cs, p, tags), tags)
    ensures forall n :: |NearestAncestor(cs, p, tags)| < n <= |p| ==> !Tagged(cs, p[..n], tags)
    decreases |p|
  {
    if p != [] && !(At(cs, p).Element? && At(cs, p).tag in tags) {
      assert p[..|p|] == p;
      if |p| > 1 {
        ParentIsElement(cs, p);
        NearestAncestorSpec(cs, Parent(p), tags);
        forall n | |NearestAncestor(cs, p, tags)| < n < |p|
          ensures !Tagged(cs, p[..n], tags)
        {
          assert Parent(p)[..n] == p[..n];
        }
      }
    }
  }

  /**
   * The loop that climbs from a node towards the editor and stops at the first element with one
   * of `tags`; the Enter handler, `getBlockParent` and the formatting check all run it.
   */
  method WalkUp(cs: seq<Node>, start: Path, tags: set<string>) returns (q: Path)
    requires start == [] || ValidPath(cs, start)
    ensures q == NearestAncestor(cs, start, tags)
  {
    q := start;
    while q != []
      invariant q == [] || ValidPath(cs, q)
      invariant NearestAncestor(cs, q, tags) == NearestAncestor(cs, start, tags)
      decreases |q|
    {
      var node := At(cs, q);
      if node.Element? && node.tag in tags {
        break;
      }
      if |q| > 1 {
        ParentIsElement(cs, q);
      }
      q := Parent(q);
    }
  }

  /** The block-level tags `getBlockParent` stops at. */
  const BlockTags: set<string> := {"P", "DIV", "H1", "H2", "H3", "H4", "H5", "H6", "BLOCKQUOTE", "LI"}

  /**
   * `getBlockParent`: a text node starts from its parent, then the walk stops at the first
   * block-level element; the editor (the empty path) when there is none.
   */
  method BlockParent(cs: seq<Node>, node: Path) returns (block: Path)
    requires node == [] || ValidPath(cs, node)
    ensures block <= node
    ensures block != [] ==> Tagged(cs, block, BlockTags)
    ensures forall n :: |block| < n <= |node| ==> !Tagged(cs, node[..n], BlockTags)
  {
    var start := node;
    if node != [] && At(cs, node).Text? {
      if |node| > 1 {
        ParentIsElement(cs, node);
      }
      start := Parent(node);
    }
    block := WalkUp(cs, start, BlockTags);
    NearestAncestorSpec(cs, start, BlockTags);
    if start != node {
      assert node[..|node|] == node;
      forall n | |block| < n < |node|
        ensures !Tagged(cs, node[..n], BlockTags)
      {
        assert start[..n] == node[..n];
      }
    }
  }

  // ---- Node.normalize() ----

  /** No empty text node and no two adjacent text nodes, at any depth. */
  predicate Normalized(cs: seq<Node>)
    decreases cs
  {
    && (forall i :: 0 <= i < |cs| && cs[i].Text? ==> cs[i].data != "")
    && (forall i :: 0 <= i < |cs| - 1 ==> !(cs[i].Text? && cs[i + 1].Text?))
    && (forall i :: 0 <= i < |cs| && cs[i].Element? ==> Normalized(cs[i].children))
  }

  /**
   * One step of normalisation on the output list: an empty text node is dropped, a text node
   * after a text node is merged into it, anything else is appended.
   */
  function Push(acc: seq<Node>, n: Node): seq<Node>
  {
    match n
    case Text(s) =>
      if s == "" then acc
      else if acc != [] && acc[|acc| - 1].Text? then acc[..|acc| - 1] + [Text(acc[|acc| - 1].data + s)]
      else acc + [n]
    case Element(_, _, _) => acc + [n]
  }

  /** Normalisation of `cs` (elements normalised inside) appended to the output list `acc`. */
  function NormalizeInto(acc: seq<Node>, cs: seq<Node>): seq<Node>
    decreases cs
  {
    if cs == [] then acc
    else
      var n := match cs[0]
        case Text(_) => cs[0]
        case Element(t, a, kids) => Element(t, a, NormalizeInto([], kids));
      NormalizeInto(Push(acc, n), cs[1..])
  }

  function Normalize(cs: seq<Node>): seq<Node>
  {
    NormalizeInto([], cs)
  }

  /** `normalize()` on a child list, one child at a time, recursing into elements. */
  method NormalizeChildren(cs: seq<Node>) returns (r: seq<Node>)
    ensures r == Normalize(cs)
    decreases cs
  {
    r := [];
    var i := 0;
    while i < |cs|
      invariant i <= |cs|
      invariant NormalizeInto(r, cs[i..]) == Normalize(cs)
      decreases |cs| - i
    {
      assert cs[i..][0] == cs[i] && cs[i..][1..] == cs[i + 1..];
      match cs[i] {
      case Text(s) =>
        if s != "" {
          if r != [] && r[|r| - 1].Text? {
            r := r[..|r| - 1] + [Text(r[|r| - 1].data + s)];
          } else {
            r := r + [cs[i]];
          }
        }
      case Element(t, a, kids) =>
        var normalizedKids := NormalizeChildren(kids);
        r := r + [Element(t, a, normalizedKids)];
      }
      i := i + 1;
    }
  }

  /** What `normalize()` may do to elements: nothing. Markers are elements of a given kind. */
  predicate IsMarker(n: Node)
  {
    HasClass(n, "search-highlight") || HasClass(n, "search-highlight-current")
  }

  /** No search marker element at any depth. */
  predicate NoMarkers(cs: seq<Node>)
    decreases cs
  {
    forall i :: 0 <= i < |cs| && cs[i].Element? ==> !IsMarker(cs[i]) && NoMarkers(cs[i].children)
  }

  lemma {:induction false} PushNormalized(acc: seq<Node>, n: Node)
    requires Normalized(acc)
    requires n.Element? ==> Normalized(n.children)
    ensures Normalized(Push(acc, n))
  {
    var r := Push(acc, n);
    if n.Text? && n.data != "" && acc != [] && acc[|acc| - 1].Text? {
      forall i | 0 <= i < |r| && r[i].Element?
        ensures Normalized(r[i].children)
      {
        assert r[i] == acc[i];
      }
    } else if r != acc {
      forall i | 0 <= i < |r| && r[i].Element?
        ensures Normalized(r[i].children)
      {
        if i < |acc| {
          assert r[i] == acc[i];
        }
      }
    }
  }

  lemma {:induction false} PushText(acc: seq<Node>, n: Node)
    ensures TextOf(Push(acc, n)) == TextOf(acc) + TextContent(n)
  {
    if n.Text? && n.data != "" && acc != [] && acc[|acc| - 1].Text? {
      var init, last := acc[..|acc| - 1], acc[|acc| - 1];
      assert acc == init + [last];
      TextOfAppend(init, [last]);
      TextOfSingle(last);
      TextOfAppend(init, [Text(last.data + n.data)]);
      TextOfSingle(Text(last.data + n.data));
      assert TextOf(init) + (last.data + n.data) == (TextOf(init) + last.data) + n.data;
    } else if n.Text? && n.data == "" {
      assert TextOf(acc) + "" == TextOf(acc);
    } else {
      TextOfAppend(acc, [n]);
      TextOfSingle(n);
    }
  }

  lemma {:induction false} PushTags(acc: seq<Node>, n: Node)
    ensures ElementTags(Push(acc, n)) == ElementTags(acc) + NodeTags(n)
  {
    if n.Text? && n.data != "" && acc != [] && acc[|acc| - 1].Text? {
      var init, last := acc[..|acc| - 1], acc[|acc| - 1];
      assert acc == init + [last];
      ElementTagsAppend(init, [last]);
      ElementTagsSingle(last);
      ElementTagsAppend(init, [Text(last.data + n.data)]);
      ElementTagsSingle(Text(last.data + n.data));
    } else {
      ElementTagsAppend(acc, [n]);
      ElementTagsSingle(n);
    }
  }

  lemma {:induction false} PushNoMarkers(acc: seq<Node>, n: Node)
    requires NoMarkers(acc)
    requires n.Element? ==> !IsMarker(n) && NoMarkers(n.children)
    ensures NoMarkers(Push(acc, n))
  {
    var r := Push(acc, n);
    forall i | 0 <= i < |r| && r[i].Element?
      ensures !IsMarker(r[i]) && NoMarkers(r[i].children)
    {
      if i < |acc| {
        assert r[i] == acc[i];
      }
    }
  }

  /** The node `NormalizeInto` pushes for `n`: an element with its children normalised. */
  function NormalizedNode(n: Node): Node
  {
    match n
    case Text(_) => n
    case Element(t, a, kids) => Element(t, a, NormalizeInto([], kids))
  }

  lemma {:induction false} NormalizeIntoUnfold(acc: seq<Node>, cs: seq<Node>)
    requires cs != []
    ensures NormalizeInto(acc, cs) == NormalizeInto(Push(acc, NormalizedNode(cs[0])), cs[1..])
  {
  }

  /** Normalisation leaves no empty and no adjacent text nodes, at any depth. */
  lemma {:induction false} NormalizeIntoNormalizes(acc: seq<Node>, cs: seq<Node>)
    requires Normalized(acc)
    ensures Normalized(NormalizeInto(acc, cs))
    decreases cs
  {
    if cs != [] {
      NormalizeIntoUnfold(acc, cs);
      if cs[0].Element? {
        NormalizeIntoNormalizes([], cs[0].children);
      }
      PushNormalized(acc, NormalizedNode(cs[0]));
      NormalizeIntoNormalizes(Push(acc, NormalizedNode(cs[0])), cs[1..]);
    }
  }

  /** Normalisation keeps the text. */
  lemma {:induction false} NormalizeIntoText(acc: seq<Node>, cs: seq<Node>)
    ensures TextOf(NormalizeInto(acc, cs)) == TextOf(acc) + TextOf(cs)
    decreases cs
  {
    if cs != [] {
      var n := NormalizedNode(cs[0]);
      assert TextContent(n) == TextContent(cs[0]) by {
        if cs[0].Element? {
          NormalizeIntoText([], cs[0].children);
        }
      }
      NormalizeIntoUnfold(acc, cs);
      PushText(acc, n);
      NormalizeIntoText(Push(acc, n), cs[1..]);
      assert TextOf(cs) == TextContent(cs[0]) + TextOf(cs[1..]);
    }
  }

  /** Normalisation keeps every element: the same tags in the same order. */
  lemma {:induction false} NormalizeIntoTags(acc: seq<Node>, cs: seq<Node>)
    ensures ElementTags(NormalizeInto(acc, cs)) == ElementTags(acc) + ElementTags(cs)
    decreases cs
  {
    if cs != [] {
      var n := NormalizedNode(cs[0]);
      assert NodeTags(n) == NodeTags(cs[0]) by {
        if cs[0].Element? {
          NormalizeIntoTags([], cs[0].children);
        }
      }
      NormalizeIntoUnfold(acc, cs);
      PushTags(acc, n);
      NormalizeIntoTags(Push(acc, n), cs[1..]);
      assert ElementTags(cs) == NodeTags(cs[0]) + ElementTags(cs[1..]);
    }
  }

  /** Normalisation never introduces a search marker. */
  lemma {:induction false} NormalizeIntoNoMarkers(acc: seq<Node>, cs: seq<Node>)
    requires NoMarkers(acc) && NoMarkers(cs)
    ensures NoMarkers(NormalizeInto(acc, cs))
    decreases cs
  {
    if cs != [] {
      NormalizeIntoUnfold(acc, cs);
      if cs[0].Element? {
        NormalizeIntoNoMarkers([], cs[0].children);
      }
      PushNoMarkers(acc, NormalizedNode(cs[0]));
      assert NoMarkers(cs[1..]) by {
        forall i | 0 <= i < |cs[1..]| && cs[1..][i].Element?
          ensures !IsMarker(cs[1..][i]) && NoMarkers(cs[1..][i].children)
        {
          assert cs[1..][i] == cs[i + 1];
        }
      }
      NormalizeIntoNoMarkers(Push(acc, NormalizedNode(cs[0])), cs[1..]);
    }
  }

  /** An already normalised list is left exactly as it is. */
  lemma {:induction false} NormalizeIntoNormalized(acc: seq<Node>, cs: seq<Node>)
    requires Normalized(acc + cs)
    ensures NormalizeInto(acc, cs) == acc + cs
    decreases cs
  {
    if cs == [] {
      assert acc + cs == acc;
    } else {
      var all := acc + cs;
      assert all[|acc|] == cs[0];
      if cs[0].Element? {
        assert Normalized(all[|acc|].children);
        assert [] + cs[0].children == cs[0].children;
        NormalizeIntoNormalized([], cs[0].children);
      } else {
        assert cs[0].data != "";
        if acc != [] {
          assert all[|acc| - 1] == acc[|acc| - 1];
        }
      }
      assert (acc + [cs[0]]) + cs[1..] == all;
      NormalizeIntoNormalized(acc + [cs[0]], cs[1..]);
    }
  }

  lemma NormalizeIdempotent(cs: seq<Node>)
    ensures Normalize(Normalize(cs)) == Normalize(cs)
  {
    NormalizeIntoNormalizes([], cs);
    assert [] + Normalize(cs) == Normalize(cs);
    NormalizeIntoNormalized([], Normalize(cs));
  }

  // ---- Clearing search markers ----

  /** Each outermost marker replaced by a text node carrying the marker's text. */
  function ReplaceMarkers(cs: seq<Node>): seq<Node>
    decreases cs
  {
    if cs == [] then []
    else
      var n := match cs[0]
        case Text(_) => cs[0]
        case Element(t, a, kids) =>
          if IsMarker(cs[0]) then Text(TextOf(kids)) else Element(t, a, ReplaceMarkers(kids));
      [n] + ReplaceMarkers(cs[1..])
  }

  /** After the replacement no marker remains, and the text is what it was. */
  lemma {:induction false} ReplaceMarkersSpec(cs: seq<Node>)
    ensures NoMarkers(ReplaceMarkers(cs))
    ensures TextOf(ReplaceMarkers(cs)) == TextOf(cs)
    ensures NoMarkers(cs) ==> ReplaceMarkers(cs) == cs
    decreases cs
  {
    if cs != [] {
      var n := match cs[0]
        case Text(_) => cs[0]
        case Element(t, a, kids) =>
          if IsMarker(cs[0]) then Text(TextOf(kids)) else Element(t, a, ReplaceMarkers(kids));
      var rest := ReplaceMarkers(cs[1..]);
      ReplaceMarkersSpec(cs[1..]);
      if cs[0].Element? && !IsMarker(cs[0]) {
        ReplaceMarkersSpec(cs[0].children);
      }
      assert ReplaceMarkers(cs) == [n] + rest;
      forall i | 0 <= i < |[n] + rest| && ([n] + rest)[i].Element?
        ensures !IsMarker(([n] + rest)[i]) && NoMarkers(([n] + rest)[i].children)
      {
        if i > 0 {
          assert ([n] + rest)[i] == rest[i - 1];
        }
      }
      TextOfAppend([n], rest);
      TextOfSingle(n);
      assert cs == [cs[0]] + cs[1..];
      TextOfAppend([cs[0]], cs[1..]);
      TextOfSingle(cs[0]);
      if NoMarkers(cs) {
        assert NoMarkers(cs[1..]) by {
          forall i | 0 <= i < |cs[1..]| && cs[1..][i].Element?
            ensures !IsMarker(cs[1..][i]) && NoMarkers(cs[1..][i].children)
          {
            assert cs[1..][i] == cs[i + 1];
          }
        }
      }
    }
  }

  // ---- Attribute-less spans in pasted Word markup ----

  /** A span with no attribute, or with a single empty `style` attribute. */
  predicate IsPlainSpan(n: Node)
  {
    n.Element? && n.tag == "SPAN" &&
    (|n.attrs| == 0 || (|n.attrs| == 1 && GetAttribute(n.attrs, "style") == Some("")))
  }

  predicate NoPlainSpans(cs: seq<Node>)
    decreases cs
  {
    forall i :: 0 <= i < |cs| && cs[i].Element? ==> !IsPlainSpan(cs[i]) && NoPlainSpans(cs[i].children)
  }

  /**
   * The span pass of `cleanWordHTML`: every plain span, in document order, is unwrapped into
   * its parent (a nested plain span is moved out with its parent's children and then unwrapped
   * in turn).
   */
  function StripPlainSpans(cs: seq<Node>): seq<Node>
    decreases cs
  {
    if cs == [] then []
    else
      (match cs[0]
         case Text(_) => [cs[0]]
         case Element(t, a, kids) =>
           if IsPlainSpan(cs[0]) then StripPlainSpans(kids) else [Element(t, a, StripPlainSpans(kids))])
      + StripPlainSpans(cs[1..])
  }

  lemma {:induction false} NoPlainSpansAppend(a: seq<Node>, b: seq<Node>)
    requires NoPlainSpans(a) && NoPlainSpans(b)
    ensures NoPlainSpans(a + b)
  {
    forall i | 0 <= i < |a + b| && (a + b)[i].Element?
      ensures !IsPlainSpan((a + b)[i]) && NoPlainSpans((a + b)[i].children)
    {
      if i < |a| {
        assert (a + b)[i] == a[i];
      } else {
        assert (a + b)[i] == b[i - |a|];
      }
    }
  }

  /**
   * The pass leaves no plain span, keeps the text, and leaves markup without plain spans as it
   * is (so running it twice is the same as once).
   */
  lemma {:induction false} StripPlainSpansSpec(cs: seq<Node>)
    ensures NoPlainSpans(StripPlainSpans(cs))
    ensures TextOf(StripPlainSpans(cs)) == TextOf(cs)
    ensures NoPlainSpans(cs) ==> StripPlainSpans(cs) == cs
    decreases cs
  {
    if cs != [] {
      var head := match cs[0]
        case Text(_) => [cs[0]]
        case Element(t, a, kids) =>
          if IsPlainSpan(cs[0]) then StripPlainSpans(kids) else [Element(t, a, StripPlainSpans(kids))];
      var rest := StripPlainSpans(cs[1..]);
      assert StripPlainSpans(cs) == head + rest;
      StripPlainSpansSpec(cs[1..]);
      if cs[0].Element? {
        StripPlainSpansSpec(cs[0].children);
      }
      NoPlainSpansAppend(head, rest);
      TextOfAppend(head, rest);
      if cs[0].Text? || !IsPlainSpan(cs[0]) {
        TextOfSingle(head[0]);
        assert head == [head[0]];
      }
      assert cs == [cs[0]] + cs[1..];
      TextOfAppend([cs[0]], cs[1..]);
      TextOfSingle(cs[0]);
      if NoPlainSpans(cs) {
        assert NoPlainSpans(cs[1..]) by {
          forall i | 0 <= i < |cs[1..]| && cs[1..][i].Element?
            ensures !IsPlainSpan(cs[1..][i]) && NoPlainSpans(cs[1..][i].children)
          {
            assert cs[1..][i] == cs[i + 1];
          }
        }
      }
    }
  }

  /** The number of plain spans at any depth. */
  function PlainSpanCount(cs: seq<Node>): nat
    decreases cs
  {
    if cs == [] then 0
    else
      (match cs[0]
         case Text(_) => 0
         case Element(_, _, kids) => (if IsPlainSpan(cs[0]) then 1 else 0) + PlainSpanCount(kids))
      + PlainSpanCount(cs[1..])
  }

  /** `n` copies of the tag name of a span. */
  function Spans(n: nat): multiset<string>
  {
    multiset{}["SPAN" := n]
  }

  lemma SpansAdd(a: nat, b: nat)
    ensures Spans(a + b) == Spans(a) + Spans(b)
  {
  }

  /** What the span pass makes of one node at the top of a sibling list. */
  function StripHead(n: Node): seq<Node>
  {
    match n
    case Text(_) => [n]
    case Element(t, a, kids) =>
      if IsPlainSpan(n) then StripPlainSpans(kids) else [Element(t, a, StripPlainSpans(kids))]
  }

  /** The plain spans in one node and below it. */
  function HeadPlainSpanCount(n: Node): nat
  {
    match n
    case Text(_) => 0
    case Element(_, _, kids) => (if IsPlainSpan(n) then 1 else 0) + PlainSpanCount(kids)
  }

  lemma StripPlainSpansCons(cs: seq<Node>)
    requires cs != []
    ensures StripPlainSpans(cs) == StripHead(cs[0]) + StripPlainSpans(cs[1..])
    ensures PlainSpanCount(cs) == HeadPlainSpanCount(cs[0]) + PlainSpanCount(cs[1..])
    ensures ElementTags(cs) == NodeTags(cs[0]) + ElementTags(cs[1..])
  {
  }

  /**
   * The span pass removes exactly the plain spans: every other element is kept, and the
   * elements named SPAN are fewer by the number of plain spans.
   */
  lemma {:induction false} StripPlainSpansTags(cs: seq<Node>)
    ensures multiset(ElementTags(StripPlainSpans(cs))) + Spans(PlainSpanCount(cs)) == multiset(ElementTags(cs))
    decreases cs
  {
    if cs != [] {
      StripPlainSpansCons(cs);
      ElementTagsAppend(StripHead(cs[0]), StripPlainSpans(cs[1..]));
      StripPlainSpansTags(cs[1..]);
      StripHeadTags(cs[0]);
      SpansAdd(HeadPlainSpanCount(cs[0]), PlainSpanCount(cs[1..]));
    }
  }

  /** Tag by tag: non-span tags keep their count, SPAN loses one per plain span. */
  lemma StripPlainSpansTagCounts(cs: seq<Node>, tag: string)
    ensures tag != "SPAN" ==> multiset(ElementTags(StripPlainSpans(cs)))[tag] == multiset(ElementTags(cs))[tag]
    ensures multiset(ElementTags(StripPlainSpans(cs)))["SPAN"] + PlainSpanCount(cs) == multiset(ElementTags(cs))["SPAN"]
  {
    StripPlainSpansTags(cs);
  }

  /** The same for the part of the pass's output that comes from one node. */
  lemma {:induction false} StripHeadTags(n: Node)
    ensures multiset(ElementTags(StripHead(n))) + Spans(HeadPlainSpanCount(n)) == multiset(NodeTags(n))
    decreases n, 0
  {
    match n
    case Text(_) =>
      ElementTagsSingle(n);
    case Element(t, a, kids) =>
      StripPlainSpansTags(kids);
      if IsPlainSpan(n) {
        SpansAdd(1, PlainSpanCount(kids));
        assert Spans(1) == multiset{"SPAN"};
      } else {
        ElementTagsSingle(Element(t, a, StripPlainSpans(kids)));
      }
  }
}
