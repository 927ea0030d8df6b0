/**
 * The document tree of the editing surface, as values: text nodes and elements with their
 * attributes and ordered children. An element's `tag` is its `tagName` as the DOM reports it for
 * HTML elements (upper case: "P", "SPAN", "BLOCKQUOTE").
 *
 * A node inside the editor is addressed by a path of child indices starting from the editor's
 * own child list; the empty path stands for the editor element itself.
 */
module Dom {
  import opened Wrappers
  import opened Strings

  datatype Attr = Attr(name: string, value: string)

  datatype Node =
    | Text(data: string)
    | Element(tag: string, attrs: seq<Attr>, children: seq<Node>)

  /** The concatenated text of a child list: the `textContent` of the element that holds it. */
  function TextOf(cs: seq<Node>): string
    decreases cs
  {
    if cs == [] then ""
    else
      (match cs[0]
         case Text(s) => s
         case Element(_, _, kids) => TextOf(kids)) + TextOf(cs[1..])
  }

  function TextContent(n: Node): string
  {
    match n
    case Text(s) => s
    case Element(_, _, kids) => TextOf(kids)
  }

  lemma {:induction false} TextOfAppend(a: seq<Node>, b: seq<Node>)
    ensures TextOf(a + b) == TextOf(a) + TextOf(b)
    decreases |a|
  {
    if a == [] {
      assert a + b == b;
    } else {
      assert (a + b)[0] == a[0];
      assert (a + b)[1..] == a[1..] + b;
      TextOfAppend(a[1..], b);
    }
  }

  lemma TextOfSingle(n: Node)
    ensures TextOf([n]) == TextContent(n)
  {
    assert [n][1..] == [];
  }

  /** Replacing one child changes the text only where that child stood. */
  lemma TextOfUpdate(cs: seq<Node>, i: nat, x: Node)
    requires i < |cs|
    ensures TextOf(cs[i := x]) == TextOf(cs[..i]) + TextContent(x) + TextOf(cs[i + 1..])
    ensures TextOf(cs) == TextOf(cs[..i]) + TextContent(cs[i]) + TextOf(cs[i + 1..])
  {
    assert cs[i := x] == cs[..i] + [x] + cs[i + 1..];
    assert cs == cs[..i] + [cs[i]] + cs[i + 1..];
    TextOfAppend(cs[..i] + [x], cs[i + 1..]);
    TextOfAppend(cs[..i], [x]);
    TextOfAppend(cs[..i] + [cs[i]], cs[i + 1..]);
    TextOfAppend(cs[..i], [cs[i]]);
    TextOfSingle(x);
    TextOfSingle(cs[i]);
  }

  /** Tag names of all elements below a child list in document order: `querySelectorAll('*')`. */
  function ElementTags(cs: seq<Node>): seq<string>
    decreases cs
  {
    if cs == [] then []
    else
      (match cs[0]
         case Text(_) => []
         case Element(t, _, kids) => [t] + ElementTags(kids)) + ElementTags(cs[1..])
  }

  function NodeTags(n: Node): seq<string>
  {
    match n
    case Text(_) => []
    case Element(t, _, kids) => [t] + ElementTags(kids)
  }

  lemma {:induction false} ElementTagsAppend(a: seq<Node>, b: seq<Node>)
    ensures ElementTags(a + b) == ElementTags(a) + ElementTags(b)
    decreases |a|
  {
    if a == [] {
      assert a + b == b;
    } else {
      assert (a + b)[0] == a[0];
      assert (a + b)[1..] == a[1..] + b;
      ElementTagsAppend(a[1..], b);
    }
  }

  lemma ElementTagsSingle(n: Node)
    ensures ElementTags([n]) == NodeTags(n)
  {
    assert [n][1..] == [];
  }

  /** `element.getAttribute(name)`: the value of the first attribute with that name. */
  function GetAttribute(attrs: seq<Attr>, name: string): (r: Option<string>)
    ensures r.Some? <==> exists i :: 0 <= i < |attrs| && attrs[i].name == name
    ensures r.Some? ==> exists i :: 0 <= i < |attrs| && attrs[i] == Attr(name, r.value)
  {
    if attrs == [] then None
    else if attrs[0].name == name then Some(attrs[0].value)
    else
      var r := GetAttribute(attrs[1..], name);
      assert forall i :: 0 < i < |attrs| ==> attrs[i] == attrs[1..][i - 1];
      r
  }

  /** `element.classList.contains(c)`: `c` is one of the white-space separated class tokens. */
  predicate HasClass(n: Node, c: string)
  {
    n.Element? &&
    match GetAttribute(n.attrs, "class")
    case Some(v) => c in Runs(v, IsNotSpace)
    case None => false
  }

  type Path = seq<nat>

  function Parent(p: Path): Path
    requires p != []
  {
    p[..|p| - 1]
  }

  function Last(p: Path): nat
    requires p != []
  {
    p[|p| - 1]
  }

  /** `q` leads to a node that has children: the editor itself or an element. */
  predicate IsContainer(cs: seq<Node>, q: Path)
    decreases q
  {
    q == [] || (q[0] < |cs| && cs[q[0]].Element? && IsContainer(cs[q[0]].children, q[1..]))
  }

  /** The child list of the container at `q`. */
  function ChildrenAt(cs: seq<Node>, q: Path): seq<Node>
    requires IsContainer(cs, q)
    decreases q
  {
    if q == [] then cs else ChildrenAt(cs[q[0]].children, q[1..])
  }

  /** `p` leads to a node below the editor. */
  predicate ValidPath(cs: seq<Node>, p: Path)
  {
    p != [] && IsContainer(cs, Parent(p)) && Last(p) < |ChildrenAt(cs, Parent(p))|
  }

  function At(cs: seq<Node>, p: Path): Node
    requires ValidPath(cs, p)
  {
    ChildrenAt(cs, Parent(p))[Last(p)]
  }

  /** The child list at `q` replaced by `kids`, everything else as it was. */
  function WithChildrenAt(cs: seq<Node>, q: Path, kids: seq<Node>): seq<Node>
    requires IsContainer(cs, q)
    decreases q
  {
    if q == [] then kids
    else
      var e := cs[q[0]];
      cs[q[0] := Element(e.tag, e.attrs, WithChildrenAt(e.children, q[1..], kids))]
  }

  /** Extending a container path by one child index, read from the end. */
  lemma {:induction false} ContainerSnoc(cs: seq<Node>, q: Path, i: nat)
    ensures IsContainer(cs, q + [i]) <==>
              IsContainer(cs, q) && i < |ChildrenAt(cs, q)| && ChildrenAt(cs, q)[i].Element?
    ensures IsContainer(cs, q + [i]) ==> ChildrenAt(cs, q + [i]) == ChildrenAt(cs, q)[i].children
    decreases q
  {
    if q == [] {
      assert q + [i] == [i];
      assert [i][1..] == [];
    } else {
      assert (q + [i])[0] == q[0];
      assert (q + [i])[1..] == q[1..] + [i];
      if q[0] < |cs| && cs[q[0]].Element? {
        ContainerSnoc(cs[q[0]].children, q[1..], i);
      }
    }
  }

  /** An element reached by a valid path holds the child list found at that path. */
  lemma ElementIsContainer(cs: seq<Node>, p: Path)
    requires ValidPath(cs, p) && At(cs, p).Element?
    ensures IsContainer(cs, p) && ChildrenAt(cs, p) == At(cs, p).children
  {
    assert p == Parent(p) + [Last(p)];
    ContainerSnoc(cs, Parent(p), Last(p));
  }

  /** The parent of a node below the top level is itself an element below the editor. */
  lemma ParentIsElement(cs: seq<Node>, p: Path)
    requires ValidPath(cs, p) && |p| > 1
    ensures ValidPath(cs, Parent(p)) && At(cs, Parent(p)).Element?
  {
    var q := Parent(p);
    assert q == Parent(q) + [Last(q)];
    ContainerSnoc(cs, Parent(q), Last(q));
  }

  lemma {:induction false} ChildrenAtWith(cs: seq<Node>, q: Path, kids: seq<Node>)
    requires IsContainer(cs, q)
    ensures IsContainer(WithChildrenAt(cs, q, kids), q)
    ensures ChildrenAt(WithChildrenAt(cs, q, kids), q) == kids
    decreases q
  {
    if q != [] {
      ChildrenAtWith(cs[q[0]].children, q[1..], kids);
    }
  }

  /** Splicing in a child list with the same text leaves the text of the whole editor unchanged. */
  lemma {:induction false} TextOfWith(cs: seq<Node>, q: Path, kids: seq<Node>)
    requires IsContainer(cs, q)
    requires TextOf(kids) == TextOf(ChildrenAt(cs, q))
    ensures TextOf(WithChildrenAt(cs, q, kids)) == TextOf(cs)
    decreases q
  {
    if q != [] {
      var e := cs[q[0]];
      var inner := WithChildrenAt(e.children, q[1..], kids);
      TextOfWith(e.children, q[1..], kids);
      TextOfUpdate(cs, q[0], Element(e.tag, e.attrs, inner));
    }
  }

  /** Every tag after a splice is a tag of the old tree or of the spliced-in children. */
  lemma {:induction false} ElementTagsWith(cs: seq<Node>, q: Path, kids: seq<Node>)
    requires IsContainer(cs, q)
    ensures forall t :: t in ElementTags(WithChildrenAt(cs, q, kids)) ==>
              t in ElementTags(cs) || t in ElementTags(kids)
    decreases q
  {
    if q != [] {
      var e := cs[q[0]];
      var inner := WithChildrenAt(e.children, q[1..], kids);
      ElementTagsWith(e.children, q[1..], kids);
      var i := q[0];
      assert cs[i := Element(e.tag, e.attrs, inner)] == cs[..i] + [Element(e.tag, e.attrs, inner)] + cs[i + 1..];
      assert cs == cs[..i] + [e] + cs[i + 1..];
      ElementTagsAppend(cs[..i] + [Element(e.tag, e.attrs, inner)], cs[i + 1..]);
      ElementTagsAppend(cs[..i], [Element(e.tag, e.attrs, inner)]);
      ElementTagsAppend(cs[..i] + [e], cs[i + 1..]);
      ElementTagsAppend(cs[..i], [e]);
      ElementTagsSingle(Element(e.tag, e.attrs, inner));
      ElementTagsSingle(e);
    }
  }
}
