/**
 * The editor surface: the child list of the content-editable element, edited in place by the
 * blockquote toggle, the removal branch of the formatting toggle, the Enter key and the clearing
 * of search markers. Selection positions (the range's common ancestor, its start container, the
 * focus node) are given as paths.
 */
module Editing {
  import opened Wrappers
  import opened Strings
  import opened Dom
  import opened TagPolicy
  import opened TreeEdits

  /** The tree after the element at `p` has been unwrapped into its parent. */
  function UnwrapAt(cs: seq<Node>, p: Path): seq<Node>
    requires ValidPath(cs, p) && At(cs, p).Element?
  {
    WithChildrenAt(cs, Parent(p), Unwrapped(ChildrenAt(cs, Parent(p)), Last(p)))
  }

  /** Every element inside a container is an element of the whole tree. */
  lemma {:induction false} ElementTagsBelow(cs: seq<Node>, q: Path)
    requires IsContainer(cs, q)
    ensures forall t :: t in ElementTags(ChildrenAt(cs, q)) ==> t in ElementTags(cs)
    decreases q
  {
    if q != [] {
      var i := q[0];
      ElementTagsBelow(cs[i].children, q[1..]);
      assert cs == cs[..i] + [cs[i]] + cs[i + 1..];
      ElementTagsAppend(cs[..i] + [cs[i]], cs[i + 1..]);
      ElementTagsAppend(cs[..i], [cs[i]]);
      ElementTagsSingle(cs[i]);
    }
  }

  /**
   * Unwrapping a wrapper anywhere in the tree: its parent's children become the wrapper's
   * children in their order at the wrapper's place, with the other siblings untouched; the text
   * of the editor is unchanged; and a tree that met the allow-list still does.
   */
  lemma UnwrapAtSpec(cs: seq<Node>, p: Path, allowed: seq<string>)
    requires ValidPath(cs, p) && At(cs, p).Element?
    ensures IsContainer(UnwrapAt(cs, p), Parent(p))
    ensures ChildrenAt(UnwrapAt(cs, p), Parent(p))
            == ChildrenAt(cs, Parent(p))[..Last(p)] + At(cs, p).children + ChildrenAt(cs, Parent(p))[Last(p) + 1..]
    ensures TextOf(UnwrapAt(cs, p)) == TextOf(cs)
    ensures OnlyAllowedTags(cs, allowed) ==> OnlyAllowedTags(UnwrapAt(cs, p), allowed)
  {
    var q, k := Parent(p), Last(p);
    var kids := ChildrenAt(cs, q);
    ChildrenAtWith(cs, q, Unwrapped(kids, k));
    UnwrappedText(kids, k);
    TextOfWith(cs, q, Unwrapped(kids, k));
    if OnlyAllowedTags(cs, allowed) {
      ElementTagsWith(cs, q, Unwrapped(kids, k));
      ElementTagsBelow(cs, q);
      UnwrappedTags(kids, k);
      forall t | t in ElementTags(UnwrapAt(cs, p))
        ensures ToLower(t) in allowed
      {
        if t in ElementTags(Unwrapped(kids, k)) {
          assert t in multiset(ElementTags(kids));
        }
      }
    }
  }

  /** A text node is read as its parent element (`nodeType === 3 ? parentNode : node`). */
  function ElementOf(cs: seq<Node>, p: Path): (e: Path)
    requires p == [] || ValidPath(cs, p)
    ensures e == [] || ValidPath(cs, e)
    ensures e != [] ==> At(cs, e).Element?
  {
    if p == [] then []
    else if At(cs, p).Element? then p
    else if |p| == 1 then []
    else ParentIsElement(cs, p); Parent(p)
  }

  /** The parent of the node at `p` is an element (not the editor) with tag `tag`. */
  predicate ParentHasTag(cs: seq<Node>, p: Path, tag: string): (b: bool)
    requires p == [] || ValidPath(cs, p)
    ensures b ==> |p| > 1 && ValidPath(cs, Parent(p)) && At(cs, Parent(p)).Element?
  {
    |p| > 1 && (ParentIsElement(cs, p); At(cs, Parent(p)).tag == tag)
  }

  /** The paragraph the Enter key inserts: `<p><br></p>`. */
  const NewParagraph: Node := Element("P", [], [Element("BR", [], [])])

  /** The tree after the Enter key: a new paragraph right after `block`, or at the end of the editor. */
  function InsertParagraphAfter(cs: seq<Node>, block: Path): seq<Node>
    requires block == [] || ValidPath(cs, block)
  {
    if block == [] then cs + [NewParagraph]
    else
      var kids := ChildrenAt(cs, Parent(block));
      WithChildrenAt(cs, Parent(block), kids[..Last(block) + 1] + [NewParagraph] + kids[Last(block) + 1..])
  }

  /** The place of the new paragraph: the sibling after `block`, or the last child of the editor. */
  function NewParagraphPath(cs: seq<Node>, block: Path): Path
    requires block == [] || ValidPath(cs, block)
  {
    if block == [] then [|cs|] else Parent(block) + [Last(block) + 1]
  }

  /**
   * The new paragraph sits right after the block (or at the end of the editor), every other
   * child of that container keeps its order, and the text of the editor is unchanged.
   */
  lemma InsertParagraphSpec(cs: seq<Node>, block: Path)
    requires block == [] || ValidPath(cs, block)
    ensures ValidPath(InsertParagraphAfter(cs, block), NewParagraphPath(cs, block))
    ensures At(InsertParagraphAfter(cs, block), NewParagraphPath(cs, block)) == NewParagraph
    ensures TextOf(InsertParagraphAfter(cs, block)) == TextOf(cs)
    ensures block == [] ==> InsertParagraphAfter(cs, block) == cs + [NewParagraph]
    ensures block != [] ==> IsContainer(InsertParagraphAfter(cs, block), Parent(block))
    ensures block != [] ==>
      ChildrenAt(InsertParagraphAfter(cs, block), Parent(block))
        == ChildrenAt(cs, Parent(block))[..Last(block) + 1] + [NewParagraph] + ChildrenAt(cs, Parent(block))[Last(block) + 1..]
  {
    var r := InsertParagraphAfter(cs, block);
    var path := NewParagraphPath(cs, block);
    assert TextContent(NewParagraph) == "" by {
      assert [Element("BR", [], [])][1..] == [];
    }
    if block == [] {
      assert Parent(path) == [] && Last(path) == |cs|;
      TextOfAppend(cs, [NewParagraph]);
      TextOfSingle(NewParagraph);
    } else {
      var q, i := Parent(block), Last(block);
      var kids := ChildrenAt(cs, q);
      var newKids := kids[..i + 1] + [NewParagraph] + kids[i + 1..];
      ChildrenAtWith(cs, q, newKids);
      assert Parent(path) == q && Last(path) == i + 1;
      assert kids == kids[..i + 1] + kids[i + 1..];
      TextOfAppend(kids[..i + 1] + [NewParagraph], kids[i + 1..]);
      TextOfAppend(kids[..i + 1], [NewParagraph]);
      TextOfAppend(kids[..i + 1], kids[i + 1..]);
      TextOfSingle(NewParagraph);
      TextOfWith(cs, q, newKids);
    }
  }

  /** What clearing the search markers leaves: the tree unchanged when there is no marker. */
  function Cleared(cs: seq<Node>): seq<Node>
  {
    if NoMarkers(cs) then cs else Normalize(ReplaceMarkers(cs))
  }

  /**
   * After clearing, no marker is left and the editor's text is what it was; when there were
   * markers, the tree is also normalised (no empty and no adjacent text nodes).
   */
  lemma ClearedSpec(cs: seq<Node>)
    ensures NoMarkers(Cleared(cs))
    ensures TextOf(Cleared(cs)) == TextOf(cs)
    ensures !NoMarkers(cs) ==> Normalized(Cleared(cs))
  {
    if !NoMarkers(cs) {
      var r := ReplaceMarkers(cs);
      ReplaceMarkersSpec(cs);
      NormalizeIntoNormalizes([], r);
      NormalizeIntoText([], r);
      NormalizeIntoNoMarkers([], r);
    }
  }

  /** The tag names of the formatting toggle: bold, italic, underline and strike-through. */
  const FormattingTags: set<string> := {"STRONG", "EM", "U", "S"}

  class Surface {
    /** The children of the editor element. */
    var content: seq<Node>

    constructor(initial: seq<Node>)
      ensures content == initial
    {
      content := initial;
    }

    /**
     * The removal branch of the blockquote toggle: the nearest blockquote around the
     * selection's common ancestor is unwrapped into its parent. Returns false, changing
     * nothing, when there is none (the branch that creates a blockquote).
     */
    method UnwrapEnclosingBlockquote(common: Path) returns (unwrapped: bool)
      requires common == [] || ValidPath(content, common)
      modifies this
      ensures var bq := NearestAncestor(old(content), ElementOf(old(content), common), {"BLOCKQUOTE"});
        && unwrapped == (bq != [])
        && (bq != [] ==> Tagged(old(content), bq, {"BLOCKQUOTE"}) && content == UnwrapAt(old(content), bq))
        && (bq == [] ==> content == old(content))
    {
      var start := ElementOf(content, common);
      var bq := WalkUp(content, start, {"BLOCKQUOTE"});
      NearestAncestorSpec(content, start, {"BLOCKQUOTE"});
      unwrapped := bq != [];
      if unwrapped {
        var q := Parent(bq);
        var newKids := UnwrapChild(ChildrenAt(content, q), Last(bq));
        content := WithChildrenAt(content, q, newKids);
      }
    }

    /**
     * The removal branch of the formatting toggle for a non-empty selection within one block:
     * when an element with `tagName` lies on the way from the common ancestor up to the editor,
     * the focus node's parent is unwrapped, but only when that parent itself has `tagName`.
     */
    method RemoveFormatting(common: Path, focus: Path, tagName: string) returns (removed: bool)
      requires tagName in FormattingTags
      requires common == [] || ValidPath(content, common)
      requires focus == [] || ValidPath(content, focus)
      modifies this
      ensures var formatted := NearestAncestor(old(content), ElementOf(old(content), common), {tagName}) != [];
        && removed == (formatted && ParentHasTag(old(content), focus, tagName))
        && (removed ==> content == UnwrapAt(old(content), Parent(focus)))
        && (!removed ==> content == old(content))
    {
      var start := ElementOf(content, common);
      var found := WalkUp(content, start, {tagName});
      removed := false;
      if found != [] && |focus| > 1 {
        ParentIsElement(content, focus);
        var wrapper := Parent(focus);
        if At(content, wrapper).tag == tagName {
          var q := Parent(wrapper);
          var newKids := UnwrapChild(ChildrenAt(content, q), Last(wrapper));
          content := WithChildrenAt(content, q, newKids);
          removed := true;
        }
      }
    }

    /**
     * The Enter key: inside a list item the browser's own handling is left alone (returns false,
     * nothing changes); otherwise `<p><br></p>` goes right after the nearest P or DIV around the
     * range's start container, or at the end of the editor when there is none.
     */
    method EnterKey(common: Path, start: Path) returns (handled: bool)
      requires common == [] || ValidPath(content, common)
      requires start == [] || ValidPath(content, start)
      modifies this
      ensures handled == (NearestAncestor(old(content), ElementOf(old(content), common), {"LI"}) == [])
      ensures handled ==> content == InsertParagraphAfter(old(content), NearestAncestor(old(content), start, {"P", "DIV"}))
      ensures !handled ==> content == old(content)
    {
      var element := ElementOf(content, common);
      var listItem := WalkUp(content, element, {"LI"});
      if listItem != [] {
        return false;
      }
      handled := true;
      var block := WalkUp(content, start, {"P", "DIV"});
      NearestAncestorSpec(content, start, {"P", "DIV"});
      if block != [] {
        var q := Parent(block);
        var kids := ChildrenAt(content, q);
        content := WithChildrenAt(content, q, kids[..Last(block) + 1] + [NewParagraph] + kids[Last(block) + 1..]);
      } else {
        content := content + [NewParagraph];
      }
    }

    /**
     * `clearHighlights`: when there are markers, each one is replaced by a text node with its
     * text and the editor is normalised; otherwise nothing happens.
     */
    method ClearHighlights() returns (cleared: bool)
      modifies this
      ensures cleared == !NoMarkers(old(content))
      ensures content == Cleared(old(content))
    {
      if NoMarkers(content) {
        return false;
      }
      cleared := true;
      var replaced := ReplaceMarkers(content);
      content := NormalizeChildren(replaced);
    }
  }
}
