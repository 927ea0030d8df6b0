/**
 * The allowed-tag policy of the editor: the compliance check that decides whether the change
 * pipeline re-sanitises, which toolbar buttons and plugin buttons are shown, how the caller's
 * list is merged with the tags that plugins declare, and the list edits of the tag selector.
 */
module TagPolicy {
  import opened Wrappers
  import opened Strings
  import opened Dom

  /** Every element below the list has its lower-cased tag name in `allowed`. */
  predicate OnlyAllowedTags(doc: seq<Node>, allowed: seq<string>)
  {
    forall t :: t in ElementTags(doc) ==> ToLower(t) in allowed
  }

  /**
   * `containsOnlyAllowedTags` on the parsed markup: false when the list is missing or empty,
   * otherwise walks all elements in document order and fails at the first tag not listed.
   */
  method ContainsOnlyAllowedTags(doc: seq<Node>, allowedTags: Option<seq<string>>) returns (ok: bool)
    ensures ok <==> allowedTags.Some? && |allowedTags.value| > 0 && OnlyAllowedTags(doc, allowedTags.value)
  {
    if allowedTags.None? || |allowedTags.value| == 0 {
      return false;
    }
    var allowed := allowedTags.value;
    var allElements := ElementTags(doc);
    for i := 0 to |allElements|
      invariant forall j :: 0 <= j < i ==> ToLower(allElements[j]) in allowed
    {
      if ToLower(allElements[i]) !in allowed {
        return false;
      }
    }
    return true;
  }

  /** Text nodes never decide compliance: adding or removing one anywhere changes nothing. */
  lemma TextNeverFails(a: seq<Node>, s: string, b: seq<Node>, allowed: seq<string>)
    ensures OnlyAllowedTags(a + [Text(s)] + b, allowed) <==> OnlyAllowedTags(a + b, allowed)
  {
    ElementTagsAppend(a + [Text(s)], b);
    ElementTagsAppend(a, [Text(s)]);
    ElementTagsAppend(a, b);
    ElementTagsSingle(Text(s));
    assert ElementTags(a + [Text(s)] + b) == ElementTags(a + b);
  }

  /** A node addressed through the `i`-th child is that child's node at the rest of the path. */
  lemma {:induction false} PathThroughChild(cs: seq<Node>, i: nat, p: Path)
    requires i < |cs| && cs[i].Element? && ValidPath(cs[i].children, p)
    ensures ValidPath(cs, [i] + p) && At(cs, [i] + p) == At(cs[i].children, p)
  {
    assert Parent([i] + p) == [i] + Parent(p);
    assert Last([i] + p) == Last(p);
    assert ([i] + Parent(p))[1..] == Parent(p);
  }

  /** A path into the tail of a child list, shifted by one to address the whole list. */
  lemma {:induction false} PathShift(cs: seq<Node>, p: Path)
    requires cs != [] && ValidPath(cs[1..], p)
    ensures ValidPath(cs, [p[0] + 1] + p[1..]) && At(cs, [p[0] + 1] + p[1..]) == At(cs[1..], p)
  {
    var p' := [p[0] + 1] + p[1..];
    if |p| == 1 {
      assert Parent(p) == [] && Parent(p') == [];
    } else {
      assert Parent(p') == [p[0] + 1] + Parent(p)[1..];
      assert Parent(p)[0] == p[0];
      assert Parent(p')[1..] == Parent(p)[1..];
    }
  }

  /** Every element reachable by a path contributes its tag to `ElementTags`. */
  lemma {:induction false} TagAtPathListed(cs: seq<Node>, p: Path)
    requires ValidPath(cs, p) && At(cs, p).Element?
    ensures At(cs, p).tag in ElementTags(cs)
    decreases cs
  {
    assert cs == [cs[0]] + cs[1..];
    ElementTagsAppend([cs[0]], cs[1..]);
    ElementTagsSingle(cs[0]);
    if |p| == 1 {
      if p[0] == 0 {
        assert At(cs, p) == cs[0];
      } else {
        assert ValidPath(cs[1..], [p[0] - 1]) && At(cs[1..], [p[0] - 1]) == At(cs, p);
        TagAtPathListed(cs[1..], [p[0] - 1]);
      }
    } else {
      var i := p[0];
      assert p == [i] + p[1..];
      assert Parent(p) == [i] + Parent(p[1..]);
      assert Parent(p)[1..] == Parent(p[1..]);
      assert ValidPath(cs[i].children, p[1..]);
      PathThroughChild(cs, i, p[1..]);
      TagAtPathListed(cs[i].children, p[1..]);
      if i > 0 {
        var q := [i - 1] + p[1..];
        assert cs[1..][i - 1] == cs[i];
        PathThroughChild(cs[1..], i - 1, p[1..]);
        TagAtPathListed(cs[1..], q);
      }
    }
  }

  /** Every listed tag belongs to an element reachable by a path. */
  lemma {:induction false} ListedTagHasPath(cs: seq<Node>, t: string)
    requires t in ElementTags(cs)
    ensures exists p :: ValidPath(cs, p) && At(cs, p).Element? && At(cs, p).tag == t
    decreases cs
  {
    assert cs == [cs[0]] + cs[1..];
    ElementTagsAppend([cs[0]], cs[1..]);
    ElementTagsSingle(cs[0]);
    if t in NodeTags(cs[0]) {
      if t == cs[0].tag {
        assert ValidPath(cs, [0]) && At(cs, [0]) == cs[0];
      } else {
        ListedTagHasPath(cs[0].children, t);
        var p :| ValidPath(cs[0].children, p) && At(cs[0].children, p).Element? && At(cs[0].children, p).tag == t;
        PathThroughChild(cs, 0, p);
      }
    } else {
      ListedTagHasPath(cs[1..], t);
      var p :| ValidPath(cs[1..], p) && At(cs[1..], p).Element? && At(cs[1..], p).tag == t;
      PathShift(cs, p);
    }
  }

  /** The compliance predicate speaks of exactly the elements of the tree. */
  lemma OnlyAllowedTagsIff(doc: seq<Node>, allowed: seq<string>)
    ensures OnlyAllowedTags(doc, allowed) <==>
              forall p :: ValidPath(doc, p) && At(doc, p).Element? ==> ToLower(At(doc, p).tag) in allowed
  {
    forall p | ValidPath(doc, p) && At(doc, p).Element? {
      TagAtPathListed(doc, p);
    }
    forall t | t in ElementTags(doc) {
      ListedTagHasPath(doc, t);
    }
  }

  // ---- Toolbar buttons ----

  /** Commands whose button produces a structural tag. */
  const ButtonTagMap: map<string, string> := map[
    "bold" := "strong", "italic" := "em", "underline" := "u", "strikeThrough" := "s",
    "superscript" := "sup", "subscript" := "sub", "formatBlock" := "blockquote",
    "createLink" := "a", "insertImage" := "img", "insertTableGrid" := "table",
    "insertUnorderedList" := "ul", "insertOrderedList" := "ol"]

  /** Commands gated by a pseudo-tag that names a non-markup action. */
  const ButtonActionMap: map<string, string> := map[
    "cut" := "cut", "copy" := "copy", "paste" := "paste", "removeText" := "remove",
    "textColor" := "text-color", "highlight" := "highlight-color", "insertEmoji" := "emoji",
    "selectAll" := "select", "toUpperCase" := "uppercase", "toLowerCase" := "lowercase",
    "justifyLeft" := "align-left", "justifyCenter" := "align-center",
    "justifyRight" := "align-right", "unlink" := "remove-link", "insertHorizontalRule" := "hr"]

  /**
   * The names every object literal inherits from `Object.prototype`. Looking one of them up in
   * the action map yields a function or an object, which is truthy and never in the list.
   */
  const PrototypeKeys: set<string> := {
    "constructor", "hasOwnProperty", "isPrototypeOf", "propertyIsEnumerable", "toString",
    "toLocaleString", "valueOf", "__proto__", "__defineGetter__", "__defineSetter__",
    "__lookupGetter__", "__lookupSetter__"}

  /**
   * `shouldShowButton`: the action map is consulted first, then the tag map; an inherited name
   * found in the action map hides the button.
   */
  function ShouldShowButton(cmd: string, allowedTags: seq<string>): (shown: bool)
  {
    if cmd in ButtonActionMap then ButtonActionMap[cmd] in allowedTags
    else if cmd in PrototypeKeys then false
    else cmd !in ButtonTagMap || ButtonTagMap[cmd] in allowedTags
  }

  /**
   * The cases of a button's visibility: an action command is shown iff its pseudo-tag is
   * allowed, a tag command iff its tag is allowed (no command is in both maps), a name inherited
   * from `Object.prototype` never, and any other command always.
   */
  lemma ShouldShowButtonCases(cmd: string, allowedTags: seq<string>)
    ensures cmd in ButtonActionMap ==> (ShouldShowButton(cmd, allowedTags) <==> ButtonActionMap[cmd] in allowedTags)
    ensures cmd in ButtonTagMap ==> (ShouldShowButton(cmd, allowedTags) <==> ButtonTagMap[cmd] in allowedTags)
    ensures cmd in PrototypeKeys ==> !ShouldShowButton(cmd, allowedTags)
    ensures cmd !in ButtonActionMap && cmd !in ButtonTagMap && cmd !in PrototypeKeys ==> ShouldShowButton(cmd, allowedTags)
  {
    if cmd in ButtonTagMap {
      TagCommandsOwn(cmd);
    }
  }

  /** A tag command is neither an action command nor an inherited name. */
  lemma TagCommandsOwn(cmd: string)
    requires cmd in ButtonTagMap
    ensures cmd !in ButtonActionMap && cmd !in PrototypeKeys
  {
  }

  /** With an empty list ("select none") exactly the unmapped commands remain visible. */
  lemma EmptyListShowsOnlyUnmapped(cmd: string)
    ensures ShouldShowButton(cmd, []) <==> cmd !in ButtonActionMap && cmd !in ButtonTagMap && cmd !in PrototypeKeys
  {
  }

  /** The commands of the toolbar, in toolbar order. */
  const ToolbarCommands: seq<string> := [
    "undo", "redo", "formatBlock", "bold", "italic", "underline", "strikeThrough",
    "superscript", "subscript", "toUpperCase", "toLowerCase", "justifyLeft", "justifyCenter",
    "justifyRight", "formatBlock", "toggleHTML", "createLink", "unlink", "insertImage",
    "insertTableGrid", "insertEmoji", "insertHorizontalRule", "textColor", "highlight", "cut",
    "copy", "paste", "removeText", "selectAll", "search"]

  // ---- Plugins and the allow-list merge ----

  /**
   * A plugin descriptor, reduced to the one field the policy reads: its tag, `""` when the
   * descriptor has none (both are falsy in JavaScript).
   */
  datatype Plugin = Plugin(tag: string)

  /** `shouldShowPlugin`: a plugin with a tag is shown iff that tag is allowed. */
  function ShouldShowPlugin(plugin: Plugin, allowedTags: seq<string>): (shown: bool)
    ensures shown <==> plugin.tag == "" || plugin.tag in allowedTags
  {
    if plugin.tag != "" then plugin.tag in allowedTags else true
  }

  /** `getPluginTags`: the non-empty tags of the plugins, in plugin order. */
  function PluginTags(plugins: seq<Plugin>): (tags: seq<string>)
    ensures |tags| <= |plugins|
    ensures forall t :: t in tags <==> t != "" && exists i :: 0 <= i < |plugins| && plugins[i].tag == t
  {
    if plugins == [] then []
    else
      var rest := PluginTags(plugins[1..]);
      assert forall i :: 0 < i < |plugins| ==> plugins[i] == plugins[1..][i - 1];
      (if plugins[0].tag != "" then [plugins[0].tag] else []) + rest
  }

  predicate NoDuplicates(s: seq<string>)
  {
    forall i, j :: 0 <= i < j < |s| ==> s[i] != s[j]
  }

  /** Index of the first occurrence of `x` in `s`. */
  function FirstIndex(s: seq<string>, x: string): (k: nat)
    requires x in s
    ensures k < |s| && s[k] == x && x !in s[..k]
  {
    if s[0] == x then 0 else 1 + FirstIndex(s[1..], x)
  }

  /** The first occurrence is the only index holding `x` with no earlier `x`. */
  lemma {:induction false} FirstIndexUnique(s: seq<string>, x: string, k: nat)
    requires k < |s| && s[k] == x && x !in s[..k]
    ensures FirstIndex(s, x) == k
  {
    if k > 0 {
      assert s[0] in s[..k];
      assert s[1..][..k - 1] == s[..k][1..];
      FirstIndexUnique(s[1..], x, k - 1);
    }
  }

  lemma FirstIndexInPrefix(s: seq<string>, m: nat, x: string)
    requires m <= |s| && x in s[..m]
    ensures FirstIndex(s, x) == FirstIndex(s[..m], x)
  {
    var k := FirstIndex(s[..m], x);
    assert s[..m][..k] == s[..k];
    FirstIndexUnique(s, x, k);
  }

  /**
   * `[...new Set(s)]`: a Set iterates in insertion order, so each value is kept at its first
   * occurrence. The result has no duplicates, holds exactly the values of `s`, and lists them in
   * the order of their first occurrence in `s`.
   */
  function Dedup(s: seq<string>): (r: seq<string>)
    ensures NoDuplicates(r)
    ensures forall x :: x in r <==> x in s
    ensures forall i, j :: 0 <= i < j < |r| ==> FirstIndex(s, r[i]) < FirstIndex(s, r[j])
    decreases |s|
  {
    if s == [] then []
    else
      var init := s[..|s| - 1];
      var x := s[|s| - 1];
      var d := Dedup(init);
      assert s == init + [x];
      forall y | y in d
        ensures FirstIndex(s, y) == FirstIndex(init, y) < |init|
      {
        FirstIndexInPrefix(s, |init|, y);
      }
      if x in d then d
      else
        assert FirstIndex(s, x) == |init|;
        d + [x]
  }

  /**
   * The allow-list merge `[...new Set([...propAllowedTags, ...pluginTags])]`: duplicate-free,
   * every caller tag and every plugin tag and nothing else, in first-occurrence order.
   */
  function MergeTags(callerTags: seq<string>, pluginTags: seq<string>): (merged: seq<string>)
  {
    Dedup(callerTags + pluginTags)
  }

  lemma MergeTagsSpec(callerTags: seq<string>, pluginTags: seq<string>)
    ensures NoDuplicates(MergeTags(callerTags, pluginTags))
    ensures forall t :: t in MergeTags(callerTags, pluginTags) <==> t in callerTags || t in pluginTags
    ensures forall i, j :: 0 <= i < j < |MergeTags(callerTags, pluginTags)| ==>
              FirstIndex(callerTags + pluginTags, MergeTags(callerTags, pluginTags)[i]) <
              FirstIndex(callerTags + pluginTags, MergeTags(callerTags, pluginTags)[j])
  {
  }

  /** The tags offered by the tag selector, which are also the default allow-list. */
  const BuiltInTags: seq<string> := [
    "p", "h1", "h2", "h3", "h4", "h5", "h6", "strong", "em", "u", "s",
    "sup", "sub", "blockquote", "pre", "code", "ul", "ol", "li",
    "a", "img", "table", "thead", "tbody", "tr", "th", "td",
    "br", "hr", "span", "div",
    "cut", "copy", "paste", "remove", "text-color", "highlight-color", "emoji", "select",
    "uppercase", "lowercase", "align-left", "align-center", "align-right", "remove-link"]

  /** `allTags` of the tag selector. */
  function AllTags(plugins: seq<Plugin>): seq<string>
  {
    BuiltInTags + PluginTags(plugins)
  }

  /**
   * The allow-list the editor starts from: the caller's list merged with the plugin tags when
   * the caller gives one (an empty array is truthy, so it counts), the defaults otherwise.
   */
  function InitialAllowedTags(callerTags: Option<seq<string>>, plugins: seq<Plugin>): seq<string>
  {
    if callerTags.Some? then MergeTags(callerTags.value, PluginTags(plugins))
    else BuiltInTags + PluginTags(plugins)
  }

  /** Plugin tags can never be missing from the initial allow-list: every plugin is shown. */
  lemma PluginsShownInitially(callerTags: Option<seq<string>>, plugins: seq<Plugin>)
    ensures forall i :: 0 <= i < |plugins| ==> ShouldShowPlugin(plugins[i], InitialAllowedTags(callerTags, plugins))
  {
    forall i | 0 <= i < |plugins|
      ensures ShouldShowPlugin(plugins[i], InitialAllowedTags(callerTags, plugins))
    {
      if plugins[i].tag != "" {
        assert plugins[i].tag in PluginTags(plugins);
        if callerTags.Some? {
          MergeTagsSpec(callerTags.value, PluginTags(plugins));
        }
      }
    }
  }

  /** With the default allow-list every toolbar button is shown. */
  lemma DefaultsShowEveryButton(plugins: seq<Plugin>)
    ensures forall i :: 0 <= i < |ToolbarCommands| ==> ShouldShowButton(ToolbarCommands[i], InitialAllowedTags(None, plugins))
  {
    var allowed := InitialAllowedTags(None, plugins);
    assert forall t :: t in BuiltInTags ==> t in allowed;
    forall i | 0 <= i < |ToolbarCommands|
      ensures ShouldShowButton(ToolbarCommands[i], allowed)
    {
      var cmd := ToolbarCommands[i];
      if cmd in ButtonActionMap {
        assert ButtonActionMap[cmd] in ButtonActionMap.Values;
        assert ButtonActionMap.Values <= set t | t in BuiltInTags + ["hr"];
      }
    }
  }

  // ---- Tag selector list edits ----

  /** The elements of `s` that satisfy `keep`, in order (`Array.prototype.filter`). */
  function FilterTags(s: seq<string>, keep: string -> bool): (r: seq<string>)
    ensures |r| <= |s|
    ensures forall t :: t in r <==> t in s && keep(t)
  {
    if s == [] then []
    else
      assert forall t :: t in s <==> t == s[0] || t in s[1..];
      (if keep(s[0]) then [s[0]] else []) + FilterTags(s[1..], keep)
  }

  /** `toggleTag`: removes every copy of a listed tag, appends an unlisted one. */
  function ToggleTag(allowedTags: seq<string>, tag: string): (r: seq<string>)
    ensures tag in r <==> tag !in allowedTags
    ensures forall t :: t != tag ==> (t in r <==> t in allowedTags)
  {
    if tag in allowedTags then FilterTags(allowedTags, t => t != tag) else allowedTags + [tag]
  }

  lemma {:induction false} FilterKeepsAll(s: seq<string>, keep: string -> bool)
    requires forall t :: t in s ==> keep(t)
    ensures FilterTags(s, keep) == s
  {
    if s != [] {
      assert forall t :: t in s[1..] ==> t in s;
      FilterKeepsAll(s[1..], keep);
      assert s == [s[0]] + s[1..];
    }
  }

  /**
   * Toggling a tag twice restores the allow-list as a set; when the tag was not listed it
   * restores the list exactly.
   */
  lemma ToggleTwice(allowedTags: seq<string>, tag: string)
    ensures forall t :: t in ToggleTag(ToggleTag(allowedTags, tag), tag) <==> t in allowedTags
    ensures tag !in allowedTags ==> ToggleTag(ToggleTag(allowedTags, tag), tag) == allowedTags
  {
    if tag !in allowedTags {
      var once := allowedTags + [tag];
      assert once == allowedTags + [tag];
      FilterKeepsAll(allowedTags, t => t != tag);
      assert FilterTags(once, t => t != tag) == FilterTags(allowedTags, t => t != tag) by {
        FilterAppend(allowedTags, [tag], t => t != tag);
        assert FilterTags([tag], t => t != tag) == [];
      }
    }
  }

  lemma {:induction false} FilterAppend(a: seq<string>, b: seq<string>, keep: string -> bool)
    ensures FilterTags(a + b, keep) == FilterTags(a, keep) + FilterTags(b, keep)
  {
    if a == [] {
      assert a + b == b;
    } else {
      assert (a + b)[0] == a[0] && (a + b)[1..] == a[1..] + b;
      FilterAppend(a[1..], b, keep);
    }
  }

  /** `selectAll`: a copy of every offered tag. */
  function SelectAll(allTags: seq<string>): (r: seq<string>)
    ensures forall t :: t in r <==> t in allTags
  {
    allTags
  }

  /** `selectNone`: nothing allowed. */
  function SelectNone(): (r: seq<string>)
    ensures forall t :: t !in r
  {
    []
  }

  /**
   * `getFilteredTags`: "selected" keeps the allowed tags, "deselected" the others, any other
   * mode keeps everything; all in the selector's own order.
   */
  function FilteredTags(filterMode: string, allTags: seq<string>, allowedTags: seq<string>): (r: seq<string>)
  {
    if filterMode == "selected" then FilterTags(allTags, t => t in allowedTags)
    else if filterMode == "deselected" then FilterTags(allTags, t => t !in allowedTags)
    else allTags
  }

  /** The "selected" and "deselected" views split the offered tags between them. */
  lemma {:induction false} FilteredTagsPartition(allTags: seq<string>, allowedTags: seq<string>)
    ensures |FilteredTags("selected", allTags, allowedTags)| + |FilteredTags("deselected", allTags, allowedTags)| == |allTags|
    ensures forall t :: t in FilteredTags("selected", allTags, allowedTags) <==> t in allTags && t in allowedTags
    ensures forall t :: t in FilteredTags("deselected", allTags, allowedTags) <==> t in allTags && t !in allowedTags
  {
    if allTags != [] {
      FilteredTagsPartition(allTags[1..], allowedTags);
    }
  }
}
