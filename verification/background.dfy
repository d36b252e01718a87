/**
 * The background script: the context menu it derives from the stored url
 * list, the condition under which it rebuilds that menu, and how it routes a
 * menu click to an action.
 */
module Background {
  import opened Wrappers
  import opened Store
  import Text
  import Uri

  const ParentId: string := "customSearchParent"
  const ParentTitle: string := "Custom Search"
  const SeparatorId: string := "separator"
  const ManageId: string := "manage"
  const ManageTitle: string := "Manage Custom Searches"

  /** The selection placeholder in a search url. */
  const Placeholder: string := "%s"

  /** One `chrome.contextMenus.create` request (all of them use the `selection` context). */
  datatype Node =
    | Item(id: string, title: string, parent: Option<string>)
    | Separator(id: string, parent: Option<string>)

  const Root: Node := Item(ParentId, ParentTitle, None)
  const SeparatorNode: Node := Separator(SeparatorId, Some(ParentId))
  const ManageItem: Node := Item(ManageId, ManageTitle, Some(ParentId))

  /** The leaf created for one saved search. */
  function EntryItem(e: UrlEntry): Node {
    Item(e.id, e.name, Some(ParentId))
  }

  // ---------------------------------------------------------------------------
  // Menu projection
  // ---------------------------------------------------------------------------

  /**
   * The children `loadMenuItems` creates under the parent, in creation order:
   * one leaf per saved search, a separator when there is at least one, then
   * the manage item.
   */
  function BuildMenu(urls: seq<UrlEntry>): (r: seq<Node>)
    ensures |r| == |urls| + (if |urls| > 0 then 1 else 0) + 1
    ensures forall i :: 0 <= i < |urls| ==> r[i] == Item(urls[i].id, urls[i].name, Some(ParentId))
    ensures (exists k :: 0 <= k < |r| && r[k].Separator?) <==> |urls| > 0
    ensures |urls| > 0 ==> r[|urls|] == SeparatorNode
    ensures r[|r| - 1] == ManageItem
    ensures forall k :: 0 <= k < |r| ==> r[k].parent == Some(ParentId)
  {
    var leaves := seq(|urls|, i requires 0 <= i < |urls| => EntryItem(urls[i]));
    var r := leaves + (if |urls| > 0 then [SeparatorNode] else []) + [ManageItem];
    assert forall k :: 0 <= k < |urls| ==> r[k] == leaves[k];
    assert |urls| > 0 ==> r[|urls|].Separator?;
    assert |urls| == 0 ==> forall k :: 0 <= k < |r| ==> r[k] == ManageItem;
    r
  }

  /** The whole tree: the parent item, then its children. */
  function InstallMenu(urls: seq<UrlEntry>): (r: seq<Node>)
    ensures |r| >= 2 && r[0] == Root && r[1..] == BuildMenu(urls)
  {
    [Root] + BuildMenu(urls)
  }

  /**
   * The storage listener: on a change in the `sync` area that touches `urls`
   * it removes the parent (and with it every child) and creates the tree
   * again from the freshly read url list; any other change leaves the menu
   * alone.
   */
  function OnStorageChanged(namespace: string, changedKeys: set<string>, stored: seq<UrlEntry>): (r: Option<seq<Node>>)
    ensures r.Some? <==> namespace == "sync" && "urls" in changedKeys
    ensures r.Some? ==> r.value == InstallMenu(stored)
  {
    if namespace == "sync" && "urls" in changedKeys then Some(InstallMenu(stored)) else None
  }

  /** All ids of a node list are different, so every `create` call succeeds. */
  predicate DistinctIds(nodes: seq<Node>) {
    forall i, j :: 0 <= i < j < |nodes| ==> nodes[i].id != nodes[j].id
  }

  /** No two saved searches share an id, and none takes an id the menu reserves. */
  predicate UsableIds(urls: seq<UrlEntry>) {
    && (forall i, j :: 0 <= i < j < |urls| ==> urls[i].id != urls[j].id)
    && (forall i :: 0 <= i < |urls| ==> urls[i].id !in {ParentId, SeparatorId, ManageId})
  }

  /** The tree the listener creates has no clashing ids exactly when the saved ids are usable. */
  lemma InstallMenuIdsDistinct(urls: seq<UrlEntry>)
    ensures DistinctIds(InstallMenu(urls)) <==> UsableIds(urls)
  {
    var t := InstallMenu(urls);
    var m := BuildMenu(urls);
    assert forall k :: 1 <= k < |t| ==> t[k] == m[k - 1];
    if DistinctIds(t) {
      forall i | 0 <= i < |urls|
        ensures urls[i].id !in {ParentId, SeparatorId, ManageId}
      {
        assert t[i + 1].id == urls[i].id;
        assert t[0].id == ParentId;
        assert t[|t| - 1].id == ManageId;
        assert t[|urls| + 1].id == SeparatorId;
      }
      forall i, j | 0 <= i < j < |urls|
        ensures urls[i].id != urls[j].id
      {
        assert t[i + 1].id == urls[i].id && t[j + 1].id == urls[j].id;
      }
    }
  }

  // ---------------------------------------------------------------------------
  // Click routing
  // ---------------------------------------------------------------------------

  /** The fields of the `onClicked` info the listener reads. */
  datatype Click = Click(menuItemId: string, parentMenuItemId: Option<string>, selectionText: string)

  /** What the click listener ends up doing. */
  datatype Action = OpenOptions | OpenTab(url: string) | NoOp

  /** The click the browser reports for a node of the menu. */
  function ClickOn(n: Node, selection: string): Click {
    Click(n.id, n.parent, selection)
  }

  /**
   * `template.replace('%s', encodeURIComponent(selection))`: since the
   * encoded selection has no `$`, this is the literal splice of the encoded
   * selection in place of the first `%s`.
   */
  function SearchUrl(template: string, selection: string): (r: string)
    ensures r == Text.ReplaceFirst(template, Placeholder, Uri.EncodeUriComponent(selection))
    ensures Text.Absent(template, Placeholder) ==> r == template
  {
    Text.JsReplace(template, Placeholder, Uri.EncodeUriComponent(selection))
  }

  /** The `contextMenus.onClicked` listener. */
  function Route(click: Click, urls: seq<UrlEntry>): (r: Action)
    ensures r == OpenOptions <==> click.menuItemId == ManageId
    ensures r.OpenTab? <==>
      && click.menuItemId != ManageId
      && click.parentMenuItemId == Some(ParentId)
      && exists i :: 0 <= i < |urls| && urls[i].id == click.menuItemId
    ensures r.OpenTab? ==>
      exists i :: 0 <= i < |urls| && urls[i].id == click.menuItemId
        && r.url == SearchUrl(urls[i].url, click.selectionText)
        && (forall j :: 0 <= j < i ==> urls[j].id != click.menuItemId)
  {
    if click.menuItemId == ManageId then OpenOptions
    else if click.parentMenuItemId == Some(ParentId) then
      match FindUrl(urls, click.menuItemId)
      case None => NoOp
      case Some(item) => OpenTab(SearchUrl(item.url, click.selectionText))
    else NoOp
  }

  /**
   * A url whose first `%s` follows a `%s`-free prefix gets the encoded
   * selection at that spot, and everything after it, later `%s` included,
   * is kept verbatim.
   */
  lemma SearchUrlSplice(prefix: string, suffix: string, selection: string)
    requires Text.Absent(prefix, Placeholder)
    ensures SearchUrl(prefix + Placeholder + suffix, selection)
         == prefix + Uri.EncodeUriComponent(selection) + suffix
  {
    var s := prefix + Placeholder + suffix;
    assert Text.OccursAt(s, Placeholder, |prefix|) by {
      assert s[|prefix|..|prefix| + 2] == Placeholder;
    }
    forall j | 0 <= j < |prefix|
      ensures !Text.OccursAt(s, Placeholder, j)
    {
      if j + 2 <= |prefix| {
        assert s[j..j + 2] == prefix[j..j + 2];
        assert !Text.OccursAt(prefix, Placeholder, j);
      } else {
        assert s[j + 1] == '%';
      }
    }
    var p := Text.IndexOf(s, Placeholder);
    assert p == Some(|prefix|);
    assert s[..|prefix|] == prefix;
    assert s[|prefix| + 2..] == suffix;
  }

  /** Every node of the built menu routes as the listener intends. */
  lemma MenuClicksRoute(urls: seq<UrlEntry>, selection: string, k: nat)
    requires k < |BuildMenu(urls)|
    ensures var n := BuildMenu(urls)[k];
      && (n == ManageItem ==> Route(ClickOn(n, selection), urls) == OpenOptions)
      && (k < |urls| && urls[k].id != ManageId ==>
            Route(ClickOn(n, selection), urls) == OpenTab(SearchUrl(FindUrl(urls, urls[k].id).value.url, selection)))
      && (k < |urls| && UsableIds(urls) ==>
            Route(ClickOn(n, selection), urls) == OpenTab(SearchUrl(urls[k].url, selection)))
      && (n == SeparatorNode && (forall i :: 0 <= i < |urls| ==> urls[i].id != SeparatorId) ==>
            Route(ClickOn(n, selection), urls) == NoOp)
  {
    var n := BuildMenu(urls)[k];
    if k < |urls| && UsableIds(urls) {
      var e := FindUrl(urls, urls[k].id).value;
      var i :| 0 <= i < |urls| && urls[i] == e && (forall j :: 0 <= j < i ==> urls[j].id != urls[k].id);
      assert i == k;
    }
  }

  /** Clicking the parent itself, which has no parent of its own, does nothing. */
  lemma RootClickIsNoOp(urls: seq<UrlEntry>, selection: string)
    ensures Route(ClickOn(Root, selection), urls) == NoOp
  {
  }
}
