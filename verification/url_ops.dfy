/**
 * The options page's saved-search handlers: the add form, the remove button
 * and the update button. Each reads `urls`, transforms the list, and writes
 * `urls` back; `variables` and `environments` are never touched.
 */
module UrlOps {
  import opened Wrappers
  import opened Store
  import Text
  import Seqs
  import Background

  /**
   * The add form's submit handler. Nothing happens while an entry is being
   * edited or when the trimmed name or url is empty; otherwise the entry
   * `{id: newId, name, url}` is appended.
   */
  function AddUrl(s: Snapshot, editing: Option<string>, nameInput: string, urlInput: string, newId: string): (r: Outcome)
    ensures !r.Rejected?
    ensures Truthy(editing) ==> r == Ignored
    ensures r.Written? <==> !Truthy(editing) && Text.Trim(nameInput) != [] && Text.Trim(urlInput) != []
    ensures r.Written? ==>
      && r.snapshot.variables == s.variables
      && r.snapshot.environments == s.environments
      && |r.snapshot.urls| == |s.urls| + 1
      && r.snapshot.urls[..|s.urls|] == s.urls
      && r.snapshot.urls[|s.urls|] == UrlEntry(newId, Text.Trim(nameInput), Text.Trim(urlInput))
  {
    if Truthy(editing) then Ignored
    else
      var name := Text.Trim(nameInput);
      var url := Text.Trim(urlInput);
      if name != [] && url != [] then
        Written(s.(urls := s.urls + [UrlEntry(newId, name, url)]))
      else Ignored
  }

  /** The remove button: every entry with that id is dropped, the others keep their order. */
  function RemoveUrl(s: Snapshot, id: string): (r: Outcome)
    ensures r.Written?
    ensures r.snapshot.variables == s.variables && r.snapshot.environments == s.environments
    ensures forall i :: 0 <= i < |r.snapshot.urls| ==> r.snapshot.urls[i] in s.urls && r.snapshot.urls[i].id != id
    ensures forall i :: 0 <= i < |s.urls| && s.urls[i].id != id ==> s.urls[i] in r.snapshot.urls
    ensures Seqs.Selects(r.snapshot.urls, s.urls, (e: UrlEntry) => e.id != id)
    ensures (forall i :: 0 <= i < |s.urls| ==> s.urls[i].id != id) ==> r.snapshot == s
    ensures (exists i :: 0 <= i < |s.urls| && s.urls[i].id == id) ==> |r.snapshot.urls| < |s.urls|
  {
    var keep := (e: UrlEntry) => e.id != id;
    var kept := Seqs.Filter(s.urls, keep);
    Seqs.FilterFacts(s.urls, keep);
    Written(s.(urls := kept))
  }

  /**
   * The update button: while an entry is being edited and both trimmed
   * fields are non-empty, the entry with the edited id gets the new name and
   * url; ids, order, length and every other entry stay as they were.
   */
  function UpdateUrl(s: Snapshot, editing: Option<string>, nameInput: string, urlInput: string): (r: Outcome)
    ensures !r.Rejected?
    ensures r.Written? <==> Truthy(editing) && Text.Trim(nameInput) != [] && Text.Trim(urlInput) != []
    ensures r.Written? ==>
      && r.snapshot.variables == s.variables
      && r.snapshot.environments == s.environments
      && |r.snapshot.urls| == |s.urls|
      && forall i :: 0 <= i < |s.urls| ==>
           && r.snapshot.urls[i].id == s.urls[i].id
           && (s.urls[i].id == editing.value ==>
                 r.snapshot.urls[i].name == Text.Trim(nameInput) && r.snapshot.urls[i].url == Text.Trim(urlInput))
           && (s.urls[i].id != editing.value ==> r.snapshot.urls[i] == s.urls[i])
  {
    var name := Text.Trim(nameInput);
    var url := Text.Trim(urlInput);
    if name != [] && url != [] && Truthy(editing) then
      var urls := seq(|s.urls|, i requires 0 <= i < |s.urls| =>
        if s.urls[i].id == editing.value then s.urls[i].(name := name, url := url) else s.urls[i]);
      Written(s.(urls := urls))
    else Ignored
  }

  /** Adding an entry under a fresh id and then removing that id restores the snapshot. */
  lemma AddThenRemoveUrl(s: Snapshot, nameInput: string, urlInput: string, newId: string)
    requires forall i :: 0 <= i < |s.urls| ==> s.urls[i].id != newId
    requires AddUrl(s, None, nameInput, urlInput, newId).Written?
    ensures RemoveUrl(AddUrl(s, None, nameInput, urlInput, newId).snapshot, newId) == Written(s)
  {
    var a := AddUrl(s, None, nameInput, urlInput, newId).snapshot;
    var r := RemoveUrl(a, newId).snapshot;
    assert a.urls == s.urls + [a.urls[|s.urls|]];
    assert Seqs.Filter(a.urls, (e: UrlEntry) => e.id != newId) == Seqs.Filter(s.urls, (e: UrlEntry) => e.id != newId) by {
      Seqs.FilterAppendRejected(s.urls, a.urls[|s.urls|], (e: UrlEntry) => e.id != newId);
    }
    Seqs.FilterKeepsAll(s.urls, (e: UrlEntry) => e.id != newId);
  }

  /** After a removal, a click on a stale menu leaf with that id opens nothing. */
  lemma RemovedEntryClickIsNoOp(s: Snapshot, id: string, selection: string)
    requires id != Background.ManageId
    ensures Background.Route(Background.Click(id, Some(Background.ParentId), selection), RemoveUrl(s, id).snapshot.urls)
         == Background.NoOp
  {
  }

  /** An update keeps the saved ids usable for the menu. */
  lemma UpdateKeepsUsableIds(s: Snapshot, editing: Option<string>, nameInput: string, urlInput: string)
    requires Background.UsableIds(s.urls)
    requires UpdateUrl(s, editing, nameInput, urlInput).Written?
    ensures Background.UsableIds(UpdateUrl(s, editing, nameInput, urlInput).snapshot.urls)
  {
    var after := UpdateUrl(s, editing, nameInput, urlInput).snapshot.urls;
    assert forall i :: 0 <= i < |after| ==> after[i].id == s.urls[i].id;
  }

  /** When the saved ids are unique, the edited leaf opens the new url after an update. */
  lemma UpdatedEntryRoutesToNewUrl(s: Snapshot, editing: string, nameInput: string, urlInput: string, k: nat, selection: string)
    requires Background.UsableIds(s.urls)
    requires UpdateUrl(s, Some(editing), nameInput, urlInput).Written?
    requires k < |s.urls| && s.urls[k].id == editing
    ensures Background.Route(Background.Click(editing, Some(Background.ParentId), selection),
                             UpdateUrl(s, Some(editing), nameInput, urlInput).snapshot.urls)
         == Background.OpenTab(Background.SearchUrl(Text.Trim(urlInput), selection))
  {
    var after := UpdateUrl(s, Some(editing), nameInput, urlInput).snapshot.urls;
    assert after[k].id == editing && after[k].url == Text.Trim(urlInput);
    var f := FindUrl(after, editing);
    var i :| 0 <= i < |after| && after[i] == f.value && (forall j :: 0 <= j < i ==> after[j].id != editing);
    assert after[i].id == s.urls[i].id;
    assert i == k;
  }

  /** An update leaves the ids of the menu's nodes where they were. */
  lemma UpdateKeepsMenuIds(s: Snapshot, editing: Option<string>, nameInput: string, urlInput: string)
    requires UpdateUrl(s, editing, nameInput, urlInput).Written?
    ensures var before := Background.BuildMenu(s.urls);
      var after := Background.BuildMenu(UpdateUrl(s, editing, nameInput, urlInput).snapshot.urls);
      |after| == |before| && forall k :: 0 <= k < |before| ==> after[k].id == before[k].id
  {
  }

  /** The page's url form: the id being edited (`editingUrlId`) and the two text fields. */
  datatype UrlForm = UrlForm(editing: Option<string>, name: string, url: string)

  /**
   * The edit button: the name and url of the first entry with the id go
   * into the form and the id becomes the edited id; for an id no entry has, the form stays as
   * it was.
   */
  function BeginUrlEdit(urls: seq<UrlEntry>, form: UrlForm, id: string): (r: UrlForm)
    ensures (forall i :: 0 <= i < |urls| ==> urls[i].id != id) ==> r == form
    ensures (exists i :: 0 <= i < |urls| && urls[i].id == id) ==>
      && r.editing == Some(id)
      && exists i :: 0 <= i < |urls| && urls[i] == UrlEntry(id, r.name, r.url)
           && forall j :: 0 <= j < i ==> urls[j].id != id
  {
    match FindUrl(urls, id)
    case None => form
    case Some(e) => UrlForm(Some(id), e.name, e.url)
  }

  /**
   * Opening an entry for editing and submitting the form unchanged rewrites
   * the same list, as long as the entry's fields were stored trimmed and
   * non-empty and no other entry shares its id with different fields.
   */
  lemma ResubmitUnchangedEditIsIdentity(s: Snapshot, form: UrlForm, id: string)
    requires id != ""
    requires FindUrl(s.urls, id).Some?
    requires forall i :: 0 <= i < |s.urls| && s.urls[i].id == id ==> s.urls[i] == FindUrl(s.urls, id).value
    requires var e := FindUrl(s.urls, id).value; Text.IsTrimmed(e.name) && e.name != [] && Text.IsTrimmed(e.url) && e.url != []
    ensures var f := BeginUrlEdit(s.urls, form, id); UpdateUrl(s, f.editing, f.name, f.url) == Written(s)
  {
    var e := FindUrl(s.urls, id).value;
    Text.TrimOfTrimmed(e.name);
    Text.TrimOfTrimmed(e.url);
    var after := UpdateUrl(s, Some(id), e.name, e.url).snapshot;
    assert after.urls == s.urls;
  }
}
