/**
  The renderer's snippet store: the module-level `snippets`, `filteredSnippets`
  and `currentEditId`, and the handlers that change them. Every write of the
  list to local storage is recorded in `storageWrites`, so a contract can say
  whether, and with what, the store was persisted.
 */
module Store {
  import opened Wrappers
  import opened Text
  import opened Snippets

  /** What `localStorage.getItem('snippets')` and `JSON.parse` yield at load time. */
  datatype Stored =
    | Missing                          // no value, or an empty string
    | Malformed                        // `JSON.parse` throws
    | ParsedFalsy                      // parses to null, false, 0 or ""
    | ParsedList(items: seq<Snippet>)  // parses to an array of records

  /** JavaScript truthiness of a nullable id: `null` and "" are false. */
  predicate IsSet(id: Option<string>) {
    id.Some? && id.value != ""
  }

  class SnippetStore {
    var snippets: seq<Snippet>
    var filteredSnippets: seq<Snippet>
    var currentEditId: Option<string>
    /** Each value written to local storage, oldest first. */
    var storageWrites: seq<seq<Snippet>>

    /** The state when the script starts: `let snippets = []` and so on. */
    constructor ()
      ensures snippets == [] && filteredSnippets == [] && currentEditId == None && storageWrites == []
    {
      snippets := [];
      filteredSnippets := [];
      currentEditId := None;
      storageWrites := [];
    }

    /**
      `loadSnippets`: a stored list replaces the records, a corrupt or falsy value
      empties them, and with nothing stored they stay as they are; the view then
      shows them all.
     */
    method Load(saved: Stored)
      modifies this
      ensures snippets == match saved
        case Missing => old(snippets)
        case Malformed => []
        case ParsedFalsy => []
        case ParsedList(items) => items
      ensures filteredSnippets == snippets
      ensures currentEditId == old(currentEditId) && storageWrites == old(storageWrites)
    {
      match saved {
        case Missing =>
        case Malformed => snippets := [];
        case ParsedFalsy => snippets := [];
        case ParsedList(items) => snippets := items;
      }
      filteredSnippets := snippets;
    }

    /** `saveToStorage`: the whole list is written as one value. */
    method Persist()
      modifies this
      ensures storageWrites == old(storageWrites) + [snippets]
      ensures snippets == old(snippets) && filteredSnippets == old(filteredSnippets)
      ensures currentEditId == old(currentEditId)
    {
      storageWrites := storageWrites + [snippets];
    }

    /** `filterSnippets(searchTerm)`: recompute the view from the search box text. */
    method FilterSnippets(searchTerm: string)
      modifies this
      ensures filteredSnippets == FilterView(snippets, searchTerm)
      ensures snippets == old(snippets) && currentEditId == old(currentEditId)
      ensures storageWrites == old(storageWrites)
    {
      filteredSnippets := FilterView(snippets, searchTerm);
    }

    /** `openAddModal`: the editor opens for a new snippet. */
    method OpenAddModal()
      modifies this
      ensures currentEditId == None
      ensures snippets == old(snippets) && filteredSnippets == old(filteredSnippets)
      ensures storageWrites == old(storageWrites)
    {
      currentEditId := None;
    }

    /**
      `openEditModal(id)`: when a record holds `id` the editor opens on it, and
      `found` is that record, whose content fills the editor; otherwise nothing happens.
     */
    method OpenEditModal(id: string) returns (found: Option<Snippet>)
      modifies this
      ensures found == Find(snippets, id)
      ensures currentEditId == if HasId(snippets, id) then Some(id) else old(currentEditId)
      ensures snippets == old(snippets) && filteredSnippets == old(filteredSnippets)
      ensures storageWrites == old(storageWrites)
    {
      found := Find(snippets, id);
      if found.Some? {
        currentEditId := Some(id);
      }
    }

    /** `closeModal`: the editor closes and forgets what it was editing. */
    method CloseModal()
      modifies this
      ensures currentEditId == None
      ensures snippets == old(snippets) && filteredSnippets == old(filteredSnippets)
      ensures storageWrites == old(storageWrites)
    {
      currentEditId := None;
    }

    /**
      The save button. `input` is the editor text, `searchInput` the search box
      text, `freshId` the value `generateId` would return and `now` the current
      time as ISO-8601 text. Blank content is refused and nothing changes.
      Otherwise, with no record being edited, a new record goes in front; while
      editing, the record found by id gets the new title, content and `updatedAt`
      in place, and an id no longer present changes no record. In both cases the
      list is persisted, the editor closes and the view is recomputed.
     */
    method Save(input: string, searchInput: string, freshId: string, now: string) returns (accepted: bool)
      modifies this
      ensures accepted <==> !Blank(input)
      ensures !accepted ==>
        && snippets == old(snippets) && filteredSnippets == old(filteredSnippets)
        && currentEditId == old(currentEditId) && storageWrites == old(storageWrites)
      ensures accepted ==> snippets == SavedList(old(snippets), old(currentEditId), Trim(input), freshId, now)
      ensures accepted ==>
        && currentEditId == None
        && storageWrites == old(storageWrites) + [snippets]
        && filteredSnippets == FilterView(snippets, searchInput)
      ensures old(AllWellFormed(snippets)) ==> AllWellFormed(snippets)
      ensures old(UniqueIds(snippets)) && (old(IsSet(currentEditId)) || !old(HasId(snippets, freshId))) ==> UniqueIds(snippets)
    {
      var content := Trim(input);
      if content == [] {
        accepted := false;
        return;
      }
      accepted := true;
      if AllWellFormed(snippets) {
        SaveKeepsWellFormed(snippets, currentEditId, input, freshId, now);
      }
      if UniqueIds(snippets) && (IsSet(currentEditId) || !HasId(snippets, freshId)) {
        SaveKeepsUniqueIds(snippets, currentEditId, content, freshId, now);
      }
      if IsSet(currentEditId) {
        var index := FindIndex(snippets, currentEditId.value);
        if index != -1 {
          snippets := snippets[index := Edited(snippets[index], content, now)];
        }
      } else {
        snippets := [NewSnippet(freshId, content, now)] + snippets;
      }
      Persist();
      CloseModal();
      FilterSnippets(searchInput);
    }

    /**
      The context menu's delete. `target` is the card's id (null when no card was
      picked), `confirmed` the user's answer to the dialog. Only with an id and
      a yes are all records with that id removed, the list persisted and the
      view recomputed; otherwise nothing changes.
     */
    method Delete(target: Option<string>, confirmed: bool, searchInput: string)
      modifies this
      ensures IsSet(target) && confirmed ==>
        && snippets == WithoutId(old(snippets), target.value)
        && (forall x :: x in snippets ==> x.id != target.value)
        && storageWrites == old(storageWrites) + [snippets]
        && filteredSnippets == FilterView(snippets, searchInput)
      ensures !(IsSet(target) && confirmed) ==>
        && snippets == old(snippets) && filteredSnippets == old(filteredSnippets)
        && storageWrites == old(storageWrites)
      ensures currentEditId == old(currentEditId)
      ensures old(AllWellFormed(snippets)) ==> AllWellFormed(snippets)
      ensures old(UniqueIds(snippets)) ==> UniqueIds(snippets)
    {
      if IsSet(target) && confirmed {
        if AllWellFormed(snippets) {
          WithoutIdKeepsWellFormed(snippets, target.value);
        }
        if UniqueIds(snippets) {
          WithoutIdKeepsUnique(snippets, target.value);
        }
        snippets := WithoutId(snippets, target.value);
        Persist();
        FilterSnippets(searchInput);
      }
    }
  }

  /**
    The list after an accepted save of `content`: with no record being edited
    the new record goes in front; while editing, the first record with the
    edited id is replaced; an edited id that is no longer present changes nothing.
   */
  function SavedList(list: seq<Snippet>, editId: Option<string>, content: string, freshId: string, now: string): (r: seq<Snippet>) {
    if IsSet(editId) then
      var i := FindIndex(list, editId.value);
      if i == -1 then list else list[i := Edited(list[i], content, now)]
    else
      [NewSnippet(freshId, content, now)] + list
  }

  /** In add mode the list grows by one new record in front, and every old record follows unchanged, in order. */
  lemma SaveAddsInFront(list: seq<Snippet>, editId: Option<string>, input: string, freshId: string, now: string)
    requires !Blank(input) && !IsSet(editId)
    ensures var r := SavedList(list, editId, Trim(input), freshId, now);
      && |r| == |list| + 1
      && r[0] == Snippet(freshId, GenerateTitle(Trim(input)), Trim(input), now, now)
      && r[1..] == list
  {
  }

  /**
    In edit mode with the id present, only that record changes: it keeps its id
    and `createdAt` and takes the new title, content and `updatedAt`.
   */
  lemma SaveEditsInPlace(list: seq<Snippet>, editId: Option<string>, input: string, freshId: string, now: string)
    requires !Blank(input) && IsSet(editId) && HasId(list, editId.value)
    ensures var r := SavedList(list, editId, Trim(input), freshId, now);
      var i := FindIndex(list, editId.value);
      && |r| == |list|
      && r[i].id == list[i].id == editId.value && r[i].createdAt == list[i].createdAt
      && r[i].title == GenerateTitle(Trim(input)) && r[i].content == Trim(input) && r[i].updatedAt == now
      && forall j :: 0 <= j < |list| && j != i ==> r[j] == list[j]
  {
  }

  /** In edit mode with the id gone, the list is unchanged. */
  lemma SaveEditOfMissingId(list: seq<Snippet>, editId: Option<string>, content: string, freshId: string, now: string)
    requires IsSet(editId) && !HasId(list, editId.value)
    ensures SavedList(list, editId, content, freshId, now) == list
  {
  }

  /** A save keeps every record well formed. */
  lemma SaveKeepsWellFormed(list: seq<Snippet>, editId: Option<string>, input: string, freshId: string, now: string)
    requires !Blank(input) && AllWellFormed(list)
    ensures AllWellFormed(SavedList(list, editId, Trim(input), freshId, now))
  {
    var content := Trim(input);
    TrimIdempotent(input);
    var r := SavedList(list, editId, content, freshId, now);
    if IsSet(editId) {
      var i := FindIndex(list, editId.value);
      if i != -1 {
        assert WellFormed(Edited(list[i], content, now));
        forall j | 0 <= j < |r| ensures WellFormed(r[j]) {
          if j != i {
            assert r[j] == list[j];
          }
        }
      }
    } else {
      assert WellFormed(NewSnippet(freshId, content, now));
      forall j | 1 <= j < |r| ensures WellFormed(r[j]) {
        assert r[j] == list[j - 1];
      }
    }
  }

  /** An edit keeps ids unique; so does an add whose id is not yet in use. */
  lemma SaveKeepsUniqueIds(list: seq<Snippet>, editId: Option<string>, content: string, freshId: string, now: string)
    requires UniqueIds(list)
    requires !IsSet(editId) ==> !HasId(list, freshId)
    ensures UniqueIds(SavedList(list, editId, content, freshId, now))
  {
    var r := SavedList(list, editId, content, freshId, now);
    if IsSet(editId) {
      var i := FindIndex(list, editId.value);
      if i != -1 {
        forall j, k | 0 <= j < k < |r| ensures r[j].id != r[k].id {
          assert r[j].id == list[j].id && r[k].id == list[k].id;
        }
      }
    } else {
      forall j, k | 0 <= j < k < |r| ensures r[j].id != r[k].id {
        assert r[k] == list[k - 1];
        if j > 0 {
          assert r[j] == list[j - 1];
        }
      }
    }
  }

  /** "foo bar" is saved as it is typed, and its one line is its title. */
  lemma FooBarIsItsOwnTitle()
    ensures !Blank("foo bar") && Trim("foo bar") == "foo bar"
    ensures GenerateTitle("foo bar") == "foo bar"
  {
    TrimOfTrimmed("foo bar");
    FirstLineOfLine("foo bar");
  }

  /** Searching "BAR" finds a record whose content is "foo bar", whatever the case. */
  lemma BarMatchesFooBar(s: Snippet)
    requires s.content == "foo bar"
    ensures Matches(s, "BAR") && !Blank("BAR")
  {
    TrimOfTrimmed("BAR");
    assert Lower("BAR") == "bar";
    assert Lower("foo bar") == "foo bar";
    assert Includes("foo bar"[4..], "bar");
  }

  /** A view of one matching record shows that record. */
  lemma ViewOfOneMatch(x: Snippet, term: string)
    requires Matches(x, term)
    ensures FilterView([x], term) == [x]
  {
    assert [x][1..] == [];
  }

  /** Deleting the only record leaves the list empty. */
  lemma WithoutOnlyRecord(x: Snippet)
    ensures WithoutId([x], x.id) == []
  {
    assert [x][1..] == [];
  }

  /**
    A session: save "foo bar", search for "BAR", delete the record, then load
    what was last written in a fresh store.
   */
  method Session() {
    var store := new SnippetStore();
    AddFooBar(store);
    SearchAndDelete(store);
    var reloaded := new SnippetStore();
    reloaded.Load(ParsedList(store.storageWrites[|store.storageWrites| - 1]));
    assert reloaded.snippets == [] && reloaded.filteredSnippets == [];
  }

  /** The start of the session: saving "foo bar" in add mode into an empty store gives one record. */
  method AddFooBar(store: SnippetStore)
    requires store.snippets == [] && store.currentEditId == None
    modifies store
    ensures |store.snippets| == 1 && store.snippets[0].content == "foo bar" && store.snippets[0].id == "k1"
    ensures store.snippets[0].title == "foo bar"
  {
    FooBarIsItsOwnTitle();
    var ok := store.Save("foo bar", "", "k1", "t");
    assert ok && store.snippets == [NewSnippet("k1", "foo bar", "t")];
  }

  /** The middle of the session: "BAR" finds the one record, and deleting it empties the store. */
  method SearchAndDelete(store: SnippetStore)
    requires |store.snippets| == 1 && store.snippets[0].content == "foo bar" && store.snippets[0].id == "k1"
    modifies store
    ensures store.snippets == [] && store.storageWrites != [] && store.storageWrites[|store.storageWrites| - 1] == []
  {
    var x := store.snippets[0];
    assert store.snippets == [x];
    BarMatchesFooBar(x);
    ViewOfOneMatch(x, "BAR");
    WithoutOnlyRecord(x);
    store.FilterSnippets("BAR");
    assert store.filteredSnippets == [x];
    store.Delete(Some("k1"), true, "BAR");
  }
}
