# Snippet store of the renderer, in Dafny

This project models the in-memory snippet store of the tray snippet utility's
renderer script (`renderer.js`). The store keeps an ordered list of records
`{id, title, content, createdAt, updatedAt}` in `snippets`. It derives a
search view `filteredSnippets` from it, and remembers which record the
editor is changing in `currentEditId`. The handlers that change these are
modelled as methods of one class. The rules they use are modelled as pure
functions:

- the title rule `generateTitle`;
- the search predicate;
- `find` / `findIndex` by id;
- the delete filter;
- the card preview, the empty-state choice and the two count labels.

Modules, one per file:

- `Wrappers` (`wrappers.dfy`): `Option`.
- `Text` (`text.dfy`): the JavaScript string operations used, over `seq<char>`:
  - `trim`, with its exact white-space set;
  - `split('\n')[0]`;
  - `toLowerCase`;
  - `includes`;
  - "cut to n characters and add `...`";
  - the decimal text of a count.
- `Sequences` (`sequences.dfy`): `Array.prototype.filter` and its meaning. The
  result is an order-preserving sub-list of exactly the accepted elements, and
  the only such sub-list.
- `Snippets` (`snippets.dfy`): the record, the title rule, the search view,
  lookup and delete by id, and the well-formedness invariant of saved records.
- `Display` (`display.dfy`): what `renderSnippets` and `updateStats` decide.
- `Store` (`store.dfy`): the class `SnippetStore` with the fields `snippets`,
  `filteredSnippets` and `currentEditId`, plus `storageWrites`.
  - `storageWrites` logs every value written to local storage, so each
    handler's contract states whether, and with what, the list was persisted.
  - Values from outside the script are method parameters: the search box
    text, the editor text, the id `generateId` would return, the current time,
    the answer to the confirm dialog, and the parsed stored value.

JavaScript truthiness is kept where the code relies on it. `if (currentEditId)`
and `if (contextMenuSnippetId)` treat both `null` and `""` as "no id"; this is
`Store.IsSet`.

### Behaviour of the code worth knowing

- The truncation suffix is three ASCII dots `...`, not the single character `…`.
- A content whose first line is blank gets the whole untrimmed content as its
  title, cut to 50 characters. So `"\n\nbody text"` gets the title
  `"\n\nbody text"`, not `"body text"` (`Snippets.TitleOfBlankFirstLine`).
  The save handler never reaches this branch, because it passes trimmed,
  non-empty content (`Snippets.SavedTitleUsesFirstLine`).
- Saving while editing an id that is no longer present changes no record.
  It still persists the (unchanged) list, closes the editor and recomputes
  the view.
- Loading with nothing stored (no value, or an empty string) leaves the
  in-memory list as it is. At start-up that list is empty.
- Ids are not checked for uniqueness anywhere. The lemmas about removing
  exactly one record, or keeping ids unique, carry uniqueness as a hypothesis.

## Model

Four definitions have no row of their own; the lemmas in the table are about them.

- `Snippets.Matches` is the search test of renderer.js:113. It has no
  contract. The `Matches*`, `FilterView*`, `BarMatchesFooBar` and
  `ViewOfOneMatch` rows are about it.
- `Store.SavedList` is the list an accepted save produces
  (renderer.js:225-232). It has no contract. The `Save*` lemma rows are about
  it, and `Store.SnippetStore.Save` is proved to leave exactly that list.
- `Display.Render` is what `renderSnippets` shows (renderer.js:63-98). Its
  contract only restates the code's branches. The
  `GridShowsMatchingRecords`, `NoSnippetsYetMeansEmpty` and
  `NoResultsMeansNothingMatches` rows are about it.
- `Display.ShownLabel` is the "(N shown)" text (renderer.js:106). Its
  contract only restates the code's condition. The `ShownLabelIffSomeHidden`
  row is about it.

| member | source | states |
|---|---|---|
| Text.TrimSpec | renderer.js:25 | `trim` yields the slice of the input left once the white space at both ends is removed; it is empty exactly for an all-white-space input, and otherwise it starts and ends with a character that is not white space |
| Text.Trim | renderer.js:222 | the trimmed text is never longer than the input |
| Text.TrimStartSpec | renderer.js:25 | removing leading white space keeps a suffix, drops only white space, and stops at the first other character |
| Text.TrimEndSpec | renderer.js:25 | removing trailing white space keeps a prefix, drops only white space, and stops at the last other character |
| Text.TrimOfTrimmed | renderer.js:222 | a text whose ends are not white space is its own trim |
| Text.TrimIdempotent | renderer.js:222 | trimming twice is the same as trimming once |
| Text.TrimChars | renderer.js:25 | every character of a trimmed text occurs in the original |
| Text.FirstLine | renderer.js:25 | `split('\n')[0]` is a prefix without a line feed, and it is followed by a line feed whenever it is shorter than the text |
| Text.FirstLineOfLine | renderer.js:25 | a text without a line feed is its own first line |
| Text.FirstLineBeforeBreak | renderer.js:25 | the first line of `a + "\n" + b` is `a` when `a` has no line feed |
| Text.LowerIdempotent | renderer.js:112-113 | lowercasing twice is the same as lowercasing once |
| Text.IncludesIff | renderer.js:113 | `includes` holds exactly when the term occurs at some position |
| Text.Truncate | renderer.js:26-27 | the cut text has at most n+3 characters; it is the text itself when that has at most n characters, otherwise its first n characters followed by `...` |
| Text.TruncateIdempotent | renderer.js:26-27 | cutting an already cut text changes nothing |
| Text.NatToString | renderer.js:105 | the decimal text of a count is a non-empty string of digits without a leading zero |
| Text.NatToStringRoundTrip | renderer.js:105 | the decimal text reads back as the count it was made from |
| Sequences.Filter | renderer.js:113 | `filter` keeps at most the input's length, and keeps exactly the input's elements that the predicate accepts |
| Sequences.FilterIsSelection | renderer.js:113 | the filter result is picked out of the input at strictly increasing positions, and every accepted position is picked: it is the order-preserving sub-list of the accepted elements |
| Sequences.SelectionIsFilter | renderer.js:113 | any order-preserving sub-list of exactly the accepted elements equals the filter result |
| Sequences.FilterKeepsAll | renderer.js:258 | the filter keeps the full length exactly when every element is accepted, and is then the input itself |
| Sequences.FilterDropsOne | renderer.js:258 | when only position i is rejected, the filter is the input without position i |
| Snippets.TitleLine | renderer.js:25 | the trimmed first line of a content holds no line feed |
| Snippets.GenerateTitle | renderer.js:24-28 | a title has at most 53 characters; with a non-blank trimmed first line it is that line, cut to 50 characters plus `...` when longer, with no line feed and no white space at either end; with a blank first line it is the whole untrimmed content, cut the same way |
| Snippets.SavedTitleUsesFirstLine | renderer.js:222-224 | for content the save handler accepts, the first line is not blank, so the title always comes from the trimmed first line |
| Snippets.TitleIsStable | renderer.js:24-28 | a title made from a non-blank trimmed first line gives back the same title when used as content |
| Snippets.TitleOfTwoLines | renderer.js:25-26 | the title of `"Hello\nworld"` is `"Hello"` |
| Snippets.TitleOfLongLine | renderer.js:26 | a single 60-character line gives its first 50 characters followed by `...` |
| Snippets.TitleOfBlankFirstLine | renderer.js:27 | `"\n\nbody text"` is its own title |
| Snippets.MatchesIgnoresCase | renderer.js:112-113 | whether a record matches does not depend on the case of the term's letters |
| Snippets.MatchesIffOccurs | renderer.js:113 | a record matches exactly when the lowercased term occurs at some position of its lowercased title or content |
| Snippets.SearchTermNotTrimmed | renderer.js:112 | the term is matched as typed: `"foo"` matches a record that `" foo"` does not |
| Snippets.FilterView | renderer.js:109-114 | a blank term gives the whole list; any other term gives records that are all in the list and match, and every matching record of the list is in the view |
| Snippets.FilterViewIsSelection | renderer.js:111-113 | for a non-blank term the view is the order-preserving sub-list of exactly the matching records |
| Snippets.FilterViewIsUnique | renderer.js:111-113 | for a non-blank term, any order-preserving sub-list of exactly the matching records is the view |
| Snippets.FilterViewKeepsAll | renderer.js:110-113 | the view is as long as the list exactly when the term is blank or every record matches |
| Snippets.FindIndex | renderer.js:226 | `findIndex` is -1 exactly when no record has the id, and otherwise the first position holding it |
| Snippets.Find | renderer.js:40 | `find` gives a record exactly when one has the id, and then the record at a position holding the id with no earlier position holding it: the first such record |
| Snippets.WithoutId | renderer.js:258 | the filter by id keeps only records of the list without the id, keeps every such record, and leaves a list without the id unchanged |
| Snippets.WithoutIdIsSelection | renderer.js:258 | deleting keeps every other record, in the original order |
| Snippets.WithoutUniqueId | renderer.js:258 | with unique ids, deleting a present id removes exactly the record at its position, and the list shrinks by one |
| Snippets.WithoutIdKeepsUnique | renderer.js:258 | deleting never makes two records share an id |
| Snippets.NewSnippet | renderer.js:231 | a new record is well formed exactly when its content is trimmed and not empty, and its title is then a non-empty single line of at most 53 characters |
| Snippets.Edited | renderer.js:228 | an edited record keeps its id and `createdAt`; it is well formed exactly when the new content is trimmed and not empty, and its title is then a non-empty single line of at most 53 characters |
| Snippets.WellFormedTitle | renderer.js:222-224 | a record written by a save has a non-empty single-line title of at most 53 characters, taken from its trimmed first line |
| Snippets.WithoutIdKeepsWellFormed | renderer.js:258 | deleting keeps every record well formed |
| Display.Preview | renderer.js:88 | a preview has at most 103 characters; it is the content when that has at most 100 characters, otherwise the first 100 characters followed by `...` |
| Display.GridShowsMatchingRecords | renderer.js:84-95 | every card of the grid is a record of the store shown by its id and preview, and for a term that is not blank that record matches the term |
| Display.NoSnippetsYetMeansEmpty | renderer.js:75-79 | "No snippets yet" appears only when the store holds no record |
| Display.NoResultsMeansNothingMatches | renderer.js:67-73 | "No results found" appears exactly when the term is not blank and no record matches it |
| Display.TotalLabel | renderer.js:105 | the total label is decimal digits that read back as the count, followed by exactly ` snippet` for one record and ` snippets` for any other count; it starts with the count's decimal text and ends in `s` exactly when the count is not one |
| Display.TotalLabelExamples | renderer.js:105 | the label is `1 snippet` for one record and `12 snippets` for twelve |
| Display.ShownLabelIffSomeHidden | renderer.js:106 | after a search, `(N shown)` appears exactly when the term is not blank and some record does not match it |
| Store.SnippetStore.constructor | renderer.js:3-5 | the store starts with no records, an empty view, no record being edited and nothing written |
| Store.SnippetStore.Load | renderer.js:8-14 | a parsed list replaces the records; a value that fails to parse, or parses to a falsy value, empties them; with nothing stored they stay; the view then holds every record; nothing is written |
| Store.SnippetStore.Persist | renderer.js:16-18 | the whole current list is written as one value, and nothing else changes |
| Store.SnippetStore.FilterSnippets | renderer.js:109-114 | the view becomes the search view of the records for the term, and nothing else changes |
| Store.SnippetStore.OpenAddModal | renderer.js:30-31 | the editor is set to add mode, and nothing else changes |
| Store.SnippetStore.OpenEditModal | renderer.js:39-42 | the record found is the first one holding the id; the editor is set to that id exactly when such a record exists, and otherwise keeps its state; the list, view and storage are unchanged |
| Store.SnippetStore.CloseModal | renderer.js:50-54 | the editor forgets the record it was editing, and nothing else changes |
| Store.SnippetStore.Save | renderer.js:221-238 | a save is accepted exactly when the trimmed input is not empty; a refused save changes nothing and writes nothing; an accepted one turns the list into the saved list for the trimmed content (add in front, or edit in place), writes that list once, clears the edited id and recomputes the view for the search text; it keeps every record well formed, and keeps ids unique unless an add uses a fresh id already in use |
| Store.SnippetStore.Delete | renderer.js:256-262 | with an id and a confirmation the list becomes the list without that id, no remaining record has the id, the list is written once and the view is recomputed; without either, nothing changes; the edited id never changes; well-formed records and unique ids are preserved |
| Store.SaveAddsInFront | renderer.js:230-232 | in add mode the list grows by one, the new record with the fresh id, the derived title, the trimmed content and one instant for both timestamps is first, and the old records follow unchanged and in order |
| Store.SaveEditsInPlace | renderer.js:225-229 | in edit mode with the id present the length is kept; the record at the found position keeps its id and `createdAt` and takes the new title, content and `updatedAt`; every other position is unchanged |
| Store.SaveEditOfMissingId | renderer.js:226-229 | in edit mode with the id gone the list is unchanged |
| Store.SaveKeepsWellFormed | renderer.js:222-232 | a save keeps every record's content trimmed and non-empty, with the title derived from it |
| Store.SaveKeepsUniqueIds | renderer.js:225-232 | an edit keeps ids unique, and so does an add whose fresh id is not yet in use |
| Store.FooBarIsItsOwnTitle | renderer.js:222-224 | `"foo bar"` is accepted as typed and is its own title |
| Store.BarMatchesFooBar | renderer.js:110-113 | searching `"BAR"` finds a record whose content is `"foo bar"` |
| Store.ViewOfOneMatch | renderer.js:111-113 | the view of a single matching record is that record |
| Store.WithoutOnlyRecord | renderer.js:258 | deleting the id of the only record empties the list |
| Store.AddFooBar | renderer.js:221-238 | saving "foo bar" in add mode into an empty store, with fresh id `k1`, leaves exactly one record, with that id, content "foo bar" and title "foo bar" |
| Store.SearchAndDelete | renderer.js:256-262 | with one record "foo bar" with id `k1` in the store, searching "BAR" and then deleting `k1` leaves no record, and the last value written is the empty list |

`Store.Session` is a method with no contract. It saves `"foo bar"`, searches
for `"BAR"`, deletes the record, and loads what was last written into a fresh
store. Its first step, the save, is `Store.AddFooBar`; its middle, the search and
the delete, is `Store.SearchAndDelete`.
Its assertions follow the store through each step and end with an empty
reloaded store.

## Left out

- The DOM is not modelled: HTML strings, `innerHTML`, `escapeHtml`, modal display and classes, focus timers, context-menu placement and event wiring. `Display.Render` gives only the choice of screen and each card's id and preview text.
- `copySnippetById` is not modelled; it uses the asynchronous clipboard API, `alert` and `console`.
- The dark-mode and auto-start settings are not modelled; they are `localStorage` flags plus inter-process calls.
- `src/main.js` and `src/preload.js` are not part of this model; they hold only window, tray and inter-process wiring.
- `generateId` (clock and random numbers) and `new Date().toISOString()` are method parameters, so the model does not say what an id or a timestamp looks like.
- `JSON.stringify`, `JSON.parse` and `localStorage` are abstract. Persisting appends the list to `storageWrites`, and loading takes the parse outcome as a `Stored` value. A JSON round trip is therefore the identity by construction.
- Store.SnippetStore.Load: a stored value that parses to something truthy but not an array (an object, a number) is assigned to `snippets` by the code, and so is a parsed array whose items are not records with string fields, on which the later `toLowerCase` (renderer.js:113) or `length` (renderer.js:88) would throw. `Stored.ParsedList` holds only well-typed records, so the model has neither value.
- Store.SnippetStore.Save: the code reads the clock twice for a new record, once for `createdAt` and once for `updatedAt`. The model uses one instant for both.
- Store.SnippetStore.OpenEditModal: the editor text box filled with the record's content is not a field; the found record is returned instead.
- The context menu's selected id (`contextMenuSnippetId`) is not a field; the delete operation takes it as a parameter (`None` for `null`).
- The alert on an empty save is not modelled; a refused save returns `false`.
- Text.Lower: only the ASCII letters A-Z are lowercased, while JavaScript's `toLowerCase` follows full Unicode case mapping.
- Text.Truncate: counts Unicode scalar values, while JavaScript's `length` and `substring` count UTF-16 code units, so characters outside the Basic Multilingual Plane are counted differently.
- Ids are never checked for uniqueness, and the model does not claim they are unique; the lemmas that need unique ids take uniqueness as a hypothesis.
