/**
  The snippet record and the pure rules of renderer.js that act on records:
  the title rule `generateTitle`, the search predicate of `filterSnippets`,
  `find`/`findIndex` by id and the delete handler's `filter` by id.
 */
module Snippets {
  import opened Wrappers
  import opened Text
  import opened Sequences

  /** A stored record; `createdAt` and `updatedAt` are ISO-8601 timestamps as text. */
  datatype Snippet = Snippet(id: string, title: string, content: string, createdAt: string, updatedAt: string)

  /** How many characters of a line a title keeps before the three dots. */
  const TitleLength: nat := 50

  /** The first line of a content, trimmed: what a title is normally made from. */
  function TitleLine(content: string): (r: string)
    ensures '\n' !in r
  {
    FirstLineNoBreak(content);
    Trim(FirstLine(content))
  }

  lemma FirstLineNoBreak(content: string)
    ensures '\n' !in Trim(FirstLine(content))
  {
    if '\n' in Trim(FirstLine(content)) {
      TrimChars(FirstLine(content), '\n');
    }
  }

  /**
    `generateTitle`: the trimmed first line when it is not empty, otherwise the
    whole content as it is; either one cut to 50 characters plus "..." when longer.
   */
  function GenerateTitle(content: string): (r: string)
    ensures |r| <= TitleLength + 3
    ensures var line := TitleLine(content);
      && (line != [] && |line| <= TitleLength ==> r == line)
      && (line != [] && |line| > TitleLength ==> r == line[..TitleLength] + "...")
      && (line == [] && |content| <= TitleLength ==> r == content)
      && (line == [] && |content| > TitleLength ==> r == content[..TitleLength] + "...")
    ensures TitleLine(content) != [] ==> '\n' !in r && !IsSpace(r[0]) && !IsSpace(r[|r| - 1])
  {
    TrimSpec(FirstLine(content));
    var line := TitleLine(content);
    if line != [] then Truncate(line, TitleLength) else Truncate(content, TitleLength)
  }

  /**
    The handler always saves trimmed, non-empty content, so its title always
    comes from the first line: the whole-content branch is never taken there.
   */
  lemma SavedTitleUsesFirstLine(input: string)
    requires !Blank(input)
    ensures TitleLine(Trim(input)) != []
    ensures GenerateTitle(Trim(input)) == Truncate(TitleLine(Trim(input)), TitleLength)
  {
    var c := Trim(input);
    var line := FirstLine(c);
    TrimSpec(input);
    TrimSpec(line);
    assert line[0] == c[0];
    assert !IsSpace(line[0]);
  }

  /** Saving a title as content gives back the same title. */
  lemma TitleIsStable(content: string)
    requires TitleLine(content) != []
    ensures GenerateTitle(GenerateTitle(content)) == GenerateTitle(content)
  {
    var r := GenerateTitle(content);
    FirstLineOfLine(r);
    TrimOfTrimmed(r);
    assert TitleLine(r) == r;
    TruncateIdempotent(TitleLine(content), TitleLength);
  }

  /** A title stops at the first line break. */
  lemma TitleOfTwoLines()
    ensures GenerateTitle("Hello\nworld") == "Hello"
  {
    FirstLineBeforeBreak("Hello", "world");
    assert "Hello" + "\n" + "world" == "Hello\nworld";
    TrimOfTrimmed("Hello");
  }

  /** A single line of 60 characters is cut to 50 and marked with three dots. */
  lemma TitleOfLongLine()
    ensures GenerateTitle(seq(60, _ => 'a')) == seq(50, _ => 'a') + "..."
  {
    var long := seq(60, _ => 'a');
    FirstLineOfLine(long);
    TrimOfTrimmed(long);
    assert long[..TitleLength] == seq(50, _ => 'a');
  }

  /** A content whose first line is empty keeps its leading line breaks in the title. */
  lemma TitleOfBlankFirstLine()
    ensures GenerateTitle("\n\nbody text") == "\n\nbody text"
  {
    assert FirstLine("\n\nbody text") == [];
  }

  /** The search predicate: the lowercased title or content includes the lowercased term. */
  predicate Matches(s: Snippet, term: string) {
    Includes(Lower(s.title), Lower(term)) || Includes(Lower(s.content), Lower(term))
  }

  function MatchesTerm(term: string): (p: Snippet -> bool) {
    (s: Snippet) => Matches(s, term)
  }

  /** Matching does not depend on the case of the term's ASCII letters. */
  lemma MatchesIgnoresCase(s: Snippet, term: string)
    ensures Matches(s, term) <==> Matches(s, Lower(term))
  {
    LowerIdempotent(term);
  }

  /** A record matches exactly when the lowercased term occurs somewhere in its lowercased title or content. */
  lemma MatchesIffOccurs(s: Snippet, term: string)
    ensures Matches(s, term) <==>
      (exists i :: OccursAt(Lower(s.title), Lower(term), i)) || (exists i :: OccursAt(Lower(s.content), Lower(term), i))
  {
    IncludesIff(Lower(s.title), Lower(term));
    IncludesIff(Lower(s.content), Lower(term));
  }

  /** The term is matched as typed: white space around it is not removed. */
  lemma SearchTermNotTrimmed()
    ensures Matches(Snippet("1", "foo", "foo", "", ""), "foo")
    ensures !Matches(Snippet("1", "foo", "foo", "", ""), " foo")
  {
    assert Lower("foo") == "foo";
    assert Lower(" foo") == " foo";
  }

  /**
    The filtered view `filterSnippets` computes: a copy of the whole list for a
    blank term, otherwise the records that match the term as typed.
   */
  function FilterView(list: seq<Snippet>, searchTerm: string): (r: seq<Snippet>)
    ensures |r| <= |list|
    ensures Blank(searchTerm) ==> r == list
    ensures !Blank(searchTerm) ==> forall x :: x in r <==> x in list && Matches(x, searchTerm)
  {
    if Blank(searchTerm) then list else Filter(list, MatchesTerm(searchTerm))
  }

  /** For a term that is not blank the view is an order-preserving sub-list of exactly the matching records. */
  lemma FilterViewIsSelection(list: seq<Snippet>, searchTerm: string) returns (idx: seq<nat>)
    requires !Blank(searchTerm)
    ensures IsSelection(list, FilterView(list, searchTerm), MatchesTerm(searchTerm), idx)
  {
    idx := FilterIsSelection(list, MatchesTerm(searchTerm));
  }

  /** ... and it is the only such sub-list. */
  lemma FilterViewIsUnique(list: seq<Snippet>, searchTerm: string, r: seq<Snippet>, idx: seq<nat>)
    requires !Blank(searchTerm)
    requires IsSelection(list, r, MatchesTerm(searchTerm), idx)
    ensures r == FilterView(list, searchTerm)
  {
    SelectionIsFilter(list, r, MatchesTerm(searchTerm), idx);
  }

  /** The view keeps every record exactly when every record matches. */
  lemma FilterViewKeepsAll(list: seq<Snippet>, searchTerm: string)
    ensures |FilterView(list, searchTerm)| == |list| <==>
      Blank(searchTerm) || forall i :: 0 <= i < |list| ==> Matches(list[i], searchTerm)
  {
    FilterKeepsAll(list, MatchesTerm(searchTerm));
  }

  predicate HasId(list: seq<Snippet>, id: string) {
    exists i :: 0 <= i < |list| && list[i].id == id
  }

  /** `findIndex((s) => s.id === id)`: the first position holding `id`, or -1. */
  function FindIndex(list: seq<Snippet>, id: string): (r: int)
    ensures -1 <= r < |list|
    ensures r == -1 <==> !HasId(list, id)
    ensures r >= 0 ==> list[r].id == id && forall j :: 0 <= j < r ==> list[j].id != id
  {
    if list == [] then -1
    else if list[0].id == id then 0
    else
      var k := FindIndex(list[1..], id);
      assert forall j :: 1 <= j < |list| ==> list[1..][j - 1] == list[j];
      if k == -1 then -1 else k + 1
  }

  /** `find((s) => s.id === id)`: the first record holding `id`, if any. */
  function Find(list: seq<Snippet>, id: string): (r: Option<Snippet>)
    ensures r.Some? <==> HasId(list, id)
    ensures r.Some? ==> r.value.id == id
    ensures r.Some? ==> exists i :: 0 <= i < |list| && list[i] == r.value && forall j :: 0 <= j < i ==> list[j].id != id
  {
    var i := FindIndex(list, id);
    if i == -1 then None else Some(list[i])
  }

  /** No two records share an id. The source never checks this. */
  predicate UniqueIds(list: seq<Snippet>) {
    forall i, j :: 0 <= i < j < |list| ==> list[i].id != list[j].id
  }

  function OtherThan(id: string): (p: Snippet -> bool) {
    (s: Snippet) => s.id != id
  }

  /** The delete handler's `snippets.filter((s) => s.id !== id)`. */
  function WithoutId(list: seq<Snippet>, id: string): (r: seq<Snippet>)
    ensures forall x :: x in r ==> x in list && x.id != id
    ensures forall x :: x in list && x.id != id ==> x in r
    ensures !HasId(list, id) ==> r == list
  {
    FilterKeepsAll(list, OtherThan(id));
    Filter(list, OtherThan(id))
  }

  /** Deleting keeps every other record in its original order. */
  lemma WithoutIdIsSelection(list: seq<Snippet>, id: string) returns (idx: seq<nat>)
    ensures IsSelection(list, WithoutId(list, id), OtherThan(id), idx)
  {
    idx := FilterIsSelection(list, OtherThan(id));
  }

  /** With unique ids, deleting a present id removes exactly that one record. */
  lemma WithoutUniqueId(list: seq<Snippet>, id: string)
    requires UniqueIds(list) && HasId(list, id)
    ensures var i := FindIndex(list, id);
      WithoutId(list, id) == list[..i] + list[i + 1..] && |WithoutId(list, id)| == |list| - 1
  {
    var i := FindIndex(list, id);
    FilterDropsOne(list, OtherThan(id), i);
  }

  /** Deleting never makes two records share an id. */
  lemma WithoutIdKeepsUnique(list: seq<Snippet>, id: string)
    requires UniqueIds(list)
    ensures UniqueIds(WithoutId(list, id))
  {
    var r := WithoutId(list, id);
    var idx := WithoutIdIsSelection(list, id);
    forall i, j | 0 <= i < j < |r| ensures r[i].id != r[j].id {
      assert idx[i] < idx[j];
    }
  }

  /**
    The record the save handler adds: a fresh id, the derived title, and one
    instant for both timestamps. It is well formed exactly when the content is
    trimmed and not empty, and its title is then one short non-empty line.
   */
  function NewSnippet(id: string, content: string, now: string): (r: Snippet)
    ensures WellFormed(r) <==> content != [] && Trim(content) == content
    ensures WellFormed(r) ==> |r.title| <= TitleLength + 3 && r.title != [] && '\n' !in r.title
  {
    var r := Snippet(id, GenerateTitle(content), content, now, now);
    if WellFormed(r) then WellFormedTitle(r); r else r
  }

  /**
    The record the save handler writes back while editing: id and `createdAt`
    are kept, and it is well formed exactly when the new content is.
   */
  function Edited(s: Snippet, content: string, now: string): (r: Snippet)
    ensures r.id == s.id && r.createdAt == s.createdAt
    ensures WellFormed(r) <==> content != [] && Trim(content) == content
    ensures WellFormed(r) ==> |r.title| <= TitleLength + 3 && r.title != [] && '\n' !in r.title
  {
    var r := s.(title := GenerateTitle(content), content := content, updatedAt := now);
    if WellFormed(r) then WellFormedTitle(r); r else r
  }

  /** What a successful save leaves in a record: trimmed, non-empty content and the title derived from it. */
  predicate WellFormed(s: Snippet) {
    s.content != [] && Trim(s.content) == s.content && s.title == GenerateTitle(s.content)
  }

  predicate AllWellFormed(list: seq<Snippet>) {
    forall i :: 0 <= i < |list| ==> WellFormed(list[i])
  }

  /** A saved record's title is a single non-blank line of at most 53 characters taken from its first line. */
  lemma WellFormedTitle(s: Snippet)
    requires WellFormed(s)
    ensures |s.title| <= TitleLength + 3 && s.title != []
    ensures '\n' !in s.title
    ensures s.title == Truncate(TitleLine(s.content), TitleLength)
  {
    SavedTitleUsesFirstLine(s.content);
  }

  /** Deleting keeps every record well formed. */
  lemma WithoutIdKeepsWellFormed(list: seq<Snippet>, id: string)
    requires AllWellFormed(list)
    ensures AllWellFormed(WithoutId(list, id))
  {
    var r := WithoutId(list, id);
    forall i | 0 <= i < |r| ensures WellFormed(r[i]) {
      assert r[i] in list;
    }
  }
}
