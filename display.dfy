/**
  What `renderSnippets` and `updateStats` decide, without the HTML: which
  empty-state message shows, the card previews, and the two count labels.
 */
module Display {
  import opened Text
  import opened Snippets

  /** How many characters of a content a card shows before the three dots. */
  const PreviewLength: nat := 100

  /** The card text: the content cut to 100 characters plus "..." when longer. */
  function Preview(content: string): (r: string)
    ensures |r| <= PreviewLength + 3
    ensures |content| <= PreviewLength ==> r == content
    ensures |content| > PreviewLength ==>
      |r| == PreviewLength + 3 && r[..PreviewLength] == content[..PreviewLength] && r[PreviewLength..] == "..."
  {
    Truncate(content, PreviewLength)
  }

  /** A card shows the record's id (for clicks) and its preview. */
  datatype Card = Card(id: string, preview: string)

  /** The three things the snippet container can show. */
  datatype Screen =
    | NoResults(term: string)
    | NoSnippetsYet
    | Grid(cards: seq<Card>)

  /**
    `renderSnippets`: an empty view shows "No results found" for the trimmed
    search text when that is not empty, and "No snippets yet" otherwise; a
    non-empty view shows one card per record, in order.
   */
  function Render(filtered: seq<Snippet>, searchInput: string): (v: Screen)
    ensures v.NoResults? <==> filtered == [] && !Blank(searchInput)
    ensures v.NoResults? ==> v.term == Trim(searchInput)
    ensures v.NoSnippetsYet? <==> filtered == [] && Blank(searchInput)
    ensures v.Grid? ==>
      && |v.cards| == |filtered|
      && forall i :: 0 <= i < |filtered| ==> v.cards[i] == Card(filtered[i].id, Preview(filtered[i].content))
  {
    var term := Trim(searchInput);
    if filtered == [] then
      if term != [] then NoResults(term) else NoSnippetsYet
    else
      Grid(seq(|filtered|, i requires 0 <= i < |filtered| => Card(filtered[i].id, Preview(filtered[i].content))))
  }

  /** "No snippets yet" appears only when the store really holds no snippet. */
  lemma NoSnippetsYetMeansEmpty(list: seq<Snippet>, searchInput: string)
    requires Render(FilterView(list, searchInput), searchInput).NoSnippetsYet?
    ensures list == []
  {
  }

  /** "No results found" appears exactly when the term is not blank and no record matches it. */
  lemma NoResultsMeansNothingMatches(list: seq<Snippet>, searchInput: string)
    ensures Render(FilterView(list, searchInput), searchInput).NoResults? <==>
      !Blank(searchInput) && forall i :: 0 <= i < |list| ==> !Matches(list[i], searchInput)
  {
    if !Blank(searchInput) && FilterView(list, searchInput) != [] {
      var x := FilterView(list, searchInput)[0];
      assert x in list && Matches(x, searchInput);
    }
    if !Blank(searchInput) && exists i :: 0 <= i < |list| && Matches(list[i], searchInput) {
      var i :| 0 <= i < |list| && Matches(list[i], searchInput);
      assert list[i] in FilterView(list, searchInput);
    }
  }

  /**
    Every card of the grid shows a record of the store, by id and preview, and
    for a term that is not blank that record matches the term.
   */
  lemma GridShowsMatchingRecords(list: seq<Snippet>, searchInput: string)
    ensures var view := FilterView(list, searchInput);
      var v := Render(view, searchInput);
      v.Grid? ==> forall c :: c in v.cards ==>
        exists x :: x in list && c == Card(x.id, Preview(x.content)) && (Blank(searchInput) || Matches(x, searchInput))
  {
    var view := FilterView(list, searchInput);
    var v := Render(view, searchInput);
    if v.Grid? {
      forall c | c in v.cards
        ensures exists x :: x in list && c == Card(x.id, Preview(x.content)) && (Blank(searchInput) || Matches(x, searchInput))
      {
        var i :| 0 <= i < |v.cards| && v.cards[i] == c;
        assert view[i] in view;
      }
    }
  }

  /**
    The total label: decimal digits that read back as the count, then the word
    " snippet", with an "s" for every count but one.
   */
  function TotalLabel(total: nat): (r: string)
    ensures NatToString(total) <= r
    ensures r[|r| - 1] == 's' <==> total != 1
    ensures exists k ::
      && 0 < k <= |r| && IsDigits(r[..k]) && DigitsValue(r[..k]) == total
      && r[k..] == (if total == 1 then " snippet" else " snippets")
  {
    var digits := NatToString(total);
    var r := digits + " snippet" + (if total != 1 then "s" else "");
    NatToStringRoundTrip(total);
    assert r[..|digits|] == digits;
    assert r[|digits|..] == (if total == 1 then " snippet" else " snippets");
    r
  }

  lemma TotalLabelExamples()
    ensures TotalLabel(1) == "1 snippet"
    ensures TotalLabel(12) == "12 snippets"
  {
    TotalLabelOfOne();
    TotalLabelOfTwelve();
  }

  lemma TotalLabelOfOne()
    ensures TotalLabel(1) == "1 snippet"
  {
    assert NatToString(1) == "1";
  }

  lemma TotalLabelOfTwelve()
    ensures TotalLabel(12) == "12 snippets"
  {
    assert NatToString(12) == "12";
  }

  /** The "(N shown)" label: present only while a search hides some records. */
  function ShownLabel(searchInput: string, filtered: nat, total: nat): (r: string)
    ensures r != [] <==> !Blank(searchInput) && filtered != total
    ensures r != [] ==> r == "(" + NatToString(filtered) + " shown)"
  {
    if !Blank(searchInput) && filtered != total then "(" + NatToString(filtered) + " shown)" else ""
  }

  /** After a search, "(N shown)" appears exactly when the term is not blank and some record does not match it. */
  lemma ShownLabelIffSomeHidden(list: seq<Snippet>, searchInput: string)
    ensures ShownLabel(searchInput, |FilterView(list, searchInput)|, |list|) != [] <==>
      !Blank(searchInput) && exists i :: 0 <= i < |list| && !Matches(list[i], searchInput)
  {
    FilterViewKeepsAll(list, searchInput);
  }
}
