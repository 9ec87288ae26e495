/**
 The search itself: the script's loops over candidate lines, written as
 methods that compute what the `Matching` definitions describe, and
 `doASearch`'s decisions (empty query, candidate narrowing, ranking, the
 title split and the too-many-results cut-off) as an outcome value.
 */
module Search {
  import opened Wrappers
  import opened Text
  import opened Seqs
  import Matching

  /** More candidates than this and only the full-word matches are kept. */
  const CANDIDATE_LIMIT := 300
  /** More content lines than this and no results are shown. */
  const CONTENT_LIMIT := 700
  /** The query that is never cut off. */
  const BYPASS_QUERY := "⭐"

  /** What `doASearch` shows, without its rendering. */
  datatype Outcome =
    | EmptyQuery
    | TooMany(narrowed: bool, count: nat, titles: seq<string>)
    | NoResults(narrowed: bool, titles: seq<string>)
    | Found(narrowed: bool, content: seq<string>, titles: seq<string>)

  // ---------------------------------------------------------------------------
  // The loops
  // ---------------------------------------------------------------------------

  /** `checkList1isInList2` */
  method CheckList1IsInList2(list1: seq<string>, list2: seq<string>) returns (b: bool)
    ensures b <==> forall i :: 0 <= i < |list1| ==> list1[i] in list2
  {
    var i := 0;
    while i < |list1|
      invariant 0 <= i <= |list1|
      invariant forall k :: 0 <= k < i ==> list1[k] in list2
    {
      if list1[i] !in list2 {
        return false;
      }
      i := i + 1;
    }
    return true;
  }

  /** `checkWordForWordMatch` */
  method CheckWordForWordMatch(line: string, query: string) returns (b: bool)
    ensures b == Matching.WordForWord(line, query)
  {
    b := CheckList1IsInList2(Matching.QueryWords(query), Matching.LineWords(line));
  }

  /** `getOnlyFullWordMatches` */
  method GetOnlyFullWordMatches(myList: seq<string>, query: string) returns (bumped: seq<string>)
    ensures bumped == Matching.FullWordMatches(myList, query)
  {
    bumped := [];
    var i := 0;
    while i < |myList|
      invariant 0 <= i <= |myList|
      invariant bumped == Filter(Matching.FullWordTest(query), myList[..i])
    {
      var hit := CheckWordForWordMatch(myList[i], query);
      FilterStep(Matching.FullWordTest(query), myList, i, bumped, hit);
      if hit {
        bumped := bumped + [myList[i]];
      }
      i := i + 1;
    }
    assert myList[..i] == myList;
  }

  /** `moveBetterMatchesToFront` */
  method MoveBetterMatchesToFront(myList: seq<string>, query: string) returns (r: seq<string>)
    ensures r == Matching.MoveBetterMatchesToFront(myList, query)
  {
    var p := Matching.FullWordTest(query);
    var bumped, notBumped := [], [];
    var i := 0;
    while i < |myList|
      invariant 0 <= i <= |myList|
      invariant bumped == Filter(p, myList[..i])
      invariant notBumped == Filter(Not(p), myList[..i])
    {
      var element := myList[i];
      var hit := CheckWordForWordMatch(element, query);
      PartitionStep(p, myList, i, bumped, notBumped, hit);
      if hit {
        bumped := bumped + [element];
      } else {
        notBumped := notBumped + [element];
      }
      i := i + 1;
    }
    assert myList[..i] == myList;
    r := bumped + notBumped;
  }

  /**
   `getLinesThatContainAllWords`: the inner loop breaks at the first missing
   word, and the line is kept only when it ran to the end.
   */
  method GetLinesThatContainAllWords(lineList: seq<string>, query: string) returns (bumped: seq<string>)
    ensures bumped == Matching.AllWordsMatches(lineList, query)
  {
    var words := Matching.QueryWords(query);
    bumped := [];
    var n := 0;
    while n < |lineList|
      invariant 0 <= n <= |lineList|
      invariant bumped == Filter(Matching.AllWordsTest(query), lineList[..n])
    {
      var line := lineList[n];
      var complete := ContainsEveryWord(Lower(Matching.CleanLine(line)), words);
      FilterStep(Matching.AllWordsTest(query), lineList, n, bumped, complete);
      if complete {
        bumped := bumped + [line];
      }
      n := n + 1;
    }
    assert lineList[..n] == lineList;
  }

  /** The inner loop of `getLinesThatContainAllWords`: it breaks at the first word the line lacks. */
  method ContainsEveryWord(checked: string, words: seq<string>) returns (complete: bool)
    ensures complete <==> forall k :: 0 <= k < |words| ==> Contains(checked, words[k])
  {
    complete := true;
    var j := 0;
    while j < |words|
      invariant 0 <= j <= |words|
      invariant complete
      invariant forall k :: 0 <= k < j ==> Contains(checked, words[k])
    {
      if !Contains(checked, words[j]) {
        complete := false;
        break;
      }
      j := j + 1;
    }
  }

  /** `filterLines` */
  method FilterLines(lineList: seq<string>, query: string) returns (r: seq<string>)
    ensures r == Matching.FilterLines(lineList, query)
  {
    if |query| <= 2 || (query == Upper(query) && |query| <= 5) {
      r := GetOnlyFullWordMatches(lineList, query);
    } else {
      r := GetLinesThatContainAllWords(lineList, query);
    }
  }

  /** `filterOutTitleLines`; the script reads `line[0]`, so every line must be non-empty. */
  method FilterOutTitleLines(lineList: seq<string>) returns (filtered: seq<string>, titles: seq<string>)
    requires forall i :: 0 <= i < |lineList| ==> lineList[i] != []
    ensures (filtered, titles) == Matching.FilterOutTitleLines(lineList)
  {
    filtered, titles := [], [];
    var i := 0;
    while i < |lineList|
      invariant 0 <= i <= |lineList|
      invariant filtered == Filter(Not(Matching.IsTitle), lineList[..i])
      invariant titles == Filter(Matching.IsTitle, lineList[..i])
    {
      var line := lineList[i];
      PartitionStep(Matching.IsTitle, lineList, i, titles, filtered, line[0] == '#');
      if line[0] != '#' {
        filtered := filtered + [line];
      } else {
        titles := titles + [line];
      }
      i := i + 1;
    }
    assert lineList[..i] == lineList;
  }

  // ---------------------------------------------------------------------------
  // doASearch
  // ---------------------------------------------------------------------------

  /** The lines ranked by `doASearch`: the filtered lines, cut to the full-word matches when there are too many. */
  function Candidates(index: seq<string>, query: string): seq<string> {
    var found := Matching.FilterLines(index, query);
    if |found| > CANDIDATE_LIMIT then Matching.FullWordMatches(found, query) else found
  }

  /** `doASearch` on the stripped input, as the outcome it renders. */
  function Search(index: seq<string>, input: string): (o: Outcome)
    ensures o.EmptyQuery? <==> Strip(input) == []
    ensures o.TooMany? ==> o.count > CONTENT_LIMIT && Strip(input) != BYPASS_QUERY
    ensures o.Found? ==> 0 < |o.content| && (|o.content| <= CONTENT_LIMIT || Strip(input) == BYPASS_QUERY)
    ensures o.Found? ==> forall i :: 0 <= i < |o.content| ==> o.content[i] != [] && o.content[i][0] != '#'
    ensures !o.EmptyQuery? ==> forall i :: 0 <= i < |o.titles| ==> o.titles[i] != [] && o.titles[i][0] == '#'
  {
    var query := Strip(input);
    if query == [] then EmptyQuery
    else
      var narrowed := |Matching.FilterLines(index, query)| > CANDIDATE_LIMIT;
      var ranked := Matching.MoveBetterMatchesToFront(Candidates(index, query), query);
      RankedLinesNonEmpty(index, query);
      var (content, titles) := Matching.FilterOutTitleLines(ranked);
      Decide(query, narrowed, content, titles)
  }

  /** The last decision of `doASearch`: cut off, no results, or results. */
  function Decide(query: string, narrowed: bool, content: seq<string>, titles: seq<string>): (o: Outcome)
    ensures !o.EmptyQuery? && o.narrowed == narrowed && o.titles == titles
    ensures o.TooMany? <==> |content| > CONTENT_LIMIT && query != BYPASS_QUERY
    ensures o.TooMany? ==> o.count == |content|
    ensures o.NoResults? <==> content == [] && !o.TooMany?
    ensures o.Found? ==> o.content == content
  {
    if |content| > CONTENT_LIMIT && query != BYPASS_QUERY then TooMany(narrowed, |content|, titles)
    else if content == [] then NoResults(narrowed, titles)
    else Found(narrowed, content, titles)
  }

  /** `Search` of a non-empty query, one step unfolded. */
  lemma SearchUnfold(index: seq<string>, input: string)
    requires Strip(input) != []
    ensures var query := Strip(input);
      var ranked := Matching.MoveBetterMatchesToFront(Candidates(index, query), query);
      Search(index, input) == Decide(query, |Matching.FilterLines(index, query)| > CANDIDATE_LIMIT,
        Filter(Not(Matching.IsTitle), ranked), Filter(Matching.IsTitle, ranked))
  {
  }

  /** `doASearch`, step by step through the loops above. */
  method DoASearch(index: seq<string>, input: string) returns (o: Outcome)
    ensures o == Search(index, input)
  {
    var query := Strip(input);
    if query == [] {
      return EmptyQuery;
    }
    var found := FilterLines(index, query);
    var narrowed := |found| > CANDIDATE_LIMIT;
    if narrowed {
      found := GetOnlyFullWordMatches(found, query);
    }
    found := MoveBetterMatchesToFront(found, query);
    RankedLinesNonEmpty(index, query);
    var content, titles := FilterOutTitleLines(found);
    if |content| > CONTENT_LIMIT && query != BYPASS_QUERY {
      return TooMany(narrowed, |content|, titles);
    }
    if content == [] {
      return NoResults(narrowed, titles);
    }
    return Found(narrowed, content, titles);
  }

  // ---------------------------------------------------------------------------
  // Properties
  // ---------------------------------------------------------------------------

  /** Whether a line of the index is among the candidates of a query. */
  predicate Selected(index: seq<string>, query: string, line: string) {
    && Matching.Matches(line, query)
    && (|Matching.FilterLines(index, query)| > CANDIDATE_LIMIT ==> Matching.WordForWord(line, query))
  }

  function SelectedTest(index: seq<string>, query: string): string -> bool {
    line => Selected(index, query, line)
  }

  /**
   The candidates are the index lines that match the query, further limited to
   full-word matches when more than `CANDIDATE_LIMIT` lines matched; they keep
   the index order and its repetitions.
   */
  lemma CandidatesSpec(index: seq<string>, query: string)
    ensures var c := Candidates(index, query);
      && c == Filter(SelectedTest(index, query), index)
      && IsSubseq(c, index)
      && (forall i :: 0 <= i < |c| ==> c[i] in index && Selected(index, query, c[i]))
      && (forall i :: 0 <= i < |index| && Selected(index, query, index[i]) ==> index[i] in Candidates(index, query))
  {
    var found := Matching.FilterLines(index, query);
    var m, w, sel := Matching.MatchTest(query), Matching.FullWordTest(query), SelectedTest(index, query);
    Matching.FilterLinesSpec(index, query);
    if |found| > CANDIDATE_LIMIT {
      Matching.FullWordMatchesSpec(found, query);
      SubseqTransitive(Candidates(index, query), found, index);
      FilterTwice(m, w, sel, index);
    } else {
      FilterCongruent(m, sel, index);
    }
  }

  /** Every ranked candidate of a stripped, non-empty query has a first character. */
  lemma RankedLinesNonEmpty(index: seq<string>, query: string)
    requires query != [] && !IsSpace(query[0])
    ensures var ranked := Matching.MoveBetterMatchesToFront(Candidates(index, query), query);
      forall i :: 0 <= i < |ranked| ==> ranked[i] != []
  {
    var c := Candidates(index, query);
    var ranked := Matching.MoveBetterMatchesToFront(c, query);
    CandidatesSpec(index, query);
    Matching.MoveBetterMatchesToFrontSpec(c, query);
    Matching.EmptyLineNeverMatches(query);
    forall i | 0 <= i < |ranked|
      ensures ranked[i] != []
    {
      assert ranked[i] in multiset(c);
      assert ranked[i] in c;
    }
  }

  /**
   The outcome of a non-empty query in terms of the candidates: `narrowed`
   says whether more than `CANDIDATE_LIMIT` lines matched; the cut-off applies
   exactly when more than `CONTENT_LIMIT` non-title candidates remain and the
   query is not the bypass query; otherwise the content is the non-title
   candidates ranked full-word matches first, and the titles are the title
   candidates ranked the same way.
   */
  lemma SearchSpec(index: seq<string>, input: string)
    requires Strip(input) != []
    ensures var query := Strip(input);
      var o, c := Search(index, input), Candidates(index, query);
      var shown, titles := Filter(Not(Matching.IsTitle), c), Filter(Matching.IsTitle, c);
      && (o.narrowed <==> |Matching.FilterLines(index, query)| > CANDIDATE_LIMIT)
      && (o.TooMany? <==> |shown| > CONTENT_LIMIT && query != BYPASS_QUERY)
      && (o.TooMany? ==> o.count == |shown|)
      && (o.NoResults? <==> shown == [])
      && (o.Found? ==> o.content == Matching.MoveBetterMatchesToFront(shown, query))
      && o.titles == Matching.MoveBetterMatchesToFront(titles, query)
  {
    var query := Strip(input);
    var c := Candidates(index, query);
    var p := Matching.FullWordTest(query);
    var ranked := Matching.MoveBetterMatchesToFront(c, query);
    var shown, titles := Filter(Not(Matching.IsTitle), c), Filter(Matching.IsTitle, c);
    SearchUnfold(index, input);
    assert Filter(Not(Matching.IsTitle), ranked) == Matching.MoveBetterMatchesToFront(shown, query) by {
      FilterStablePartition(Not(Matching.IsTitle), p, c);
    }
    assert Filter(Matching.IsTitle, ranked) == Matching.MoveBetterMatchesToFront(titles, query) by {
      FilterStablePartition(Matching.IsTitle, p, c);
    }
    assert |Matching.MoveBetterMatchesToFront(shown, query)| == |shown| by {
      StablePartitionSpec(p, shown);
    }
  }

  /** The search reports no results exactly when the query is not empty and no non-title candidate remains. */
  lemma NoResultsSpec(index: seq<string>, input: string)
    ensures Search(index, input).NoResults?
      <==> Strip(input) != [] && Filter(Not(Matching.IsTitle), Candidates(index, Strip(input))) == []
  {
    if Strip(input) != [] {
      SearchSpec(index, input);
    }
  }

  /**
   Every line the search shows (content or title) is a line of the index
   selected by the query, and every selected line is shown, unless the
   cut-off hides the content.
   */
  lemma SearchShowsSelected(index: seq<string>, input: string, line: string)
    requires Strip(input) != []
    ensures var o, query := Search(index, input), Strip(input);
      && (o.Found? ==> (line in o.content + o.titles <==> line in index && Selected(index, query, line)))
      && (o.NoResults? ==> (line in o.titles <==> line in index && Selected(index, query, line)))
      && (o.TooMany? ==> (line in o.titles <==> line in index && Selected(index, query, line) && Matching.IsTitle(line)))
  {
    var query := Strip(input);
    var ranked := Matching.MoveBetterMatchesToFront(Candidates(index, query), query);
    SearchUnfold(index, input);
    RankedMember(index, query, line);
    SplitMember(ranked, line);
  }

  /** A line is ranked exactly when it is a selected line of the index. */
  lemma RankedMember(index: seq<string>, query: string, line: string)
    ensures line in Matching.MoveBetterMatchesToFront(Candidates(index, query), query)
      <==> line in index && Selected(index, query, line)
  {
    var c := Candidates(index, query);
    var ranked := Matching.MoveBetterMatchesToFront(c, query);
    CandidatesSpec(index, query);
    Matching.MoveBetterMatchesToFrontSpec(c, query);
    assert line in ranked <==> line in multiset(ranked);
    assert line in c <==> line in multiset(c);
    if line in index && Selected(index, query, line) {
      var i :| 0 <= i < |index| && index[i] == line;
    }
  }

  /** A line goes to the titles exactly when it is a title, and to the content otherwise. */
  lemma SplitMember(lines: seq<string>, line: string)
    ensures line in Filter(Matching.IsTitle, lines) <==> line in lines && Matching.IsTitle(line)
    ensures line in Filter(Not(Matching.IsTitle), lines) <==> line in lines && !Matching.IsTitle(line)
  {
    if line in lines {
      var i :| 0 <= i < |lines| && lines[i] == line;
      assert Matching.IsTitle(lines[i]) || Not(Matching.IsTitle)(lines[i]);
    }
  }

  /**
   The first `k` lines match the query word for word and the rest do not;
   each of the two runs is in the order of the index.
   */
  predicate FullWordMatchesFirst(lines: seq<string>, index: seq<string>, query: string, k: int) {
    && 0 <= k <= |lines|
    && (forall i :: 0 <= i < k ==> Matching.WordForWord(lines[i], query))
    && (forall i :: k <= i < |lines| ==> !Matching.WordForWord(lines[i], query))
    && IsSubseq(lines[..k], index)
    && IsSubseq(lines[k..], index)
  }

  /** The content puts every full-word match before every other line, and each of the two groups keeps the index order. */
  lemma SearchRanking(index: seq<string>, input: string)
    requires Search(index, input).Found?
    ensures exists k :: FullWordMatchesFirst(Search(index, input).content, index, Strip(input), k)
  {
    var query := Strip(input);
    var shown := Filter(Not(Matching.IsTitle), Candidates(index, query));
    SearchSpec(index, input);
    ShownRanking(index, query);
    assert FullWordMatchesFirst(Search(index, input).content, index, query, |Matching.FullWordMatches(shown, query)|);
  }

  /** The ranked non-title candidates: full-word matches first, both runs in index order. */
  lemma ShownRanking(index: seq<string>, query: string)
    ensures var shown := Filter(Not(Matching.IsTitle), Candidates(index, query));
      FullWordMatchesFirst(Matching.MoveBetterMatchesToFront(shown, query), index, query, |Matching.FullWordMatches(shown, query)|)
  {
    var c := Candidates(index, query);
    var shown := Filter(Not(Matching.IsTitle), c);
    var content := Matching.MoveBetterMatchesToFront(shown, query);
    var k := |Matching.FullWordMatches(shown, query)|;
    Matching.MoveBetterMatchesToFrontSpec(shown, query);
    assert IsSubseq(shown, index) by {
      CandidatesSpec(index, query);
      FilterIsSubseq(Not(Matching.IsTitle), c);
      SubseqTransitive(shown, c, index);
    }
    SubseqTransitive(content[..k], shown, index);
    SubseqTransitive(content[k..], shown, index);
  }

  /** For a short query nothing is reordered: the content keeps the index order and every line of it matches word for word. */
  lemma ShortQueryKeepsIndexOrder(index: seq<string>, input: string)
    requires Matching.IsShortQuery(Strip(input))
    requires Search(index, input).Found?
    ensures var o := Search(index, input);
      && IsSubseq(o.content, index)
      && forall i :: 0 <= i < |o.content| ==> Matching.WordForWord(o.content[i], Strip(input))
  {
    var query := Strip(input);
    assert Candidates(index, query) == Matching.FilterLines(index, query) by {
      Matching.ShortQueryRankingIsIdentity(index, query);
    }
    SearchSpec(index, input);
    ShortQueryContent(index, query);
  }

  /** For a short query the non-title matches are already ranked, in index order. */
  lemma ShortQueryContent(index: seq<string>, query: string)
    requires Matching.IsShortQuery(query)
    ensures var shown := Filter(Not(Matching.IsTitle), Matching.FilterLines(index, query));
      && Matching.MoveBetterMatchesToFront(shown, query) == shown
      && IsSubseq(shown, index)
      && forall i :: 0 <= i < |shown| ==> Matching.WordForWord(shown[i], query)
  {
    var found := Matching.FilterLines(index, query);
    var shown := Filter(Not(Matching.IsTitle), found);
    Matching.FilterLinesSpec(index, query);
    assert forall i :: 0 <= i < |shown| ==> Matching.WordForWord(shown[i], query);
    assert Matching.MoveBetterMatchesToFront(shown, query) == shown by {
      FilterKeepsAll(Matching.FullWordTest(query), shown);
      NoneSurvive(Not(Matching.FullWordTest(query)), shown);
      assert shown + [] == shown;
    }
    FilterIsSubseq(Not(Matching.IsTitle), found);
    SubseqTransitive(shown, found, index);
  }

  /** The bypass query is never cut off. */
  lemma BypassNeverTooMany(index: seq<string>)
    ensures !Search(index, BYPASS_QUERY).TooMany?
  {
    assert Strip(BYPASS_QUERY) == BYPASS_QUERY by {
      assert !IsSpace(BYPASS_QUERY[0]);
    }
  }

  /** The exception the script's no-results path raises. */
  datatype ScriptError = UndefinedName(name: string)

  /**
   `doASearch` as written: after "No results found" it hands the undefined
   name `failedSearchInfoMsg` to `st.info`, which raises and ends the run
   before the section titles are shown.
   */
  function SearchAsWritten(index: seq<string>, input: string): (r: Result<Outcome, ScriptError>)
    ensures r.Failure? <==> Strip(input) != [] && Filter(Not(Matching.IsTitle), Candidates(index, Strip(input))) == []
    ensures r.Success? ==> r.value == Search(index, input)
  {
    NoResultsSpec(index, input);
    var o := Search(index, input);
    if o.NoResults? then Failure(UndefinedName("failedSearchInfoMsg")) else Success(o)
  }

  /**
   A non-empty query that no line of the index matches: as written the run
   raises, while the corrected outcome reports no results and no titles.
   */
  lemma NoMatchRaises(index: seq<string>, input: string)
    requires Strip(input) != []
    requires forall i :: 0 <= i < |index| ==> !Matching.Matches(index[i], Strip(input))
    ensures SearchAsWritten(index, input) == Failure(UndefinedName("failedSearchInfoMsg"))
    ensures Search(index, input) == NoResults(false, [])
  {
    var query := Strip(input);
    assert Matching.FilterLines(index, query) == [] by {
      Matching.FilterLinesSpec(index, query);
      NoneSurvive(Matching.MatchTest(query), index);
    }
    assert Candidates(index, query) == [];
    SearchSpec(index, input);
  }
}
