/**
 The two ways a line can match a query, the filters built on them, the
 query-length routing between them, and the ranking and title split that
 follow.
 */
module Matching {
  import opened Wrappers
  import opened Text
  import opened Seqs

  const REDDIT_WIKI_URL_PREFIX := "https://www.reddit.com/r/FREEMEDIAHECKYEAH/wiki/"
  const PAGES_DEV_SITE_URL_PREFIX := "https://fmhy.net/"

  /** `cleanLineForSearchMatchChecks`: both site prefixes become "/". */
  function CleanLine(line: string): (r: string)
    ensures !Contains(line, REDDIT_WIKI_URL_PREFIX) && !Contains(line, PAGES_DEV_SITE_URL_PREFIX) ==> r == line
    ensures |r| <= |line|
  {
    var once := Replace(line, REDDIT_WIKI_URL_PREFIX, "/");
    ReplaceShrinks(line, REDDIT_WIKI_URL_PREFIX, "/");
    ReplaceShrinks(once, PAGES_DEV_SITE_URL_PREFIX, "/");
    Replace(once, PAGES_DEV_SITE_URL_PREFIX, "/")
  }

  /**
   On a line without the Reddit wiki prefix, the first site prefix becomes "/"
   and cleaning goes on after it; the text before it is kept.
   */
  lemma CleanLineSitePrefix(line: string, k: nat)
    requires !Contains(line, REDDIT_WIKI_URL_PREFIX) && Find(line, PAGES_DEV_SITE_URL_PREFIX) == Some(k)
    ensures CleanLine(line) == line[..k] + "/" + CleanLine(line[k + |PAGES_DEV_SITE_URL_PREFIX|..])
  {
    var rest := line[k + |PAGES_DEV_SITE_URL_PREFIX|..];
    if Contains(rest, REDDIT_WIKI_URL_PREFIX) {
      ContainsSuffix(line, k + |PAGES_DEV_SITE_URL_PREFIX|, REDDIT_WIKI_URL_PREFIX);
    }
    ReplaceFirst(line, PAGES_DEV_SITE_URL_PREFIX, "/", k);
  }

  /**
   The first Reddit wiki prefix becomes "/" together with the later ones, and
   only then are the site prefixes rewritten.
   */
  lemma CleanLineRedditPrefix(line: string, k: nat)
    requires Find(line, REDDIT_WIKI_URL_PREFIX) == Some(k)
    ensures CleanLine(line) == Replace(line[..k] + "/" + Replace(line[k + |REDDIT_WIKI_URL_PREFIX|..], REDDIT_WIKI_URL_PREFIX, "/"), PAGES_DEV_SITE_URL_PREFIX, "/")
  {
    ReplaceFirst(line, REDDIT_WIKI_URL_PREFIX, "/", k);
  }

  /** Replacing a pattern by something no longer never lengthens the text. */
  lemma {:induction false} ReplaceShrinks(s: string, pat: string, rep: string)
    requires |pat| > 0 && |rep| <= |pat|
    ensures |Replace(s, pat, rep)| <= |s|
    decreases |s|
  {
    if StartsWith(s, pat) {
      ReplaceShrinks(s[|pat|..], pat, rep);
    } else if s != [] {
      ReplaceShrinks(s[1..], pat, rep);
    }
  }

  predicate NonEmpty(s: string) {
    s != []
  }

  /** `removeEmptyStringsFromList` */
  function RemoveEmptyStrings(words: seq<string>): (r: seq<string>)
    ensures forall i :: 0 <= i < |r| ==> r[i] != []
    ensures forall i :: 0 <= i < |words| && words[i] != [] ==> words[i] in r
    ensures IsSubseq(r, words)
    ensures forall w :: w != [] ==> multiset(r)[w] == multiset(words)[w]
  {
    FilterIsSubseq(NonEmpty, words);
    FilterCounts(NonEmpty, words);
    Filter(NonEmpty, words)
  }

  /** The words of a query: lower-cased, split on single spaces, empty pieces dropped. */
  function QueryWords(query: string): seq<string> {
    RemoveEmptyStrings(Split(Lower(query), " "))
  }

  /** The tokens of a line: lower-cased, brackets turned into spaces, split on spaces, empty pieces dropped, each stripped. */
  function LineWords(line: string): seq<string> {
    var words := RemoveEmptyStrings(Split(Replace(Replace(Lower(line), "[", " "), "]", " "), " "));
    seq(|words|, i requires 0 <= i < |words| => Strip(words[i]))
  }

  /** `checkWordForWordMatch`: every query word is one of the line's tokens. */
  predicate WordForWord(line: string, query: string) {
    var words, tokens := QueryWords(query), LineWords(line);
    forall i :: 0 <= i < |words| ==> words[i] in tokens
  }

  /** The test `getLinesThatContainAllWords` applies: every query word is a substring of the cleaned, lower-cased line. */
  predicate ContainsAllWords(line: string, query: string) {
    var words, checked := QueryWords(query), Lower(CleanLine(line));
    forall i :: 0 <= i < |words| ==> Contains(checked, words[i])
  }

  /** Short queries and short upper-case queries (acronyms) are matched word for word. */
  predicate IsShortQuery(query: string) {
    |query| <= 2 || (query == Upper(query) && |query| <= 5)
  }

  /** The test `filterLines` applies to each line of a query. */
  predicate Matches(line: string, query: string) {
    if IsShortQuery(query) then WordForWord(line, query) else ContainsAllWords(line, query)
  }

  function FullWordTest(query: string): string -> bool {
    line => WordForWord(line, query)
  }

  function AllWordsTest(query: string): string -> bool {
    line => ContainsAllWords(line, query)
  }

  function MatchTest(query: string): string -> bool {
    line => Matches(line, query)
  }

  /** `getOnlyFullWordMatches` */
  function FullWordMatches(lines: seq<string>, query: string): seq<string> {
    Filter(FullWordTest(query), lines)
  }

  /** `getLinesThatContainAllWords` */
  function AllWordsMatches(lines: seq<string>, query: string): seq<string> {
    Filter(AllWordsTest(query), lines)
  }

  /** `filterLines`: word-for-word matching for short queries, substring matching otherwise. */
  function FilterLines(lines: seq<string>, query: string): seq<string> {
    if IsShortQuery(query) then FullWordMatches(lines, query) else AllWordsMatches(lines, query)
  }

  /** `moveBetterMatchesToFront`: word-for-word matches first, each group in its original order. */
  function MoveBetterMatchesToFront(lines: seq<string>, query: string): seq<string> {
    StablePartition(FullWordTest(query), lines)
  }

  /** A section-title line: its first character is '#'. */
  predicate IsTitle(line: string) {
    |line| > 0 && line[0] == '#'
  }

  /**
   `filterOutTitleLines`: the lines that are not titles and the title lines,
   each in order. The script reads `line[0]`, so every line must be non-empty.
   */
  function FilterOutTitleLines(lines: seq<string>): (r: (seq<string>, seq<string>))
    requires forall i :: 0 <= i < |lines| ==> lines[i] != []
    ensures multiset(r.0) + multiset(r.1) == multiset(lines)
    ensures forall i :: 0 <= i < |r.0| ==> r.0[i] != [] && r.0[i][0] != '#'
    ensures forall i :: 0 <= i < |r.1| ==> r.1[i] != [] && r.1[i][0] == '#'
    ensures IsSubseq(r.0, lines) && IsSubseq(r.1, lines)
  {
    FilterPartition(IsTitle, lines);
    FilterIsSubseq(IsTitle, lines);
    FilterIsSubseq(Not(IsTitle), lines);
    (Filter(Not(IsTitle), lines), Filter(IsTitle, lines))
  }

  // ---------------------------------------------------------------------------
  // Properties
  // ---------------------------------------------------------------------------

  /**
   `filterLines` keeps exactly the lines that pass the routed test, in their
   original order: for a short query (at most two characters, or an
   upper-case query of at most five) the word-for-word test, otherwise the
   all-words substring test.
   */
  lemma FilterLinesSpec(lines: seq<string>, query: string)
    ensures var r := FilterLines(lines, query);
      && r == Filter(MatchTest(query), lines)
      && IsSubseq(r, lines)
      && (forall i :: 0 <= i < |r| ==> r[i] in lines && Matches(r[i], query))
      && (forall i :: 0 <= i < |lines| && Matches(lines[i], query) ==> lines[i] in r)
      && (IsShortQuery(query) ==> forall i :: 0 <= i < |r| ==> WordForWord(r[i], query))
      && (!IsShortQuery(query) ==> forall i :: 0 <= i < |r| ==> ContainsAllWords(r[i], query))
  {
    if IsShortQuery(query) {
      FilterCongruent(FullWordTest(query), MatchTest(query), lines);
    } else {
      FilterCongruent(AllWordsTest(query), MatchTest(query), lines);
    }
    FilterIsSubseq(MatchTest(query), lines);
  }

  /** `getOnlyFullWordMatches` keeps exactly the word-for-word matches, in order. */
  lemma FullWordMatchesSpec(lines: seq<string>, query: string)
    ensures var r := FullWordMatches(lines, query);
      && IsSubseq(r, lines)
      && (forall i :: 0 <= i < |r| ==> r[i] in lines && WordForWord(r[i], query))
      && (forall i :: 0 <= i < |lines| && WordForWord(lines[i], query) ==> lines[i] in r)
      && (forall l :: multiset(r)[l] == if WordForWord(l, query) then multiset(lines)[l] else 0)
  {
    FilterIsSubseq(FullWordTest(query), lines);
    FilterCounts(FullWordTest(query), lines);
  }

  /**
   `moveBetterMatchesToFront` is a permutation of its input in which the
   word-for-word matches come first; each of the two groups keeps the input
   order.
   */
  lemma MoveBetterMatchesToFrontSpec(lines: seq<string>, query: string)
    ensures var r, k := MoveBetterMatchesToFront(lines, query), |FullWordMatches(lines, query)|;
      && multiset(r) == multiset(lines)
      && (forall i :: 0 <= i < k ==> WordForWord(r[i], query))
      && (forall i :: k <= i < |r| ==> !WordForWord(r[i], query))
      && IsSubseq(r[..k], lines)
      && IsSubseq(r[k..], lines)
  {
    StablePartitionSpec(FullWordTest(query), lines);
  }

  /**
   For a short query the candidates already match word for word: narrowing
   them to full-word matches and bumping full-word matches both leave them as
   they are.
   */
  lemma ShortQueryRankingIsIdentity(lines: seq<string>, query: string)
    requires IsShortQuery(query)
    ensures FullWordMatches(FilterLines(lines, query), query) == FilterLines(lines, query)
    ensures MoveBetterMatchesToFront(FilterLines(lines, query), query) == FilterLines(lines, query)
  {
    var found := FilterLines(lines, query);
    FilterKeepsAll(FullWordTest(query), found);
    NoneSurvive(Not(FullWordTest(query)), found);
    assert MoveBetterMatchesToFront(found, query) == found + [];
  }

  /**
   A query that is non-empty and does not start with whitespace (as any
   stripped, non-empty query) has a first word that is not empty.
   */
  lemma QueryHasWord(query: string)
    requires query != [] && !IsSpace(query[0])
    ensures |QueryWords(query)| > 0 && QueryWords(query)[0] != []
  {
    var low := Lower(query);
    assert low[0] == LowerChar(query[0]) != ' ';
    var parts := Split(low, " ");
    match Find(low, " ")
    case None =>
      assert parts == [low];
    case Some(k) =>
      assert k != 0 by {
        assert low[0..1] != " ";
      }
      assert parts[0] == low[..k];
    assert parts[0] != [];
    assert parts == [parts[0]] + parts[1..];
    FilterAppend(NonEmpty, [parts[0]], parts[1..]);
    assert Filter(NonEmpty, [parts[0]]) == [parts[0]] by {
      assert [parts[0]][1..] == [];
    }
  }

  /**
   Such a query matches no empty line, whichever test applies; so everything
   `filterLines` returns has a first character for `filterOutTitleLines`.
   */
  lemma EmptyLineNeverMatches(query: string)
    requires query != [] && !IsSpace(query[0])
    ensures !WordForWord("", query)
    ensures !ContainsAllWords("", query)
  {
    QueryHasWord(query);
    var w := QueryWords(query)[0];
    assert Lower("") == "";
    assert Replace("", "[", " ") == "";
    assert Replace("", "]", " ") == "";
    assert Split("", " ") == [""];
    assert RemoveEmptyStrings([""]) == [] by {
      assert [""][1..] == [];
    }
    assert LineWords("") == [];
    assert CleanLine("") == "";
    NothingInEmpty(w);
  }

  /** The acronym rule: "NBA" has three characters but is matched word for word. */
  lemma AcronymIsShort()
    ensures IsShortQuery("NBA")
    ensures !IsShortQuery("nba")
  {
    assert Upper("NBA") == "NBA";
    assert Upper("nba")[0] == 'N';
  }
}
