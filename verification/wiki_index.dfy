/**
 Building the searchable index: one chunk of lines per wiki document
 (`dlWikiChunk`), concatenated in configuration order
 (`alternativeWikiIndexing`). Downloads are a parameter: a `Fetcher` maps a
 URL to the response text, or to `None` when the request fails.
 */
module WikiIndex {
  import opened Wrappers
  import opened Text
  import opened Seqs
  import Annotator
  import Base64Page
  import Matching

  const NSFWPIRACY_RENTRY_URL := "https://rentry.co/freemediafuckyeah/raw"
  const GITHUB_RAW_HOST := "https://raw.githubusercontent.com/"
  const GITHUB_RAW_DOCS_URL_PREFIX := GITHUB_RAW_HOST + "fmhy/FMHYedit/main/docs/"

  /** A wiki document: its file name, its icon, and a sub-URL or an absolute URL. */
  datatype DocSource = DocSource(fileName: string, icon: string, location: string)

  /** Response text for a URL, or `None` when the request raised. */
  type Fetcher = string -> Option<string>

  const WIKI_CHUNK_CONFIGS: seq<DocSource> := [
    DocSource("VideoPiracyGuide.md", "📺", "video"),
    DocSource("AI.md", "🤖", "ai"),
    DocSource("Android-iOSGuide.md", "📱", "android"),
    DocSource("AudioPiracyGuide.md", "🎵", "audio"),
    DocSource("DownloadPiracyGuide.md", "💾", "download"),
    DocSource("EDUPiracyGuide.md", "🧠", "edu"),
    DocSource("GamingPiracyGuide.md", "🎮", "games"),
    DocSource("AdblockVPNGuide.md", "📛", "adblock-vpn-privacy"),
    DocSource("System-Tools.md", "💻", "system-tools"),
    DocSource("File-Tools.md", "🗃️", "file-tools"),
    DocSource("Internet-Tools.md", "🔗", "internet-tools"),
    DocSource("Social-Media-Tools.md", "💬", "social-media"),
    DocSource("Text-Tools.md", "📝", "text-tools"),
    DocSource("Video-Tools.md", "📼", "video-tools"),
    DocSource("MISCGuide.md", "📂", "misc"),
    DocSource("ReadingPiracyGuide.md", "📗", "reading"),
    DocSource("TorrentPiracyGuide.md", "🌀", "torrent"),
    DocSource("img-tools.md", "📷", "img-tools"),
    DocSource("gaming-tools.md", "👾", "gaming-tools"),
    DocSource("LinuxGuide.md", "🐧🍏", "linux"),
    DocSource("DEVTools.md", "🖥️", "dev-tools"),
    DocSource("Non-English.md", "🌏", "non-eng"),
    DocSource("STORAGE.md", "🗄️", "storage")
  ]

  const BASE64_SOURCE := DocSource("base64.md", "🔑", Base64Page.BASE64_RENTRY_URL)
  const SAIDIT_HOST := "https://saidit.net"
  const NSFW_SOURCE := DocSource("NSFWPiracy.md", "🌶", SAIDIT_HOST + "/s/freemediafuckyeah/wiki/index")

  /** The documents `alternativeWikiIndexing` downloads, in order. */
  const ALL_SOURCES := WIKI_CHUNK_CONFIGS + [BASE64_SOURCE, NSFW_SOURCE]

  /**
   Where `dlWikiChunk` downloads a document from: the two rentry pages from
   their raw endpoints, every other document from the GitHub docs folder
   under its lower-cased name.
   */
  function DownloadURL(fileName: string): (r: string)
    ensures StartsWith(r, "https://")
    ensures fileName == "NSFWPiracy.md" || fileName == "base64.md" ==>
      StartsWith(r, "https://rentry.co/") && |r| >= 4 && r[|r| - 4..] == "/raw"
    ensures fileName != "NSFWPiracy.md" && fileName != "base64.md" ==>
      && r == GITHUB_RAW_DOCS_URL_PREFIX + Lower(fileName)
      && forall i :: |GITHUB_RAW_DOCS_URL_PREFIX| <= i < |r| ==> !('A' <= r[i] <= 'Z')
  {
    LowerShape(fileName);
    assert NSFWPIRACY_RENTRY_URL[..18] == "https://rentry.co/";
    assert Base64Page.BASE64_RENTRY_URL[..18] == "https://rentry.co/";
    assert GITHUB_RAW_DOCS_URL_PREFIX[..8] == GITHUB_RAW_HOST[..8] == "https://";
    if fileName == "NSFWPiracy.md" then NSFWPIRACY_RENTRY_URL
    else if fileName != "base64.md" then GITHUB_RAW_DOCS_URL_PREFIX + Lower(fileName)
    else Base64Page.BASE64_RENTRY_URL + "/raw"
  }

  /** The character test `x != c`. */
  function NotChar(c: char): char -> bool {
    x => x != c
  }

  /** `s.replace(c, "")` drops every `c` and keeps every other character in order. */
  lemma {:induction false} RemoveCharIsFilter(s: string, c: char)
    ensures Replace(s, [c], "") == Filter(NotChar(c), s)
    decreases |s|
  {
    if s != [] {
      RemoveCharIsFilter(s[1..], c);
      assert StartsWith(s, [c]) <==> s[0] == c by {
        assert s[..1] == [s[0]];
      }
      assert s[|[c]|..] == s[1..];
    }
  }

  /** The downloaded text; carriage returns are dropped from the two rentry pages only. */
  function PageText(fileName: string, response: string): (page: string)
    ensures fileName == "NSFWPiracy.md" || fileName == "base64.md" ==> page == Filter(NotChar('\r'), response)
    ensures fileName == "NSFWPiracy.md" || fileName == "base64.md" ==> '\r' !in page
    ensures fileName != "NSFWPiracy.md" && fileName != "base64.md" ==> page == response
  {
    if fileName == "NSFWPiracy.md" || fileName == "base64.md" then
      ReplaceRemovesChar(response, '\r', "");
      RemoveCharIsFilter(response, '\r');
      Replace(response, "\r", "")
    else response
  }

  /** The page's sub-URL: the file name without ".md", lower-cased. */
  function PageSubURL(fileName: string): (r: string)
    ensures |r| <= |fileName|
    ensures forall i :: 0 <= i < |r| ==> !('A' <= r[i] <= 'Z')
  {
    Matching.ReplaceShrinks(fileName, ".md", "");
    LowerShape(Replace(fileName, ".md", ""));
    Lower(Replace(fileName, ".md", ""))
  }

  /** In "<name>.md", with no ".md" in the stem, no ".md" starts inside the stem. */
  lemma NoEarlierExtension(name: string, j: nat)
    requires !Contains(name, ".md") && j < |name|
    ensures !OccursAt(name + ".md", ".md", j)
  {
    var s := name + ".md";
    if j + 3 <= |name| {
      if OccursAt(s, ".md", j) {
        assert name[j..j + 3] == s[j..j + 3];
        ContainsAt(name, ".md", j);
      }
    } else if j + 3 <= |s| {
      assert s[j + 2] == ".md"[j + 2 - |name|];
      assert s[j..j + 3][2] == s[j + 2];
    }
  }

  /** For a file name "<name>.md" whose stem has no ".md" in it, the sub-URL is the lower-cased stem. */
  lemma PageSubURLOfMarkdown(name: string)
    requires !Contains(name, ".md")
    ensures PageSubURL(name + ".md") == Lower(name)
  {
    var s := name + ".md";
    assert OccursAt(s, ".md", |name|) by {
      assert s[|name|..|name| + 3] == ".md";
    }
    ContainsAt(s, ".md", |name|);
    forall j: nat | j < |name|
      ensures !OccursAt(s, ".md", j)
    {
      NoEarlierExtension(name, j);
    }
    var k := Find(s, ".md").value;
    assert k == |name|;
    ReplaceFirst(s, ".md", "", k);
    assert s[..k] == name && s[k + 3..] == [];
  }

  predicate IsAbsolute(src: DocSource) {
    StartsWith(src.location, "http")
  }

  /** The sub-URL handed to `addPretext`: an absolute location as it is, otherwise the page's own sub-URL. */
  function SubURLFor(src: DocSource): string {
    if IsAbsolute(src) then src.location else PageSubURL(src.fileName)
  }

  /** The link target every pretext of a document points at (before the section anchor). */
  function SourceLink(src: DocSource): string {
    if IsAbsolute(src) then src.location else Matching.PAGES_DEV_SITE_URL_PREFIX + PageSubURL(src.fileName)
  }

  /**
   The lines of an ordinary (non-base64) document with their pretexts. An
   absolute location is the whole link, so the base URL is empty.
   */
  function ChunkPage(src: DocSource, page: string): seq<string> {
    var baseURL := if IsAbsolute(src) then "" else Matching.PAGES_DEV_SITE_URL_PREFIX;
    Annotator.AddPretext(Split(page, "\n"), src.icon, baseURL, SubURLFor(src))
  }

  /** `dlWikiChunk` as written: the base URL passed on is always the fmhy.net prefix. */
  function ChunkPageAsWritten(src: DocSource, page: string): seq<string> {
    Annotator.AddPretext(Split(page, "\n"), src.icon, Matching.PAGES_DEV_SITE_URL_PREFIX, SubURLFor(src))
  }

  /**
   `dlWikiChunk` with its two faults corrected (see `DlWikiChunkAsWritten`):
   nothing when the download fails; the base64 page by sections, with an
   invalid token kept as it is; every other page line by line, linked to its
   absolute location when it has one.
   */
  function DlWikiChunk(src: DocSource, fetch: Fetcher, decode: Base64Page.Decoder): (r: seq<string>)
    ensures fetch(DownloadURL(src.fileName)).None? ==> r == []
  {
    match fetch(DownloadURL(src.fileName))
    case None => []
    case Some(response) =>
      var page := PageText(src.fileName, response);
      if src.fileName == "base64.md" then
        Base64Page.ExtractBase64Sections(page, Base64Page.DoBase64Decoding, decode)
      else ChunkPage(src, page)
  }

  /** `dlWikiChunk` as written: the wrong base URL for absolute locations, and an invalid base64 token raises. */
  function DlWikiChunkAsWritten(src: DocSource, fetch: Fetcher, decode: Base64Page.Decoder): Result<seq<string>, Base64Page.DecodeError> {
    match fetch(DownloadURL(src.fileName))
    case None => Success([])
    case Some(response) =>
      var page := PageText(src.fileName, response);
      if src.fileName == "base64.md" then
        Base64Page.ExtractBase64SectionsAsWritten(page, Base64Page.DoBase64Decoding, decode)
      else Success(ChunkPageAsWritten(src, page))
  }

  /** The chunks of several documents, flattened in order. */
  function BuildIndex(sources: seq<DocSource>, fetch: Fetcher, decode: Base64Page.Decoder): seq<string> {
    Flatten(Chunks(sources, fetch, decode))
  }

  /**
   `alternativeWikiIndexing` built from the corrected `DlWikiChunk`: every
   line carries a pretext, so none is a section title.
   */
  function AlternativeWikiIndexing(fetch: Fetcher, decode: Base64Page.Decoder): (r: seq<string>)
    ensures forall i :: 0 <= i < |r| ==> r[i] != [] && r[i][0] == '['
    ensures Matching.FilterOutTitleLines(r).1 == []
  {
    IndexHasNoTitles(ALL_SOURCES, fetch, decode);
    BuildIndex(ALL_SOURCES, fetch, decode)
  }

  /** The index as the script builds it: the documents in order, and the first exception aborts it. */
  function BuildIndexAsWritten(sources: seq<DocSource>, fetch: Fetcher, decode: Base64Page.Decoder): Result<seq<string>, Base64Page.DecodeError>
    decreases |sources|
  {
    if sources == [] then Success([])
    else match DlWikiChunkAsWritten(sources[0], fetch, decode)
      case Failure(e) => Failure(e)
      case Success(chunk) =>
        match BuildIndexAsWritten(sources[1..], fetch, decode)
        case Failure(e) => Failure(e)
        case Success(rest) => Success(chunk + rest)
  }

  /** `alternativeWikiIndexing` as written; a failure is the exception that aborts `getAllLines`. */
  function AlternativeWikiIndexingAsWritten(fetch: Fetcher, decode: Base64Page.Decoder): Result<seq<string>, Base64Page.DecodeError> {
    BuildIndexAsWritten(ALL_SOURCES, fetch, decode)
  }

  // ---------------------------------------------------------------------------
  // Properties
  // ---------------------------------------------------------------------------

  /**
   Every line of an ordinary document links to the document itself: the
   absolute location when there is one, otherwise the fmhy.net page, followed
   by the section anchor.
   */
  lemma ChunkPageLinks(src: DocSource, page: string)
    ensures var r, content := ChunkPage(src, page), Annotator.ContentLines(Split(page, "\n"));
      && |r| == |content|
      && forall i :: 0 <= i < |r| ==> exists ctx: Annotator.Context ::
        Annotator.WellFormed(ctx) && r[i] == Annotator.LinkedLine(src.icon, ctx, SourceLink(src), content[i])
  {
    var baseURL := if IsAbsolute(src) then "" else Matching.PAGES_DEV_SITE_URL_PREFIX;
    var link := baseURL + SubURLFor(src);
    assert link == SourceLink(src);
    Annotator.AddPretextShape(Split(page, "\n"), src.icon, baseURL, SubURLFor(src));
    var r, content := ChunkPage(src, page), Annotator.ContentLines(Split(page, "\n"));
    forall i | 0 <= i < |r|
      ensures exists ctx: Annotator.Context ::
        Annotator.WellFormed(ctx) && r[i] == Annotator.LinkedLine(src.icon, ctx, SourceLink(src), content[i])
    {
      var ctx: Annotator.Context :| Annotator.WellFormed(ctx) && r[i] == Annotator.LinkedLine(src.icon, ctx, link, content[i]);
    }
  }

  /**
   As written, every line of an ordinary document links to the fmhy.net
   prefix followed by the sub-URL, even when that sub-URL is an absolute link.
   */
  lemma ChunkPageAsWrittenLinks(src: DocSource, page: string)
    ensures var r, content := ChunkPageAsWritten(src, page), Annotator.ContentLines(Split(page, "\n"));
      && |r| == |content|
      && forall i :: 0 <= i < |r| ==> exists ctx: Annotator.Context ::
        Annotator.WellFormed(ctx)
        && r[i] == Annotator.LinkedLine(src.icon, ctx, Matching.PAGES_DEV_SITE_URL_PREFIX + SubURLFor(src), content[i])
  {
    Annotator.AddPretextShape(Split(page, "\n"), src.icon, Matching.PAGES_DEV_SITE_URL_PREFIX, SubURLFor(src));
  }

  /** For a document with a sub-URL the script as written and the corrected model agree. */
  lemma RelativeSourceUnaffected(src: DocSource, fetch: Fetcher, decode: Base64Page.Decoder)
    requires !IsAbsolute(src) && src.fileName != "base64.md"
    ensures DlWikiChunkAsWritten(src, fetch, decode) == Success(DlWikiChunk(src, fetch, decode))
  {
  }

  /** Every configured document has a sub-URL, so the wrong base URL only reaches the NSFW page. */
  lemma ConfiguredSourcesAreRelative()
    ensures forall i :: 0 <= i < |WIKI_CHUNK_CONFIGS| ==> !IsAbsolute(WIKI_CHUNK_CONFIGS[i])
    ensures IsAbsolute(NSFW_SOURCE)
  {
    forall i | 0 <= i < |WIKI_CHUNK_CONFIGS|
      ensures !IsAbsolute(WIKI_CHUNK_CONFIGS[i])
    {
      var loc := WIKI_CHUNK_CONFIGS[i].location;
      assert loc != [] && loc[0] != 'h';
      NotHttp(loc);
    }
    NsfwIsAbsolute();
  }

  lemma NotHttp(s: string)
    requires s != [] && s[0] != 'h'
    ensures !StartsWith(s, "http")
  {
    assert "http"[0] == 'h';
  }

  lemma NsfwIsAbsolute()
    ensures IsAbsolute(NSFW_SOURCE)
  {
    var loc := NSFW_SOURCE.location;
    assert loc[..4] == SAIDIT_HOST[..4] == "http";
  }

  /**
   The NSFW page as written: its one-line page "x" is emitted with the
   fmhy.net prefix glued in front of the absolute saidit.net link; the
   corrected model links to saidit.net itself.
   */
  lemma NsfwLinkAsWritten()
    ensures ChunkPageAsWritten(NSFW_SOURCE, "x")
      == ["[" + NSFW_SOURCE.icon + "](" + Matching.PAGES_DEV_SITE_URL_PREFIX + NSFW_SOURCE.location + ") ► x"]
    ensures ChunkPage(NSFW_SOURCE, "x")
      == ["[" + NSFW_SOURCE.icon + "](" + NSFW_SOURCE.location + ") ► x"]
  {
    NsfwIsAbsolute();
    assert Split("x", "\n") == ["x"] by {
      ContainsChar("x", '\n');
    }
    assert HasLetter("x") by {
      assert IsAlpha("x"[0]);
    }
    assert Annotator.DropBullet("x") == "x";
    OneContentLine(NSFW_SOURCE.icon, Matching.PAGES_DEV_SITE_URL_PREFIX, NSFW_SOURCE.location, "x");
    OneContentLine(NSFW_SOURCE.icon, "", NSFW_SOURCE.location, "x");
    var icon, loc, prefix := NSFW_SOURCE.icon, NSFW_SOURCE.location, Matching.PAGES_DEV_SITE_URL_PREFIX;
    assert "[" + icon + "](" + prefix + loc + ") ► " + "x" == "[" + icon + "](" + prefix + loc + ") ► x";
    assert "[" + icon + "](" + "" + loc + ") ► " + "x" == "[" + icon + "](" + loc + ") ► x";
  }

  /**
   A page of one content line gives one line: the bare pretext, with no
   category and no anchor, then the line without its list marker.
   */
  lemma OneContentLine(icon: string, baseURL: string, subURL: string, line: string)
    requires Annotator.IsContent(line)
    ensures Annotator.AddPretext([line], icon, baseURL, subURL)
      == ["[" + icon + "](" + baseURL + subURL + ") ► " + Annotator.DropBullet(line)]
  {
    var g, page := Annotator.GrammarFor(subURL), Annotator.Page(icon, baseURL, subURL);
    var e := Annotator.Emit(page, Annotator.Initial, line);
    assert [line][1..] == [];
    assert Annotator.Annotate(g, page, Annotator.Initial, [line]) == [e] + Annotator.Annotate(g, page, Annotator.Initial, []);
    assert e == "[" + icon + "](" + baseURL + subURL + ") ► " + Annotator.DropBullet(line);
  }

  /** The chunk of each document, in order. */
  function Chunks(sources: seq<DocSource>, fetch: Fetcher, decode: Base64Page.Decoder): (r: seq<seq<string>>)
    ensures |r| == |sources|
  {
    seq(|sources|, i requires 0 <= i < |sources| => DlWikiChunk(sources[i], fetch, decode))
  }

  lemma ChunksAppend(a: seq<DocSource>, b: seq<DocSource>, fetch: Fetcher, decode: Base64Page.Decoder)
    ensures Chunks(a + b, fetch, decode) == Chunks(a, fetch, decode) + Chunks(b, fetch, decode)
  {
    var whole, left, right := Chunks(a + b, fetch, decode), Chunks(a, fetch, decode), Chunks(b, fetch, decode);
    forall i | 0 <= i < |whole|
      ensures whole[i] == (left + right)[i]
    {
      if i < |a| {
        assert (a + b)[i] == a[i];
      } else {
        assert (a + b)[i] == b[i - |a|];
      }
    }
  }

  /** A failed download contributes nothing: the index is the index of the other documents. */
  lemma FailedDownloadSkipped(a: seq<DocSource>, src: DocSource, b: seq<DocSource>, fetch: Fetcher, decode: Base64Page.Decoder)
    requires fetch(DownloadURL(src.fileName)).None?
    ensures BuildIndex(a + [src] + b, fetch, decode) == BuildIndex(a + b, fetch, decode)
  {
    var ia, ib := BuildIndex(a, fetch, decode), BuildIndex(b, fetch, decode);
    assert BuildIndex(a + [src], fetch, decode) == ia by {
      BuildIndexAppend(a, [src], fetch, decode);
      FailedChunkEmpty(src, fetch, decode);
      assert ia + [] == ia;
    }
    BuildIndexAppend(a + [src], b, fetch, decode);
    BuildIndexAppend(a, b, fetch, decode);
  }

  lemma FailedChunkEmpty(src: DocSource, fetch: Fetcher, decode: Base64Page.Decoder)
    requires fetch(DownloadURL(src.fileName)).None?
    ensures BuildIndex([src], fetch, decode) == []
  {
    var chunks := Chunks([src], fetch, decode);
    assert chunks[0] == DlWikiChunk(src, fetch, decode) == [];
    assert chunks[1..] == [];
    assert Flatten(chunks) == chunks[0] + Flatten(chunks[1..]);
  }

  /** The index of several documents is the index of each, concatenated in order. */
  lemma BuildIndexAppend(a: seq<DocSource>, b: seq<DocSource>, fetch: Fetcher, decode: Base64Page.Decoder)
    ensures BuildIndex(a + b, fetch, decode) == BuildIndex(a, fetch, decode) + BuildIndex(b, fetch, decode)
  {
    ChunksAppend(a, b, fetch, decode);
    FlattenAppend(Chunks(a, fetch, decode), Chunks(b, fetch, decode));
  }

  /** A line is in the index exactly when it is in the chunk of one of the documents. */
  lemma IndexMember(sources: seq<DocSource>, fetch: Fetcher, decode: Base64Page.Decoder, line: string)
    ensures line in BuildIndex(sources, fetch, decode)
      <==> exists i :: 0 <= i < |sources| && line in DlWikiChunk(sources[i], fetch, decode)
  {
    var chunks := Chunks(sources, fetch, decode);
    FlattenMember(chunks, line);
    if exists i :: 0 <= i < |sources| && line in DlWikiChunk(sources[i], fetch, decode) {
      var i :| 0 <= i < |sources| && line in DlWikiChunk(sources[i], fetch, decode);
      assert line in chunks[i];
    }
  }

  /** Every line of a chunk starts with "[", the opening of its pretext. */
  lemma ChunkLinesStartWithBracket(src: DocSource, fetch: Fetcher, decode: Base64Page.Decoder)
    ensures var r := DlWikiChunk(src, fetch, decode);
      forall i :: 0 <= i < |r| ==> r[i] != [] && r[i][0] == '['
  {
    var r := DlWikiChunk(src, fetch, decode);
    match fetch(DownloadURL(src.fileName))
    case None =>
    case Some(response) =>
      var page := PageText(src.fileName, response);
      if src.fileName == "base64.md" {
        Base64Page.ExtractSectionsSpec(page, Base64Page.DoBase64Decoding, decode);
        forall i | 0 <= i < |r|
          ensures r[i] != [] && r[i][0] == '['
        {
          assert r[i][..|Base64Page.SectionPretext|] == Base64Page.SectionPretext;
          assert Base64Page.SectionPretext[0] == '[';
        }
      } else {
        var baseURL := if IsAbsolute(src) then "" else Matching.PAGES_DEV_SITE_URL_PREFIX;
        Annotator.AddPretextStartsWithIcon(Split(page, "\n"), src.icon, baseURL, SubURLFor(src));
        forall i | 0 <= i < |r|
          ensures r[i] != [] && r[i][0] == '['
        {
          assert r[i][..|"[" + src.icon|] == "[" + src.icon;
        }
      }
  }

  /**
   Every index line starts with "[", so none is a section title: in this
   indexing mode the title list `filterOutTitleLines` returns is always empty.
   */
  lemma IndexHasNoTitles(sources: seq<DocSource>, fetch: Fetcher, decode: Base64Page.Decoder)
    ensures var index := BuildIndex(sources, fetch, decode);
      && (forall i :: 0 <= i < |index| ==> index[i] != [] && index[i][0] == '[')
      && Matching.FilterOutTitleLines(index).1 == []
  {
    var index := BuildIndex(sources, fetch, decode);
    forall k | 0 <= k < |index|
      ensures index[k] != [] && index[k][0] == '['
    {
      IndexMember(sources, fetch, decode, index[k]);
      var i :| 0 <= i < |sources| && index[k] in DlWikiChunk(sources[i], fetch, decode);
      ChunkLinesStartWithBracket(sources[i], fetch, decode);
    }
    NoneSurvive(Matching.IsTitle, index);
  }

  /** The chunk of `source` raises in the code as written. */
  predicate ChunkFails(source: DocSource, fetch: Fetcher, decode: Base64Page.Decoder)
  {
    DlWikiChunkAsWritten(source, fetch, decode).Failure?
  }

  /** Building the index as written fails exactly when the first chunk or the rest fails. */
  lemma IndexAsWrittenStep(sources: seq<DocSource>, fetch: Fetcher, decode: Base64Page.Decoder)
    requires sources != []
    ensures BuildIndexAsWritten(sources, fetch, decode).Failure?
      <==> ChunkFails(sources[0], fetch, decode) || BuildIndexAsWritten(sources[1..], fetch, decode).Failure?
  {
  }

  /** Some document of a non-empty list fails exactly when the first one or one of the rest does. */
  lemma SomeChunkFailsStep(sources: seq<DocSource>, fetch: Fetcher, decode: Base64Page.Decoder)
    requires sources != []
    ensures (exists i :: 0 <= i < |sources| && ChunkFails(sources[i], fetch, decode))
      <==> ChunkFails(sources[0], fetch, decode)
           || exists i :: 0 <= i < |sources[1..]| && ChunkFails(sources[1..][i], fetch, decode)
  {
    if exists i :: 0 <= i < |sources| && ChunkFails(sources[i], fetch, decode) {
      var i :| 0 <= i < |sources| && ChunkFails(sources[i], fetch, decode);
      if i > 0 {
        assert sources[1..][i - 1] == sources[i];
      }
    }
    if exists i :: 0 <= i < |sources[1..]| && ChunkFails(sources[1..][i], fetch, decode) {
      var i :| 0 <= i < |sources[1..]| && ChunkFails(sources[1..][i], fetch, decode);
      assert sources[i + 1] == sources[1..][i];
    }
  }

  /** The index as written fails exactly when the chunk of some document fails. */
  lemma {:induction false} IndexAsWrittenFails(sources: seq<DocSource>, fetch: Fetcher, decode: Base64Page.Decoder)
    ensures BuildIndexAsWritten(sources, fetch, decode).Failure?
      <==> exists i :: 0 <= i < |sources| && ChunkFails(sources[i], fetch, decode)
    decreases |sources|
  {
    if sources != [] {
      IndexAsWrittenFails(sources[1..], fetch, decode);
      IndexAsWrittenStep(sources, fetch, decode);
      SomeChunkFailsStep(sources, fetch, decode);
    }
  }

  /** The index of a list of documents is the first document's chunk followed by the index of the rest. */
  lemma BuildIndexCons(sources: seq<DocSource>, fetch: Fetcher, decode: Base64Page.Decoder)
    requires sources != []
    ensures BuildIndex(sources, fetch, decode) == DlWikiChunk(sources[0], fetch, decode) + BuildIndex(sources[1..], fetch, decode)
  {
    var head := sources[0];
    assert sources == [head] + sources[1..];
    BuildIndexAppend([head], sources[1..], fetch, decode);
    assert Chunks([head], fetch, decode) == [DlWikiChunk(head, fetch, decode)];
    FlattenSingle(DlWikiChunk(head, fetch, decode));
  }

  /** Where every document's chunk as written is the corrected chunk, the two indexes agree. */
  lemma {:induction false} IndexAsWrittenAgrees(sources: seq<DocSource>, fetch: Fetcher, decode: Base64Page.Decoder)
    requires forall i :: 0 <= i < |sources| ==>
      DlWikiChunkAsWritten(sources[i], fetch, decode) == Success(DlWikiChunk(sources[i], fetch, decode))
    ensures BuildIndexAsWritten(sources, fetch, decode) == Success(BuildIndex(sources, fetch, decode))
    decreases |sources|
  {
    if sources != [] {
      assert forall i :: 0 <= i < |sources[1..]| ==> sources[1..][i] == sources[i + 1];
      IndexAsWrittenAgrees(sources[1..], fetch, decode);
      BuildIndexCons(sources, fetch, decode);
    } else {
      assert Chunks(sources, fetch, decode) == [];
    }
  }
}
