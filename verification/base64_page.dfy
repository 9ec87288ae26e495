/**
 The base64 page: its "***"-separated sections become one line each, with
 backticked base64 tokens replaced by their decoded text.

 The decoder itself (`base64.b64decode` followed by `bytes.decode()`) is a
 library call; it is a parameter here, a total function from the padded
 token to what the two calls make of it.
 */
module Base64Page {
  import opened Wrappers
  import opened Text
  import opened Seqs

  const BASE64_RENTRY_URL := "https://rentry.co/FMHYBase64"

  /** `DO_BASE64_DECODING` */
  const DoBase64Decoding := true

  /** The backlink every section of the page is prefixed with. */
  const SectionPretext := "[🔑Base64](" + BASE64_RENTRY_URL + ") ► "

  /** What decoding a padded token gives: text, bytes that are not UTF-8, or an invalid base64 string. */
  datatype Decoded = Utf8Text(text: string) | BadUtf8 | BadBase64

  type Decoder = string -> Decoded

  /** The exception that escapes when a token is not valid base64. */
  datatype DecodeError = Base64Error(token: string)

  /**
   `fix_base64_string`: the shortest extension of `s` by '=' characters whose
   length is a multiple of four; a string already of such a length comes back
   unchanged.
   */
  function FixBase64(s: string): (r: string)
    ensures |r| % 4 == 0
    ensures |s| <= |r| < |s| + 4 && r[..|s|] == s
    ensures forall i :: |s| <= i < |r| ==> r[i] == '='
    ensures |s| % 4 == 0 ==> r == s
  {
    var missing := |s| % 4;
    if missing != 0 then s + seq(4 - missing, _ => '=') else s
  }

  /** Padding is idempotent. */
  lemma FixBase64Idempotent(s: string)
    ensures FixBase64(FixBase64(s)) == FixBase64(s)
  {
  }

  // ---------------------------------------------------------------------------
  // remove_empty_lines
  // ---------------------------------------------------------------------------

  /** A line that `line.strip()` leaves non-empty. */
  predicate NotBlank(line: string) {
    Strip(line) != []
  }

  /** `remove_empty_lines`: the '\n'-separated lines that are not blank, joined again. */
  function RemoveEmptyLines(text: string): string {
    Join(Filter(NotBlank, Split(text, "\n")), "\n")
  }

  /**
   The lines of `remove_empty_lines(text)` are exactly the non-blank lines of
   `text`, in their order; when there are none the result is empty.
   */
  lemma RemoveEmptyLinesSpec(text: string)
    ensures var kept, r := Filter(NotBlank, Split(text, "\n")), RemoveEmptyLines(text);
      && (kept == [] ==> r == "")
      && (kept != [] ==> Split(r, "\n") == kept)
      && (forall i :: 0 <= i < |kept| ==> NotBlank(kept[i]) && '\n' !in kept[i])
  {
    var parts := Split(text, "\n");
    var kept := Filter(NotBlank, parts);
    forall i | 0 <= i < |kept|
      ensures '\n' !in kept[i]
    {
      var j :| 0 <= j < |parts| && parts[j] == kept[i];
      ContainsChar(parts[j], '\n');
    }
    if kept != [] {
      SplitJoin(kept, '\n');
    }
  }

  /** Removing blank lines twice is removing them once. */
  lemma RemoveEmptyLinesIdempotent(text: string)
    ensures RemoveEmptyLines(RemoveEmptyLines(text)) == RemoveEmptyLines(text)
  {
    var kept, r := Filter(NotBlank, Split(text, "\n")), RemoveEmptyLines(text);
    RemoveEmptyLinesSpec(text);
    if kept == [] {
      assert Split("", "\n") == [""];
      assert !NotBlank("");
      assert Filter(NotBlank, Split(r, "\n")) == [];
    } else {
      FilterIdempotent(NotBlank, Split(text, "\n"));
    }
  }

  /** Text on a single line is kept when it is not blank and emptied when it is. */
  lemma RemoveEmptyLinesSingle(text: string)
    requires '\n' !in text
    ensures RemoveEmptyLines(text) == if NotBlank(text) then text else ""
  {
    ContainsChar(text, '\n');
    assert Find(text, "\n").None?;
    assert Split(text, "\n") == [text];
    FilterSingle(NotBlank, text);
  }

  // ---------------------------------------------------------------------------
  // decode_base64_in_backticks
  // ---------------------------------------------------------------------------

  /**
   The replacement for one backticked token: its decoded text, or, when
   decoding fails in either way, the token itself without its backticks.
   */
  function DecodeToken(token: string, decode: Decoder): (r: string)
    ensures decode(FixBase64(token)).Utf8Text? ==> r == decode(FixBase64(token)).text
    ensures !decode(FixBase64(token)).Utf8Text? ==> r == token
  {
    match decode(FixBase64(token))
    case Utf8Text(t) => t
    case _ => token
  }

  /** The position of the first backtick in `t`, if there is one. */
  function ClosingTick(t: string): (k: Option<nat>)
    ensures k.Some? ==> k.value < |t| && t[k.value] == '`' && '`' !in t[..k.value]
    ensures k.None? <==> '`' !in t
    decreases |t|
  {
    if t == [] then None
    else if t[0] == '`' then Some(0)
    else match ClosingTick(t[1..])
      case None => None
      case Some(k) =>
        assert t[..k + 1] == [t[0]] + t[1..][..k];
        Some(k + 1)
  }

  /** The first backtick after a backtick-free text is the one that follows it. */
  lemma {:induction false} ClosingTickAfter(a: string, b: string)
    requires '`' !in a
    ensures ClosingTick(a + "`" + b) == Some(|a|)
    decreases |a|
  {
    if a != [] {
      ClosingTickAfter(a[1..], b);
      assert (a + "`" + b)[1..] == a[1..] + "`" + b;
    }
  }

  /**
   `re.sub(r"`[^`]+`", ..., s)`: every backtick-delimited, non-empty,
   backtick-free token is replaced, scanning left to right; an empty pair
   "``" matches nothing and the scan moves on from its second backtick.
   */
  function DecodeInBackticks(s: string, decode: Decoder): string
    decreases |s|
  {
    if s == [] then []
    else if s[0] != '`' then [s[0]] + DecodeInBackticks(s[1..], decode)
    else match ClosingTick(s[1..])
      case None => s
      case Some(k) =>
        if k == 0 then "`" + DecodeInBackticks(s[1..], decode)
        else DecodeToken(s[1..k + 1], decode) + DecodeInBackticks(s[k + 2..], decode)
  }

  /** The replacement for one token as the script computes it: an invalid base64 token raises. */
  function DecodeTokenAsWritten(token: string, decode: Decoder): Result<string, DecodeError> {
    match decode(FixBase64(token))
    case Utf8Text(t) => Success(t)
    case BadUtf8 => Success(token)
    case BadBase64 => Failure(Base64Error(token))
  }

  /** `decode_base64_in_backticks` as written: the first invalid token aborts the substitution. */
  function DecodeInBackticksAsWritten(s: string, decode: Decoder): (r: Result<string, DecodeError>)
    ensures r.Success? ==> r.value == DecodeInBackticks(s, decode)
    decreases |s|
  {
    if s == [] then Success([])
    else if s[0] != '`' then
      match DecodeInBackticksAsWritten(s[1..], decode)
      case Success(rest) => Success([s[0]] + rest)
      case Failure(e) => Failure(e)
    else match ClosingTick(s[1..])
      case None => Success(s)
      case Some(k) =>
        if k == 0 then
          match DecodeInBackticksAsWritten(s[1..], decode)
          case Success(rest) => Success("`" + rest)
          case Failure(e) => Failure(e)
        else
          match DecodeTokenAsWritten(s[1..k + 1], decode)
          case Failure(e) => Failure(e)
          case Success(t) =>
            match DecodeInBackticksAsWritten(s[k + 2..], decode)
            case Success(rest) => Success(t + rest)
            case Failure(e) => Failure(e)
  }

  /** Text without backticks passes through the substitution unchanged. */
  lemma {:induction false} NoBackticksUnchanged(s: string, decode: Decoder)
    requires '`' !in s
    ensures DecodeInBackticks(s, decode) == s
    decreases |s|
  {
    if s != [] {
      NoBackticksUnchanged(s[1..], decode);
    }
  }

  /** Scanning text that has no backtick, then one token: the token is replaced where it stands. */
  lemma TokenReplaced(a: string, token: string, b: string, decode: Decoder)
    requires '`' !in a && '`' !in token && token != []
    ensures DecodeInBackticks(a + "`" + token + "`" + b, decode) == a + DecodeToken(token, decode) + DecodeInBackticks(b, decode)
  {
    var rest := "`" + token + "`" + b;
    Concat5(a, "`", token, "`", b);
    PlainPrefixKept(a, rest, decode);
    TokenAtStart(token, b, decode);
    Concat3(a, DecodeToken(token, decode), DecodeInBackticks(b, decode));
  }

  lemma Concat5(a: string, b: string, c: string, d: string, e: string)
    ensures a + b + c + d + e == a + (b + c + d + e)
  {
  }

  lemma Concat3(a: string, b: string, c: string)
    ensures a + b + c == a + (b + c)
  {
  }

  /** A backtick-free prefix is copied unchanged and the scan continues after it. */
  lemma {:induction false} PlainPrefixKept(a: string, rest: string, decode: Decoder)
    requires '`' !in a
    ensures DecodeInBackticks(a + rest, decode) == a + DecodeInBackticks(rest, decode)
    decreases |a|
  {
    if a == [] {
      assert a + rest == rest;
    } else {
      assert a + rest == [a[0]] + (a[1..] + rest);
      PlainCharKept(a[0], a[1..] + rest, decode);
      PlainPrefixKept(a[1..], rest, decode);
      assert [a[0]] + (a[1..] + DecodeInBackticks(rest, decode)) == a + DecodeInBackticks(rest, decode);
    }
  }

  /** A character other than a backtick is copied and the scan moves on. */
  lemma PlainCharKept(c: char, rest: string, decode: Decoder)
    requires c != '`'
    ensures DecodeInBackticks([c] + rest, decode) == [c] + DecodeInBackticks(rest, decode)
  {
    assert ([c] + rest)[1..] == rest;
  }

  lemma TokenAtStart(token: string, b: string, decode: Decoder)
    requires '`' !in token && token != []
    ensures DecodeInBackticks("`" + token + "`" + b, decode) == DecodeToken(token, decode) + DecodeInBackticks(b, decode)
  {
    var s := "`" + token + "`" + b;
    assert s[0] == '`';
    assert s[1..] == token + ['`'] + b;
    ClosingTickAfter(token, b);
    assert s[1..|token| + 1] == token;
    assert s[|token| + 2..] == b;
  }

  /**
   Round trip: a token whose padded form decodes to readable text `v` is
   replaced by `v`; any other token is kept, without its backticks.
   */
  lemma DecodeRoundTrip(token: string, v: string, decode: Decoder)
    requires '`' !in token && token != []
    ensures decode(FixBase64(token)) == Utf8Text(v) ==> DecodeInBackticks("`" + token + "`", decode) == v
    ensures !decode(FixBase64(token)).Utf8Text? ==> DecodeInBackticks("`" + token + "`", decode) == token
  {
    assert DecodeInBackticks("`" + token + "`", decode) == DecodeToken(token, decode) by {
      TokenAtStart(token, [], decode);
      assert "`" + token + "`" + [] == "`" + token + "`";
      assert DecodeInBackticks([], decode) == [];
      assert DecodeToken(token, decode) + [] == DecodeToken(token, decode);
    }
  }

  /**
   As written, a backticked token that is not valid base64 aborts the whole
   page: "`a`" is padded to "a===", which no base64 decoder accepts.
   */
  lemma InvalidTokenRaises(decode: Decoder)
    requires decode("a===") == BadBase64
    ensures DecodeInBackticksAsWritten("`a`", decode) == Failure(Base64Error("a"))
    ensures DecodeInBackticks("`a`", decode) == "a"
  {
    var s := "`a`";
    assert s[1..] == "a`";
    assert ClosingTick("a`") == Some(1) by {
      ClosingTickAfter("a", []);
      assert "a" + "`" + [] == "a`";
    }
    assert s[1..2] == "a";
    assert FixBase64("a") == "a===";
    DecodeRoundTrip("a", "", decode);
  }

  // ---------------------------------------------------------------------------
  // extract_base64_sections
  // ---------------------------------------------------------------------------

  /** One section's text before decoding: stripped, headings unmarked, folded onto one line, blank result emptied. */
  function FormatSection(section: string): string {
    RemoveEmptyLines(Replace(Replace(Replace(Strip(section), "#### ", ""), "\n\n", " - "), "\n", ", "))
  }

  /** A formatted section is a single line. */
  lemma FormatSectionSingleLine(section: string)
    ensures '\n' !in FormatSection(section)
  {
    var folded := Replace(Replace(Replace(Strip(section), "#### ", ""), "\n\n", " - "), "\n", ", ");
    ReplaceRemovesChar(Replace(Replace(Strip(section), "#### ", ""), "\n\n", " - "), '\n', ", ");
    RemoveEmptyLinesSingle(folded);
  }

  /** `extract_base64_sections`: one line per "***"-separated section, prefixed with the page's backlink. */
  function ExtractBase64Sections(page: string, decoding: bool, decode: Decoder): (r: seq<string>)
    ensures |r| == |Split(page, "***")|
  {
    var sections := Split(page, "***");
    seq(|sections|, i requires 0 <= i < |sections| =>
      var text := FormatSection(sections[i]);
      SectionPretext + (if decoding then DecodeInBackticks(text, decode) else text))
  }

  /**
   Every section yields exactly one line, in order, starting with the page's
   backlink; without decoding each line is the backlink followed by the
   formatted section, and has no line break.
   */
  lemma ExtractSectionsSpec(page: string, decoding: bool, decode: Decoder)
    ensures var r, sections := ExtractBase64Sections(page, decoding, decode), Split(page, "***");
      && |r| == |sections| >= 1
      && (forall i :: 0 <= i < |r| ==> StartsWith(r[i], SectionPretext))
      && (!decoding ==> forall i :: 0 <= i < |r| ==>
            r[i] == SectionPretext + FormatSection(sections[i]) && '\n' !in r[i][|SectionPretext|..])
  {
    var r, sections := ExtractBase64Sections(page, decoding, decode), Split(page, "***");
    forall i | 0 <= i < |r|
      ensures StartsWith(r[i], SectionPretext)
      ensures !decoding ==> r[i] == SectionPretext + FormatSection(sections[i]) && '\n' !in r[i][|SectionPretext|..]
    {
      var text := FormatSection(sections[i]);
      var body := if decoding then DecodeInBackticks(text, decode) else text;
      assert r[i] == SectionPretext + body;
      assert r[i][..|SectionPretext|] == SectionPretext;
      assert r[i][|SectionPretext|..] == body;
      FormatSectionSingleLine(sections[i]);
    }
  }

  /** `extract_base64_sections` as written: an invalid token in any section aborts the page. */
  function ExtractBase64SectionsAsWritten(page: string, decoding: bool, decode: Decoder): Result<seq<string>, DecodeError> {
    DecodeSectionsAsWritten(Split(page, "***"), decoding, decode)
  }

  function DecodeSectionsAsWritten(sections: seq<string>, decoding: bool, decode: Decoder): Result<seq<string>, DecodeError>
    decreases |sections|
  {
    if sections == [] then Success([])
    else
      var text := FormatSection(sections[0]);
      var first := if decoding then DecodeInBackticksAsWritten(text, decode) else Success(text);
      match first
      case Failure(e) => Failure(e)
      case Success(t) =>
        match DecodeSectionsAsWritten(sections[1..], decoding, decode)
        case Failure(e) => Failure(e)
        case Success(rest) => Success([SectionPretext + t] + rest)
  }

  /**
   The page "`a`" shows the difference: as written it raises, while the
   corrected extractor falls back to the token and yields one line.
   */
  lemma InvalidTokenAbortsPage(decode: Decoder)
    requires decode("a===") == BadBase64
    ensures ExtractBase64SectionsAsWritten("`a`", true, decode).Failure?
    ensures ExtractBase64Sections("`a`", true, decode) == [SectionPretext + "a"]
  {
    TickAIsOneSection();
    InvalidTokenRaises(decode);
    OneSectionAsWritten("`a`", decode);
    OneSection("`a`", decode);
  }

  /** A page of one section, as written: the decoded section, or the error it raised. */
  lemma OneSectionAsWritten(section: string, decode: Decoder)
    ensures var text := FormatSection(section);
      DecodeSectionsAsWritten([section], true, decode)
        == match DecodeInBackticksAsWritten(text, decode)
           case Failure(e) => Failure(e)
           case Success(t) => Success([SectionPretext + t])
  {
    assert [section][1..] == [];
    assert DecodeSectionsAsWritten([], true, decode) == Success([]);
    forall t: string
      ensures [SectionPretext + t] + [] == [SectionPretext + t]
    {
    }
  }

  /** A page of one section: the backlink followed by the decoded section. */
  lemma OneSection(page: string, decode: Decoder)
    requires Split(page, "***") == [page]
    ensures ExtractBase64Sections(page, true, decode) == [SectionPretext + DecodeInBackticks(FormatSection(page), decode)]
  {
  }

  lemma TickAIsOneSection()
    ensures Split("`a`", "***") == ["`a`"]
    ensures FormatSection("`a`") == "`a`"
  {
    TickAUnsplit();
    TickAFormatted();
  }

  lemma TickAUnsplit()
    ensures Split("`a`", "***") == ["`a`"]
  {
    var page := "`a`";
    assert !Contains(page, "*") by { ContainsChar(page, '*'); }
    ContainsPrefix(page, "***", "*");
    assert Find(page, "***").None?;
  }

  lemma TickAFormatted()
    ensures FormatSection("`a`") == "`a`"
  {
    var page := "`a`";
    assert Strip(page) == page;
    assert !Contains(page, "#") by { ContainsChar(page, '#'); }
    ContainsPrefix(page, "#### ", "#");
    assert Replace(page, "#### ", "") == page;
    assert !Contains(page, "\n") by { ContainsChar(page, '\n'); }
    ContainsPrefix(page, "\n\n", "\n");
    assert Replace(page, "\n\n", " - ") == page;
    assert Replace(page, "\n", ", ") == page;
    assert '\n' !in page;
    RemoveEmptyLinesSingle(page);
    assert NotBlank(page);
  }
}
