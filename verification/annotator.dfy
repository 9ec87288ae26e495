/**
 The line annotator (`addPretext`): a left fold over one wiki page's lines
 that tracks the heading context and prefixes every content line with a
 markdown backlink to its section.
 */
module Annotator {
  import opened Text
  import opened Seqs

  /** Where a page is published and how its lines are labelled. */
  datatype Page = Page(icon: string, baseURL: string, subURL: string)

  /**
   The running heading context: the anchor of the current section, the
   top-level category label and the sub-category label.
   */
  datatype Context = Context(anchor: string, category: string, subCategory: string)

  const Initial := Context("", "", "")

  /**
   The heading grammars. `Standard` uses the "# ►" / "## ▷" glyph markers;
   `AnchorFrozen` is the same except that sub-category headings keep the
   section anchor; `Storage` uses plain "## " / "### " headings.
   */
  datatype Grammar = Standard | AnchorFrozen | Storage

  /** The grammar a page uses, selected by its sub-URL. */
  function GrammarFor(subURL: string): Grammar {
    if subURL == "storage" then Storage
    else if subURL == "non-english" then AnchorFrozen
    else Standard
  }

  /** The text of a heading: every occurrence of the marker removed, then stripped. */
  function HeadingText(line: string, marker: string): string
    requires |marker| > 0
  {
    Strip(Replace(line, marker, ""))
  }

  /**
   The URL fragment of a heading text: " / " and then every space become "-",
   and the result is lower-cased. It starts with '#' and has no space and no
   upper-case letter.
   */
  function Anchor(text: string): (a: string)
    ensures |a| > 0 && a[0] == '#'
    ensures ' ' !in a
    ensures forall i :: 0 <= i < |a| ==> !('A' <= a[i] <= 'Z')
  {
    var dashed := Replace(Replace(text, " / ", "-"), " ", "-");
    ReplaceRemovesChar(Replace(text, " / ", "-"), ' ', "-");
    LowerShape(dashed);
    "#" + Lower(dashed)
  }

  /** The breadcrumb label of a heading text. */
  function Label(text: string): string {
    "/ " + text + " "
  }

  /** A label that mentions "http" is dropped altogether; any other is kept. */
  function DropLink(name: string): (r: string)
    ensures !Contains(r, "http")
    ensures r == name || r == ""
    ensures r == name <==> !Contains(name, "http")
  {
    if Contains(name, "http") then "" else name
  }

  /** A top-level heading: new anchor and category, sub-category reset. */
  function TopHeading(text: string): Context {
    Context(Anchor(text), Label(text), "")
  }

  /** A second-level heading: new sub-category, and a new anchor when `moveAnchor`. */
  function SubHeading(ctx: Context, text: string, moveAnchor: bool): Context {
    Context(if moveAnchor then Anchor(text) else ctx.anchor, ctx.category, Label(text))
  }

  /** How the grammar reads a heading line, before links are dropped from the labels. */
  function Retitle(g: Grammar, ctx: Context, line: string): Context {
    match g
    case Storage =>
      if StartsWith(line, "## ") then TopHeading(HeadingText(line, "## "))
      else if StartsWith(line, "### ") then SubHeading(ctx, HeadingText(line, "### "), true)
      else ctx
    case _ =>
      if StartsWith(line, "# ►") then TopHeading(HeadingText(line, "# ►"))
      else if StartsWith(line, "## ▷") then SubHeading(ctx, HeadingText(line, "## ▷"), g != AnchorFrozen)
      else ctx
  }

  /** One step of the fold: heading lines update the context, other lines leave it alone. */
  function Step(g: Grammar, ctx: Context, line: string): Context {
    if !StartsWith(line, "#") then ctx
    else
      var c := Retitle(g, ctx, line);
      Context(c.anchor, DropLink(c.category), DropLink(c.subCategory))
  }

  /** The context after folding `Step` over all of `lines`. */
  function After(g: Grammar, ctx: Context, lines: seq<string>): Context
    decreases |lines|
  {
    if lines == [] then ctx else After(g, Step(g, ctx, lines[0]), lines[1..])
  }

  /** A content line: not a heading, and it has a letter. */
  predicate IsContent(line: string) {
    !StartsWith(line, "#") && HasLetter(line)
  }

  /** The content lines of a page, in order. */
  function ContentLines(lines: seq<string>): seq<string> {
    Filter(IsContent, lines)
  }

  /** One leading "* " list marker removed, if there is one. */
  function DropBullet(line: string): string {
    if StartsWith(line, "* ") then line[2..] else line
  }

  /**
   A content line behind its backlink: the icon and the labels of `ctx` as
   the link text, `link` followed by the section anchor as its target.
   */
  function LinkedLine(icon: string, ctx: Context, link: string, line: string): string {
    "[" + icon + ctx.category + ctx.subCategory + "](" + link + ctx.anchor + ") ► " + DropBullet(line)
  }

  /** The annotated form of a content line under context `ctx`: linked to the page's own URL. */
  function Emit(page: Page, ctx: Context, line: string): string {
    LinkedLine(page.icon, ctx, page.baseURL + page.subURL, line)
  }

  /** The context in force at each content line of `lines`, in order. */
  function Contexts(g: Grammar, ctx: Context, lines: seq<string>): (cs: seq<Context>)
    ensures |cs| == |ContentLines(lines)|
    decreases |lines|
  {
    if lines == [] then []
    else (if IsContent(lines[0]) then [ctx] else []) + Contexts(g, Step(g, ctx, lines[0]), lines[1..])
  }

  /** The fold itself, from context `ctx`. */
  function Annotate(g: Grammar, page: Page, ctx: Context, lines: seq<string>): (r: seq<string>)
    decreases |lines|
  {
    if lines == [] then []
    else
      var line := lines[0];
      if StartsWith(line, "#") then Annotate(g, page, Step(g, ctx, line), lines[1..])
      else if HasLetter(line) then [Emit(page, ctx, line)] + Annotate(g, page, ctx, lines[1..])
      else Annotate(g, page, ctx, lines[1..])
  }

  /** `addPretext(lines, icon, baseURL, subURL)` */
  function AddPretext(lines: seq<string>, icon: string, baseURL: string, subURL: string): seq<string> {
    Annotate(GrammarFor(subURL), Page(icon, baseURL, subURL), Initial, lines)
  }

  // ---------------------------------------------------------------------------
  // Properties of the fold
  // ---------------------------------------------------------------------------

  /**
   The fold emits one line per content line, in order: its pretext under the
   context then in force, followed by the line without its list marker.
   */
  lemma {:induction false} AnnotateSpec(g: Grammar, page: Page, ctx: Context, lines: seq<string>)
    ensures var r := Annotate(g, page, ctx, lines);
      && |r| == |ContentLines(lines)| <= |lines|
      && forall i :: 0 <= i < |r| ==> r[i] == Emit(page, Contexts(g, ctx, lines)[i], ContentLines(lines)[i])
    decreases |lines|
  {
    if lines != [] {
      var line, rest := lines[0], lines[1..];
      var next := Step(g, ctx, line);
      AnnotateSpec(g, page, next, rest);
      AnnotateUnfold(g, page, ctx, lines);
      var head := if IsContent(line) then [line] else [];
      assert ContentLines(lines) == head + ContentLines(rest);
      ZipShift(Annotate(g, page, next, rest), Contexts(g, next, rest), ContentLines(rest),
               page, ctx, line, IsContent(line));
    }
  }

  /** One step of the fold, written uniformly for every kind of line. */
  lemma AnnotateUnfold(g: Grammar, page: Page, ctx: Context, lines: seq<string>)
    requires lines != []
    ensures Annotate(g, page, ctx, lines)
      == (if IsContent(lines[0]) then [Emit(page, ctx, lines[0])] else []) + Annotate(g, page, Step(g, ctx, lines[0]), lines[1..])
  {
  }

  /** Prepending the same optional entry to three aligned sequences keeps them aligned. */
  lemma ZipShift(r: seq<string>, cs: seq<Context>, ls: seq<string>, page: Page, ctx: Context, line: string, b: bool)
    requires |r| == |cs| == |ls|
    requires forall i :: 0 <= i < |r| ==> r[i] == Emit(page, cs[i], ls[i])
    ensures var r', cs', ls' := (if b then [Emit(page, ctx, line)] else []) + r,
                                 (if b then [ctx] else []) + cs, (if b then [line] else []) + ls;
      |r'| == |cs'| == |ls'| && forall i :: 0 <= i < |r'| ==> r'[i] == Emit(page, cs'[i], ls'[i])
  {
  }

  /** Annotating a page in two pieces: the second piece starts from the context the first one leaves. */
  lemma {:induction false} AnnotateAppend(g: Grammar, page: Page, ctx: Context, a: seq<string>, b: seq<string>)
    ensures Annotate(g, page, ctx, a + b) == Annotate(g, page, ctx, a) + Annotate(g, page, After(g, ctx, a), b)
    decreases |a|
  {
    if a == [] {
      assert a + b == b;
    } else {
      assert (a + b)[0] == a[0];
      assert (a + b)[1..] == a[1..] + b;
      AnnotateAppend(g, page, Step(g, ctx, a[0]), a[1..], b);
    }
  }

  /** The contexts the fold can reach: link-free labels and an anchor that is empty or a fragment without spaces. */
  predicate WellFormed(ctx: Context) {
    && !Contains(ctx.category, "http")
    && !Contains(ctx.subCategory, "http")
    && (ctx.anchor == "" || ctx.anchor[0] == '#')
    && ' ' !in ctx.anchor
  }

  /** The initial context is well formed, and every step keeps it so. */
  lemma StepWellFormed(g: Grammar, ctx: Context, line: string)
    requires WellFormed(ctx)
    ensures WellFormed(Initial)
    ensures WellFormed(Step(g, ctx, line))
  {
    NothingInEmpty("http");
  }

  /** Every context the fold uses for a content line is well formed. */
  lemma {:induction false} ContextsWellFormed(g: Grammar, ctx: Context, lines: seq<string>)
    requires WellFormed(ctx)
    ensures forall i :: 0 <= i < |Contexts(g, ctx, lines)| ==> WellFormed(Contexts(g, ctx, lines)[i])
    decreases |lines|
  {
    if lines != [] {
      StepWellFormed(g, ctx, lines[0]);
      ContextsWellFormed(g, Step(g, ctx, lines[0]), lines[1..]);
    }
  }

  /**
   `addPretext` emits exactly one line per content line, in order, and drops
   headings and letter-free lines. Every emitted line is the content line
   linked to `baseURL + subURL` under a well-formed context: neither label
   mentions "http" and the anchor is empty or a '#' fragment without spaces.
   */
  lemma AddPretextShape(lines: seq<string>, icon: string, baseURL: string, subURL: string)
    ensures var r, content := AddPretext(lines, icon, baseURL, subURL), ContentLines(lines);
      && |r| == |content| <= |lines|
      && forall i :: 0 <= i < |r| ==> exists ctx: Context ::
        WellFormed(ctx) && r[i] == LinkedLine(icon, ctx, baseURL + subURL, content[i])
  {
    var g, page := GrammarFor(subURL), Page(icon, baseURL, subURL);
    var cs := Contexts(g, Initial, lines);
    AnnotateSpec(g, page, Initial, lines);
    StepWellFormed(g, Initial, "");
    ContextsWellFormed(g, Initial, lines);
    var r := AddPretext(lines, icon, baseURL, subURL);
    forall i | 0 <= i < |r|
      ensures exists ctx: Context ::
        WellFormed(ctx) && r[i] == LinkedLine(icon, ctx, baseURL + subURL, ContentLines(lines)[i])
    {
      assert WellFormed(cs[i]);
    }
  }

  /** Every line `addPretext` emits starts with "[" and the page's icon. */
  lemma AddPretextStartsWithIcon(lines: seq<string>, icon: string, baseURL: string, subURL: string)
    ensures forall i :: 0 <= i < |AddPretext(lines, icon, baseURL, subURL)| ==>
      StartsWith(AddPretext(lines, icon, baseURL, subURL)[i], "[" + icon)
  {
    var page := Page(icon, baseURL, subURL);
    var r := AddPretext(lines, icon, baseURL, subURL);
    var cs := Contexts(GrammarFor(subURL), Initial, lines);
    AnnotateSpec(GrammarFor(subURL), page, Initial, lines);
    forall i | 0 <= i < |r|
      ensures StartsWith(r[i], "[" + icon)
    {
      EmitStartsWithIcon(page, cs[i], ContentLines(lines)[i]);
    }
  }

  lemma EmitStartsWithIcon(page: Page, ctx: Context, line: string)
    ensures StartsWith(Emit(page, ctx, line), "[" + page.icon)
  {
    var e := Emit(page, ctx, line);
    var rest := ctx.category + ctx.subCategory + "](" + page.baseURL + page.subURL + ctx.anchor + ") ► " + DropBullet(line);
    assert e == ("[" + page.icon) + rest;
    assert e[..|"[" + page.icon|] == "[" + page.icon;
  }

  // ---------------------------------------------------------------------------
  // Heading transitions
  // ---------------------------------------------------------------------------

  /**
   On the storage page a '#' line that is neither a "## " nor a "### " heading
   leaves a well-formed context as it is.
   */
  lemma UnrecognisedStorageHeading(ctx: Context, line: string)
    requires WellFormed(ctx)
    requires StartsWith(line, "#") && !StartsWith(line, "## ") && !StartsWith(line, "### ")
    ensures Step(Storage, ctx, line) == ctx
  {
  }

  /**
   Outside the storage page a '#' line that is neither a "# ►" nor a "## ▷"
   heading leaves a well-formed context as it is.
   */
  lemma UnrecognisedStandardHeading(g: Grammar, ctx: Context, line: string)
    requires g != Storage && WellFormed(ctx)
    requires StartsWith(line, "#") && !StartsWith(line, "# ►") && !StartsWith(line, "## ▷")
    ensures Step(g, ctx, line) == ctx
  {
  }

  /**
   A top-level "# ►" heading (outside the storage grammar) sets the anchor and
   category from its text, resets the sub-category, and does not depend on the
   context before it.
   */
  lemma TopHeadingStep(g: Grammar, ctx: Context, other: Context, line: string)
    requires g != Storage && StartsWith(line, "# ►")
    ensures var t, c := HeadingText(line, "# ►"), Step(g, ctx, line);
      && c.anchor == Anchor(t)
      && c.category == (if Contains(Label(t), "http") then "" else Label(t))
      && c.subCategory == ""
      && c == Step(g, other, line)
  {
    assert StartsWith(line, "#") by {
      assert line[..1] == line[..3][..1];
    }
    NothingInEmpty("http");
  }

  /**
   A "## ▷" heading (outside the storage grammar) sets the sub-category and
   keeps a well-formed category; it moves the anchor to its own fragment
   except on the page whose anchor is frozen, where the anchor stays put.
   */
  lemma SubHeadingStep(g: Grammar, ctx: Context, line: string)
    requires g != Storage && StartsWith(line, "## ▷") && WellFormed(ctx)
    ensures var t, c := HeadingText(line, "## ▷"), Step(g, ctx, line);
      && c.subCategory == (if Contains(Label(t), "http") then "" else Label(t))
      && c.category == ctx.category
      && (g == AnchorFrozen ==> c.anchor == ctx.anchor)
      && (g == Standard ==> c.anchor == Anchor(t))
  {
    assert StartsWith(line, "#") by {
      assert line[..1] == line[..4][..1];
    }
    assert !StartsWith(line, "# ►") by {
      assert line[1] == line[..4][1] == '#';
    }
  }

  /**
   In the storage grammar "## " headings play the top-level role: they set the
   anchor and category, reset the sub-category, and forget the context before.
   */
  lemma StorageTopStep(ctx: Context, other: Context, line: string)
    requires StartsWith(line, "## ")
    ensures var t, c := HeadingText(line, "## "), Step(Storage, ctx, line);
      && c.anchor == Anchor(t)
      && c.category == (if Contains(Label(t), "http") then "" else Label(t))
      && c.subCategory == ""
      && c == Step(Storage, other, line)
  {
    assert line[..1] == line[..3][..1];
    NothingInEmpty("http");
  }

  /** In the storage grammar "### " headings set the sub-category and the anchor, keeping the category. */
  lemma StorageSubStep(ctx: Context, line: string)
    requires StartsWith(line, "### ") && WellFormed(ctx)
    ensures var t, c := HeadingText(line, "### "), Step(Storage, ctx, line);
      && c.anchor == Anchor(t)
      && c.category == ctx.category
      && c.subCategory == (if Contains(Label(t), "http") then "" else Label(t))
  {
    assert line[..1] == line[..4][..1];
    assert !StartsWith(line, "## ") by {
      assert line[2] == line[..4][2] == '#';
    }
  }

  /** On the frozen-anchor page only a top-level heading can move the anchor. */
  lemma FrozenAnchorMovesOnlyAtTop(ctx: Context, line: string)
    requires Step(AnchorFrozen, ctx, line).anchor != ctx.anchor
    ensures StartsWith(line, "# ►")
  {
  }

  /**
   Headings overwrite rather than accumulate: reading the same line twice
   leaves the context it left the first time, and a line that is not a
   heading changes nothing.
   */
  lemma StepIdempotent(g: Grammar, ctx: Context, line: string)
    ensures Step(g, Step(g, ctx, line), line) == Step(g, ctx, line)
    ensures !StartsWith(line, "#") ==> Step(g, ctx, line) == ctx
  {
    if StartsWith(line, "#") {
      var c, once := Retitle(g, ctx, line), Step(g, ctx, line);
      var c2 := Retitle(g, once, line);
      DropLinkIdempotent(c.category);
      DropLinkIdempotent(c.subCategory);
      RetitleAgain(g, ctx, line);
      assert c2.anchor == c.anchor;
      assert DropLink(c2.category) == DropLink(c.category);
      assert DropLink(c2.subCategory) == DropLink(c.subCategory);
    }
  }

  /** Re-reading a heading from the context it produced yields the same anchor and the same labels, up to dropping links. */
  lemma RetitleAgain(g: Grammar, ctx: Context, line: string)
    requires StartsWith(line, "#")
    ensures var c := Retitle(g, ctx, line);
      var c2 := Retitle(g, Step(g, ctx, line), line);
      && c2.anchor == c.anchor
      && (c2.category == c.category || c2.category == DropLink(c.category))
      && (c2.subCategory == c.subCategory || c2.subCategory == DropLink(c.subCategory))
  {
  }

  lemma DropLinkIdempotent(name: string)
    ensures DropLink(DropLink(name)) == DropLink(name)
  {
    NothingInEmpty("http");
  }
}
