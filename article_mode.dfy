/** `normalizeArticleMode` and the start of `processArticle` (auto_fill.js):
    which way an article is cut into sections, and when the smart
    paragraph sampler thins the sections out. */
module ArticleModes {
  import opened Wrappers
  import opened Text
  import opened SectionSampler

  datatype ArticleMode = Sections | Paragraphs | Auto

  /** The string the script passes around for each mode. */
  function ModeName(m: ArticleMode): string {
    match m
    case Sections => "sections"
    case Paragraphs => "paragraphs"
    case Auto => "auto"
  }

  const SectionWords: seq<string> := ["sections", "section", "headings", "heading"]
  const ParagraphWords: seq<string> := ["paragraphs", "paragraph", "paras"]

  /** The recognised words are told apart by length alone, so no word
      names two modes. */
  lemma WordLengths(w: string)
    ensures w in SectionWords ==> |w| == 7 || |w| == 8
    ensures w in ParagraphWords ==> |w| == 5 || |w| == 9 || |w| == 10
    ensures w == "auto" ==> |w| == 4
  {
  }

  /** `(rawMode || "").trim().toLowerCase()`. */
  function ModeValue(raw: Option<string>): string {
    AsciiLower(Trim(raw.GetOr("")))
  }

  /** `normalizeArticleMode(rawMode)`: the attribute value, trimmed and
      lower-cased, picks a mode; a missing, empty or unrecognised value
      means `sections`. */
  function NormalizeArticleMode(raw: Option<string>): (m: ArticleMode)
    ensures m == Paragraphs <==> ModeValue(raw) in ParagraphWords
    ensures m == Auto <==> ModeValue(raw) == "auto"
    ensures m == Sections <==> ModeValue(raw) !in ParagraphWords && ModeValue(raw) != "auto"
    ensures raw.None? || Trim(raw.value) == [] ==> m == Sections
  {
    var value := ModeValue(raw);
    WordLengths(value);
    if value == [] then Sections
    else if value in SectionWords then Sections
    else if value in ParagraphWords then Paragraphs
    else if value == "auto" then Auto
    else Sections
  }

  /** Normalising the name of a normalised mode changes nothing: each
      mode's own name is recognised as that mode. */
  lemma NormalizeIdempotent(raw: Option<string>)
    ensures NormalizeArticleMode(Some(ModeName(NormalizeArticleMode(raw)))) == NormalizeArticleMode(raw)
  {
    NameRecognised(NormalizeArticleMode(raw));
  }

  /** The name of every mode normalises back to that mode. */
  lemma NameRecognised(m: ArticleMode)
    ensures NormalizeArticleMode(Some(ModeName(m))) == m
  {
    var n := ModeName(m);
    NameIsValue(n);
    match m
    case Sections => assert n !in ParagraphWords && n != "auto";
    case Paragraphs => assert n == ParagraphWords[0];
    case Auto => assert n !in ParagraphWords;
  }

  /** A mode name is already trimmed and lower-case. */
  lemma NameIsValue(n: string)
    requires n == "sections" || n == "paragraphs" || n == "auto"
    ensures ModeValue(Some(n)) == n
  {
    TrimOfTrimmed(n);
    assert AsciiLower(n) == n;
  }

  /** `resolvedMode`: `auto` becomes `sections` when the article has a
      heading child and `paragraphs` otherwise. */
  function ResolveMode(mode: ArticleMode, hasHeadings: bool): (r: ArticleMode)
    ensures r != Auto
    ensures mode != Auto ==> r == mode
    ensures mode == Auto ==> (r == Sections <==> hasHeadings)
  {
    if mode == Auto then (if hasHeadings then Sections else Paragraphs) else mode
  }

  /** `useSmartDensity`. */
  predicate UseSmartDensity(mode: ArticleMode, hasHeadings: bool) {
    mode == Auto && ResolveMode(mode, hasHeadings) == Paragraphs
  }

  /** `sectionsToProcess`, given what the two section builders produce for
      the article: the paragraph cut when the resolved mode is `paragraphs`
      (sampled when that came from `auto`), the heading cut otherwise. */
  function SectionsToProcess(mode: ArticleMode, hasHeadings: bool, byParagraphs: seq<Section>,
                             byHeadings: seq<Section>, filePath: string): (r: seq<Section>)
    ensures mode == Sections ==> r == byHeadings
    ensures mode == Paragraphs ==> r == byParagraphs
    ensures mode == Auto && hasHeadings ==> r == byHeadings
    ensures UseSmartDensity(mode, hasHeadings) ==> forall s :: s in r ==> s in byParagraphs && IsEligible(s)
    ensures UseSmartDensity(mode, hasHeadings) ==> |r| <= 5
    ensures UseSmartDensity(mode, hasHeadings) ==> r == SmartSelection(byParagraphs, filePath)
  {
    var resolved := ResolveMode(mode, hasHeadings);
    var sections := if resolved == Paragraphs then byParagraphs else byHeadings;
    if UseSmartDensity(mode, hasHeadings) then
      SmartSelectionProperties(sections, filePath);
      SmartSelection(sections, filePath)
    else sections
  }

  /** Sampling happens only for `auto` articles without headings: in every
      other case the builder's sections are processed in full. */
  lemma SamplingOnlyForAuto(mode: ArticleMode, hasHeadings: bool, byParagraphs: seq<Section>,
                            byHeadings: seq<Section>, filePath: string)
    ensures UseSmartDensity(mode, hasHeadings) <==> mode == Auto && !hasHeadings
    ensures !UseSmartDensity(mode, hasHeadings) ==>
      var r := SectionsToProcess(mode, hasHeadings, byParagraphs, byHeadings, filePath);
      r == byParagraphs || r == byHeadings
  {
  }

  /** The sections the length check of the `processArticle` loop keeps:
      a query is built for each of them. A dry run, or a section whose next
      image is already processed, still skips the search. */
  function SectionsQueried(toProcess: seq<Section>): (r: seq<Section>)
    ensures forall s :: s in r <==> s in toProcess && IsEligible(s)
  {
    EligibleMembers(toProcess);
    Eligible(toProcess)
  }

  /** Filtering a list of eligible sections changes nothing. */
  lemma EligibleOfEligible(xs: seq<Section>)
    requires forall s :: s in xs ==> IsEligible(s)
    ensures Eligible(xs) == xs
  {
    assert forall i :: 0 <= i < |xs| ==> xs[i] in xs;
    FilterAll(xs, IsEligible);
  }

  /** The length check inside `processArticle` never skips a sampled section:
      with smart density every section the sampler picked is searched for. */
  lemma SampledSectionsAllQueried(hasHeadings: bool, byParagraphs: seq<Section>,
                                  byHeadings: seq<Section>, filePath: string)
    requires !hasHeadings
    ensures var r := SectionsToProcess(Auto, hasHeadings, byParagraphs, byHeadings, filePath);
      SectionsQueried(r) == r
  {
    var r := SectionsToProcess(Auto, hasHeadings, byParagraphs, byHeadings, filePath);
    EligibleOfEligible(r);
  }
}
