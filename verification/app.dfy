/**
 * The bookkeeping the Streamlit entry point does around generation: the
 * language labels, the parameters handed to the PDF renderer, file-name
 * slugs, the generation loop, and the manifest and archive file list built
 * when a run completes. Widgets, session state, the PDF renderer, speech
 * synthesis and the text model are outside the model; the last three are
 * function parameters.
 */
module App {
  import opened Optional
  import opened Text
  import opened Seqs
  import opened StoryParams
  import opened Validators
  import opened Ai

  // ---------------------------------------------------------------------------
  // Language labels

  /** Display names of the supported languages, keyed by language tag. */
  const LanguageOptions: map<string, string> := map[
    "en" := "English",
    "es" := "Spanish",
    "fr" := "French",
    "de" := "German",
    "it" := "Italian",
    "pt" := "Portuguese",
    "ru" := "Russian",
    "zh" := "Chinese",
    "ja" := "Japanese",
    "ko" := "Korean",
    "ar" := "Arabic",
    "hi" := "Hindi"
  ]

  /** The selectable languages are exactly the ones validation accepts, and every name is non-empty. */
  lemma LanguageOptionsMatchAllowed()
    ensures forall code :: code in LanguageOptions <==> code in AllowedLanguages
    ensures forall code :: code in LanguageOptions ==> LanguageOptions[code] != []
  {
  }

  /** No two languages share a display name. */
  lemma LanguageNamesDistinct(a: string, b: string)
    requires a in LanguageOptions && b in LanguageOptions
    requires LanguageOptions[a] == LanguageOptions[b]
    ensures a == b
  {
  }

  /** `LANGUAGE_OPTIONS.get(code, "")`, as the PDF parameters read it; a missing key reads as `None`. */
  function PdfLabel(code: Option<string>): (r: string)
    ensures r == [] <==> !IsAllowedLanguage(code)
  {
    LanguageOptionsMatchAllowed();
    if code.Some? && code.value in LanguageOptions then LanguageOptions[code.value] else ""
  }

  /** `LANGUAGE_OPTIONS.get(code, code)`, as the manifest reads it. */
  function ManifestLabel(code: string): (r: string)
    ensures code !in LanguageOptions ==> r == code
  {
    if code in LanguageOptions then LanguageOptions[code] else code
  }

  /**
   * The PDF parameters and the manifest agree on every supported language;
   * for any other tag the PDF shows nothing where the manifest keeps the tag.
   */
  lemma LabelsAgree(code: string)
    ensures code in AllowedLanguages ==> PdfLabel(Some(code)) == ManifestLabel(code) != []
    ensures code !in AllowedLanguages ==> PdfLabel(Some(code)) == [] && ManifestLabel(code) == code
  {
    LanguageOptionsMatchAllowed();
  }

  /** The keys `_pdf_params` passes to the renderer. */
  datatype PdfParams = PdfParams(
    levelSchema: Option<string>,
    level: Option<string>,
    learningLanguage: string,
    nativeLanguage: string,
    topics: seq<string>,
    includeGlossary: bool)

  /** `_pdf_params`: languages become display names, topics default to none and the glossary to off. */
  function ToPdfParams(p: Params): (r: PdfParams)
    ensures r.learningLanguage == [] <==> !IsAllowedLanguage(p.learningLanguage)
    ensures r.nativeLanguage == [] <==> !IsAllowedLanguage(p.nativeLanguage)
    ensures IsAllowedLanguage(p.learningLanguage) ==> r.learningLanguage == LanguageOptions[p.learningLanguage.value]
    ensures IsAllowedLanguage(p.nativeLanguage) ==> r.nativeLanguage == LanguageOptions[p.nativeLanguage.value]
    ensures p.topics.None? ==> r.topics == []
    ensures p.includeGlossary.None? ==> !r.includeGlossary
    ensures r.levelSchema == p.levelSchema && r.level == p.level
    ensures p.topics.Some? ==> r.topics == p.topics.value
    ensures p.includeGlossary.Some? ==> r.includeGlossary == p.includeGlossary.value
  {
    LanguageOptionsMatchAllowed();
    PdfParams(
      p.levelSchema,
      p.level,
      PdfLabel(p.learningLanguage),
      PdfLabel(p.nativeLanguage),
      p.topics.GetOr([]),
      p.includeGlossary.GetOr(false))
  }

  // ---------------------------------------------------------------------------
  // File-name slugs

  /** What `[^\w\-]` matches: neither a word character nor a hyphen. */
  predicate IsUnsafe(c: char) {
    !IsWord(c) && c != '-'
  }

  predicate IsSlugChar(c: char) {
    IsWord(c) || c == '-'
  }

  const FallbackSlug := "story"

  /**
   * `_slugify`: strip, turn each run of unsafe characters into one hyphen,
   * merge hyphen runs, trim hyphens from both ends, and fall back to "story".
   */
  function Slugify(value: string): (r: string)
    ensures r != []
  {
    var unsafeFree := SubRuns(Strip(value), IsUnsafe, '-', false);
    var merged := SubRuns(unsafeFree, IsDash, '-', false);
    var trimmed := Trim(merged, IsDash);
    if trimmed == [] then FallbackSlug else trimmed
  }

  /** A safe file stem: non-empty, word characters and single inner hyphens only. */
  predicate IsSlug(s: string) {
    && s != []
    && All(s, IsSlugChar)
    && s[0] != '-'
    && s[|s| - 1] != '-'
    && NoAdjacent(s, IsDash)
  }

  lemma FallbackIsSlug()
    ensures IsSlug(FallbackSlug)
  {
    assert IsWord('s') && IsWord('t') && IsWord('o') && IsWord('r') && IsWord('y');
  }

  /** Before trimming, the slug holds only word characters and single hyphens. */
  lemma MergedShape(value: string)
    ensures var merged := SubRuns(SubRuns(Strip(value), IsUnsafe, '-', false), IsDash, '-', false);
      All(merged, IsSlugChar) && NoAdjacent(merged, IsDash)
  {
    var unsafeFree := SubRuns(Strip(value), IsUnsafe, '-', false);
    SubRunsOnlyRep(Strip(value), IsUnsafe, '-', false);
    forall i | 0 <= i < |unsafeFree|
      ensures IsSlugChar(unsafeFree[i])
    {
    }
    SubRunsAll(unsafeFree, IsDash, '-', false, IsSlugChar);
    SubRunsNoAdjacent(unsafeFree, IsDash, '-', false);
  }

  /** Trimming the hyphens off such a string leaves a slug or nothing. */
  lemma TrimmedSlug(m: string)
    requires All(m, IsSlugChar) && NoAdjacent(m, IsDash)
    ensures var t := Trim(m, IsDash); t == [] || IsSlug(t)
  {
    var a, b := TrimSlice(m, IsDash);
    AllSlice(m, IsSlugChar, a, b);
    NoAdjacentSlice(m, IsDash, a, b);
  }

  /** Every slug is non-empty, made of word characters and hyphens, with no hyphen at either end and never two in a row. */
  lemma SlugifyShape(value: string)
    ensures IsSlug(Slugify(value))
  {
    MergedShape(value);
    TrimmedSlug(SubRuns(SubRuns(Strip(value), IsUnsafe, '-', false), IsDash, '-', false));
    FallbackIsSlug();
  }

  /** A slug contains no whitespace, so stripping leaves it alone. */
  lemma SlugStripped(s: string)
    requires IsSlug(s)
    ensures Strip(s) == s
  {
    WordIsNotSpace(s[0]);
    WordIsNotSpace(s[|s| - 1]);
    TrimNoop(s, IsSpace);
  }

  /** A slug has no unsafe character, so replacing unsafe runs leaves it unchanged. */
  lemma SlugHasNoUnsafeRun(s: string)
    requires IsSlug(s)
    ensures SubRuns(s, IsUnsafe, '-', false) == s
  {
    forall i | 0 <= i < |s|
      ensures !IsUnsafe(s[i])
    {
      assert IsSlugChar(s[i]);
    }
    SubRunsNoop(s, IsUnsafe, '-', false);
  }

  /** A slug's hyphens are single, so collapsing hyphen runs leaves it unchanged. */
  lemma SlugHasNoHyphenRun(s: string)
    requires IsSlug(s)
    ensures SubRuns(s, IsDash, '-', false) == s
  {
    SubRunsNoop(s, IsDash, '-', false);
  }

  /** Stripping a slug and collapsing its unsafe and hyphen runs leaves it unchanged. */
  lemma SlugMergesToItself(s: string)
    requires IsSlug(s)
    ensures SubRuns(SubRuns(Strip(s), IsUnsafe, '-', false), IsDash, '-', false) == s
  {
    SlugStripped(s);
    SlugHasNoUnsafeRun(s);
    SlugHasNoHyphenRun(s);
  }

  /** `_slugify` is idempotent: a slug is its own slug. */
  lemma SlugifyIdempotent(value: string)
    ensures Slugify(Slugify(value)) == Slugify(value)
  {
    var s := Slugify(value);
    SlugifyShape(value);
    SlugMergesToItself(s);
    TrimNoop(s, IsDash);
  }

  lemma SlugCharClasses()
    ensures Disjoint(IsSpace, IsWord)
    ensures Disjoint(IsUnsafe, IsWord)
    ensures Disjoint(IsDash, IsWord)
    ensures !IsWord('-')
  {
    forall c ensures !(IsSpace(c) && IsWord(c)) {
      WordIsNotSpace(c);
    }
  }

  /**
   * Slugging keeps every word character of the title, in order, and only
   * those; a title with no word character becomes "story".
   */
  lemma SlugifyKeepsWords(value: string)
    ensures Keep(value, IsWord) == [] ==> Slugify(value) == FallbackSlug
    ensures Keep(value, IsWord) != [] ==> Keep(Slugify(value), IsWord) == Keep(value, IsWord)
  {
    var merged := SubRuns(SubRuns(Strip(value), IsUnsafe, '-', false), IsDash, '-', false);
    var trimmed := Trim(merged, IsDash);
    TrimmedKeepsWords(value);
    MergedShape(value);
    TrimmedSlug(merged);
    if trimmed != [] {
      SlugHasWord(trimmed);
    }
  }

  /** Each stage of slugging keeps the word characters, in order. */
  lemma TrimmedKeepsWords(value: string)
    ensures var merged := SubRuns(SubRuns(Strip(value), IsUnsafe, '-', false), IsDash, '-', false);
      Keep(Trim(merged, IsDash), IsWord) == Keep(value, IsWord)
  {
    var stripped := Strip(value);
    var unsafeFree := SubRuns(stripped, IsUnsafe, '-', false);
    var merged := SubRuns(unsafeFree, IsDash, '-', false);
    SlugCharClasses();
    TrimKeep(value, IsSpace, IsWord);
    SubRunsKeep(stripped, IsUnsafe, '-', false, IsWord);
    SubRunsKeep(unsafeFree, IsDash, '-', false, IsWord);
    TrimKeep(merged, IsDash, IsWord);
  }

  /** A slug starts with a word character, so it has one. */
  lemma SlugHasWord(t: string)
    requires IsSlug(t)
    ensures Keep(t, IsWord) != []
  {
    KeepEmpty(t, IsWord);
    assert IsWord(t[0]);
  }

  // ---------------------------------------------------------------------------
  // Sidebar settings and the parameter dictionary

  newtype byte = x: int | 0 <= x < 256

  /** File contents: PDF documents and MP3 clips. */
  type Bytes = seq<byte>

  datatype PdfMode = Combined | Split

  /** The sidebar choices the modelled code reads. */
  datatype Settings = Settings(
    nativeLanguage: string,
    learningLanguage: string,
    levelSchema: string,
    level: string,
    storyLength: string,
    topicsRaw: string,
    includeGlossary: bool,
    includeAudio: bool,
    storyCount: int,
    pdfMode: PdfMode)

  /** The `params` dictionary: the topics field is the sanitised topic list; no goal or seed is set. */
  function ToParams(s: Settings): (p: Params)
    ensures p.topics == Some(SanitizedTopics(s.topicsRaw, DefaultMaxTopics))
    ensures |p.topics.value| <= DefaultMaxTopics
    ensures p.storyCount == Some(s.storyCount)
    ensures p.learningLanguage == Some(s.learningLanguage) && p.nativeLanguage == Some(s.nativeLanguage)
    ensures p.levelSchema == Some(s.levelSchema) && p.level == Some(s.level)
    ensures p.storyLength == Some(s.storyLength) && p.includeGlossary == Some(s.includeGlossary)
    ensures p.storyGoal.None? && p.promptSeed.None?
  {
    SanitizedTopicsShape(s.topicsRaw, DefaultMaxTopics);
    Params(
      Some(s.storyCount),
      Some(s.learningLanguage),
      Some(s.nativeLanguage),
      Some(s.levelSchema),
      Some(s.level),
      Some(s.storyLength),
      Some(SanitizedTopics(s.topicsRaw, DefaultMaxTopics)),
      Some(s.includeGlossary),
      None,
      None)
  }

  /** Values the sidebar widgets can produce. */
  predicate IsSidebarChoice(s: Settings) {
    && s.nativeLanguage in LanguageOptions
    && s.learningLanguage in LanguageOptions
    && s.levelSchema in LevelSchemas
    && s.level in AllowedLevels(s.levelSchema)
    && 1 <= s.storyCount <= MaxStories
  }

  /**
   * Whatever the sidebar offers passes validation except one combination:
   * the same language chosen as both learning and native language.
   */
  lemma SidebarValidation(s: Settings)
    requires IsSidebarChoice(s)
    ensures ValidateParams(ToParams(s)).0 <==> s.learningLanguage != s.nativeLanguage
    ensures s.learningLanguage == s.nativeLanguage ==> ValidateParams(ToParams(s)).1 == Some(SameLanguageMessage)
  {
    LanguageOptionsMatchAllowed();
  }

  // ---------------------------------------------------------------------------
  // The generation loop

  /**
   * The loop over `range(story_count)`. `generate(i)` is the outcome of the
   * request for story `i` (`None` when it raises, which ends the loop),
   * `synthesize(i)` the narration for it (`None` when synthesis fails, which
   * only skips the clip) and `render` the per-story PDF renderer.
   */
  method GenerateStories(
    storyCount: int, includeAudio: bool, mode: PdfMode, pdfParams: PdfParams,
    generate: nat -> Option<Story>,
    synthesize: nat -> Option<Bytes>,
    render: (Story, PdfParams) -> Bytes)
    returns (stories: seq<Story>, audio: map<nat, Bytes>, pdfs: map<nat, Bytes>)
    ensures stories == [] || |stories| <= storyCount
    ensures forall i :: 0 <= i < |stories| ==> generate(i) == Some(stories[i])
    ensures |stories| < storyCount ==> generate(|stories|).None?
    ensures forall i: nat :: i in audio <==> i < |stories| && includeAudio && synthesize(i).Some?
    ensures forall i :: i in audio ==> audio[i] == synthesize(i).value
    ensures forall i: nat :: i in pdfs <==> i < |stories| && mode == Split
    ensures forall i :: i in pdfs ==> i < |stories| && pdfs[i] == render(stories[i], pdfParams)
  {
    stories, audio, pdfs := [], map[], map[];
    var idx: nat := 0;
    while idx < storyCount
      invariant |stories| == idx
      invariant idx == 0 || idx <= storyCount
      invariant forall i :: 0 <= i < idx ==> generate(i) == Some(stories[i])
      invariant forall i: nat :: i in audio <==> i < idx && includeAudio && synthesize(i).Some?
      invariant forall i :: i in audio ==> audio[i] == synthesize(i).value
      invariant forall i: nat :: i in pdfs <==> i < idx && mode == Split
      invariant forall i :: i in pdfs ==> i < idx && pdfs[i] == render(stories[i], pdfParams)
    {
      var story := generate(idx);
      if story.None? {
        return;
      }
      stories := stories + [story.value];
      if includeAudio {
        var clip := synthesize(idx);
        if clip.Some? {
          audio := audio[idx := clip.value];
        }
      }
      if mode == Split {
        pdfs := pdfs[idx := render(story.value, pdfParams)];
      }
      idx := idx + 1;
    }
  }

  // ---------------------------------------------------------------------------
  // Completing a run: PDFs, manifest and archive file list

  /** Split mode renders any story the loop left without a PDF. */
  function Backfill(stories: seq<Story>, pdfs: map<nat, Bytes>, pdfParams: PdfParams, render: (Story, PdfParams) -> Bytes): (r: map<nat, Bytes>)
    ensures forall i: nat :: i in r <==> i in pdfs || i < |stories|
    ensures forall i :: i in pdfs ==> r[i] == pdfs[i]
    ensures forall i: nat :: i !in pdfs && i < |stories| ==> r[i] == render(stories[i], pdfParams)
  {
    BackfillFrom(stories, pdfs, pdfParams, render, 0)
  }

  /** The backfill loop from story position `idx` on. */
  function BackfillFrom(stories: seq<Story>, pdfs: map<nat, Bytes>, pdfParams: PdfParams, render: (Story, PdfParams) -> Bytes, idx: nat): (r: map<nat, Bytes>)
    requires idx <= |stories|
    ensures forall i: nat :: i in r <==> i in pdfs || idx <= i < |stories|
    ensures forall i :: i in pdfs ==> r[i] == pdfs[i]
    ensures forall i: nat :: i !in pdfs && idx <= i < |stories| ==> r[i] == render(stories[i], pdfParams)
    decreases |stories| - idx
  {
    if idx == |stories| then pdfs
    else
      var next := if idx in pdfs then pdfs else pdfs[idx := render(stories[idx], pdfParams)];
      BackfillFrom(stories, next, pdfParams, render, idx + 1)
  }

  /** After a full split-mode loop every story already has its PDF, so backfilling changes nothing. */
  lemma BackfillAfterLoop(stories: seq<Story>, pdfs: map<nat, Bytes>, pdfParams: PdfParams, render: (Story, PdfParams) -> Bytes)
    requires forall i: nat :: i in pdfs <==> i < |stories|
    requires forall i :: i in pdfs ==> i < |stories| && pdfs[i] == render(stories[i], pdfParams)
    ensures Backfill(stories, pdfs, pdfParams, render) == pdfs
  {
  }

  datatype ManifestEntry = ManifestEntry(index: nat, title: string, hasAudio: bool)

  datatype Manifest = Manifest(
    nativeLanguage: string,
    learningLanguage: string,
    levelSchema: string,
    level: string,
    storyLength: string,
    includeGlossary: bool,
    includeAudio: bool,
    stories: seq<ManifestEntry>)

  /**
   * The manifest: languages by display name, falling back to the tag, and one
   * entry per story, in order, numbered from one, flagged when it has audio.
   */
  function BuildManifest(s: Settings, stories: seq<Story>, audio: map<nat, Bytes>): (m: Manifest)
    ensures m.nativeLanguage == ManifestLabel(s.nativeLanguage) && m.learningLanguage == ManifestLabel(s.learningLanguage)
    ensures m.levelSchema == s.levelSchema && m.level == s.level && m.storyLength == s.storyLength
    ensures m.includeGlossary == s.includeGlossary && m.includeAudio == s.includeAudio
    ensures |m.stories| == |stories|
    ensures forall i :: 0 <= i < |stories| ==>
      && m.stories[i].index == i + 1
      && m.stories[i].title == stories[i].title
      && (m.stories[i].hasAudio <==> i in audio)
  {
    Manifest(
      ManifestLabel(s.nativeLanguage),
      ManifestLabel(s.learningLanguage),
      s.levelSchema,
      s.level,
      s.storyLength,
      s.includeGlossary,
      s.includeAudio,
      seq(|stories|, i requires 0 <= i < |stories| => ManifestEntry(i + 1, stories[i].title, i in audio)))
  }

  datatype ArchiveFile = ArchiveFile(name: string, data: Bytes)

  const CollectionFileName := "graded_reader_collection.pdf"
  const PdfExtension := ".pdf"
  const AudioExtension := ".mp3"

  /** `f"story_{idx + 1}_{slug}{extension}"`. */
  function StoryFileName(idx: nat, slug: string, extension: string): string {
    "story_" + Decimal(idx + 1) + ("_" + slug + extension)
  }

  /** The file stem of every story: `_slugify` of its title. */
  function TitleSlugs(stories: seq<Story>): (r: seq<string>)
    ensures |r| == |stories|
    ensures forall i :: 0 <= i < |stories| ==> r[i] == Slugify(stories[i].title)
  {
    seq(|stories|, i requires 0 <= i < |stories| => Slugify(stories[i].title))
  }

  /** The collection PDF, when one was produced and is non-empty. */
  function CombinedFiles(combined: Option<Bytes>): seq<ArchiveFile> {
    if combined.Some? && combined.value != [] then [ArchiveFile(CollectionFileName, combined.value)] else []
  }

  /** The positions in `start .. start + n` that have audio, in increasing order. */
  function AudioIndices(n: nat, audio: map<nat, Bytes>, start: nat): (r: seq<nat>)
    decreases n
  {
    if n == 0 then []
    else (if start in audio then [start] else []) + AudioIndices(n - 1, audio, start + 1)
  }

  lemma {:induction false} AudioIndicesBounds(n: nat, audio: map<nat, Bytes>, start: nat)
    ensures forall k :: 0 <= k < |AudioIndices(n, audio, start)| ==>
      start <= AudioIndices(n, audio, start)[k] < start + n && AudioIndices(n, audio, start)[k] in audio
  {
    if n > 0 {
      AudioIndicesBounds(n - 1, audio, start + 1);
    }
  }

  /** The audio positions are listed once each, in increasing order, and all of them are listed. */
  lemma {:induction false} AudioIndicesSpec(n: nat, audio: map<nat, Bytes>, start: nat)
    ensures forall x :: x in AudioIndices(n, audio, start) <==> start <= x < start + n && x in audio
    ensures forall a, b :: 0 <= a < b < |AudioIndices(n, audio, start)| ==> AudioIndices(n, audio, start)[a] < AudioIndices(n, audio, start)[b]
  {
    AudioIndicesBounds(n, audio, start);
    if n > 0 {
      AudioIndicesSpec(n - 1, audio, start + 1);
      AudioIndicesBounds(n - 1, audio, start + 1);
    }
  }

  /** One PDF per story, in story order. */
  function PdfFiles(slugs: seq<string>, pdfs: map<nat, Bytes>): (r: seq<ArchiveFile>)
    requires forall i: nat :: i < |slugs| ==> i in pdfs
  {
    seq(|slugs|, i requires 0 <= i < |slugs| => ArchiveFile(StoryFileName(i, slugs[i], PdfExtension), pdfs[i]))
  }

  /** One clip for each story position that has audio, in story order. */
  function AudioFiles(slugs: seq<string>, audio: map<nat, Bytes>): (r: seq<ArchiveFile>) {
    var ix := AudioIndices(|slugs|, audio, 0);
    AudioIndicesBounds(|slugs|, audio, 0);
    seq(|ix|, k requires 0 <= k < |ix| => ArchiveFile(StoryFileName(ix[k], slugs[ix[k]], AudioExtension), audio[ix[k]]))
  }

  /** The archive's file list, before the manifest is added; `slugs` are the stories' title slugs. */
  function ArchiveFiles(combined: Option<Bytes>, mode: PdfMode, slugs: seq<string>, pdfs: map<nat, Bytes>, audio: map<nat, Bytes>): seq<ArchiveFile>
    requires mode == Split ==> forall i: nat :: i < |slugs| ==> i in pdfs
  {
    CombinedFiles(combined)
      + (if mode == Split then PdfFiles(slugs, pdfs) else [])
      + AudioFiles(slugs, audio)
  }

  /** The per-story PDFs are listed in story order. */
  lemma PdfFilesAt(slugs: seq<string>, pdfs: map<nat, Bytes>)
    requires forall j: nat :: j < |slugs| ==> j in pdfs
    ensures |PdfFiles(slugs, pdfs)| == |slugs|
    ensures forall i :: 0 <= i < |slugs| ==> PdfFiles(slugs, pdfs)[i] == ArchiveFile(StoryFileName(i, slugs[i], PdfExtension), pdfs[i])
  {
  }

  /** The clips are listed at the audio positions, in order. */
  lemma AudioFilesAt(slugs: seq<string>, audio: map<nat, Bytes>)
    ensures var ix := AudioIndices(|slugs|, audio, 0);
      && |AudioFiles(slugs, audio)| == |ix|
      && (forall n :: 0 <= n < |ix| ==> ix[n] < |slugs| && ix[n] in audio)
      && forall n :: 0 <= n < |ix| ==>
        AudioFiles(slugs, audio)[n] == ArchiveFile(StoryFileName(ix[n], slugs[ix[n]], AudioExtension), audio[ix[n]])
  {
    AudioIndicesBounds(|slugs|, audio, 0);
  }

  /** The bytes planned for position `k`: the collection PDF, a story's PDF, or a story's clip. */
  function PlannedData(combined: Option<Bytes>, c: nat, p: nat, pdfs: map<nat, Bytes>, audio: map<nat, Bytes>, ix: seq<nat>, k: nat): Bytes
    requires c <= 1 && (c == 1 ==> combined.Some?)
    requires forall i: nat :: i < p ==> i in pdfs
    requires forall n :: 0 <= n < |ix| ==> ix[n] in audio
    requires k < c + p + |ix|
  {
    if k < c then combined.value else if k < c + p then pdfs[k - c] else audio[ix[k - c - p]]
  }

  /** The file at position `k` of a list laid out in the archive's three parts follows the plan. */
  lemma PartsAt(
    head: seq<ArchiveFile>, middle: seq<ArchiveFile>, tail: seq<ArchiveFile>,
    combined: Option<Bytes>, slugs: seq<string>, pdfs: map<nat, Bytes>, audio: map<nat, Bytes>, ix: seq<nat>, k: nat)
    requires |head| <= 1 && (|head| == 1 ==> combined.Some? && head[0] == ArchiveFile(CollectionFileName, combined.value))
    requires |middle| <= |slugs| && forall i: nat :: i < |middle| ==> i in pdfs
    requires forall i: nat :: i < |middle| ==> middle[i] == ArchiveFile(StoryFileName(i, slugs[i], PdfExtension), pdfs[i])
    requires |tail| == |ix|
    requires forall n :: 0 <= n < |ix| ==> ix[n] < |slugs| && ix[n] in audio
    requires forall n :: 0 <= n < |ix| ==> tail[n] == ArchiveFile(StoryFileName(ix[n], slugs[ix[n]], AudioExtension), audio[ix[n]])
    requires k < |head| + |middle| + |tail|
    ensures (head + middle + tail)[k]
      == ArchiveFile(PlannedName(|head|, |middle|, slugs, ix, k), PlannedData(combined, |head|, |middle|, pdfs, audio, ix, k))
  {
    ConcatAt(head, middle, tail, k);
  }

  /**
   * The archive lists the collection PDF first, exactly when one was produced
   * and is non-empty; then, in split mode only, one PDF per story in order;
   * then one clip for exactly the stories that have audio, in story order.
   */
  lemma ArchiveLayout(combined: Option<Bytes>, mode: PdfMode, slugs: seq<string>, pdfs: map<nat, Bytes>, audio: map<nat, Bytes>)
    requires mode == Split ==> forall i: nat :: i < |slugs| ==> i in pdfs
    ensures var files := ArchiveFiles(combined, mode, slugs, pdfs, audio);
      var c := |CombinedFiles(combined)|;
      var p := if mode == Split then |slugs| else 0;
      var ix := AudioIndices(|slugs|, audio, 0);
      && c <= 1 && (c == 1 <==> combined.Some? && combined.value != [])
      && p <= |slugs| && (forall i: nat :: i < p ==> i in pdfs)
      && |files| == c + p + |ix|
      && (forall n :: 0 <= n < |ix| ==> ix[n] < |slugs| && ix[n] in audio)
      && (forall x :: x in ix <==> x < |slugs| && x in audio)
      && (forall m, n :: 0 <= m < n < |ix| ==> ix[m] < ix[n])
      && forall k :: 0 <= k < |files| ==>
        files[k] == ArchiveFile(PlannedName(c, p, slugs, ix, k), PlannedData(combined, c, p, pdfs, audio, ix, k))
  {
    var head := CombinedFiles(combined);
    var middle := if mode == Split then PdfFiles(slugs, pdfs) else [];
    var tail := AudioFiles(slugs, audio);
    var ix := AudioIndices(|slugs|, audio, 0);
    if mode == Split {
      PdfFilesAt(slugs, pdfs);
    }
    AudioFilesAt(slugs, audio);
    AudioIndicesSpec(|slugs|, audio, 0);
    forall k | 0 <= k < |head| + |middle| + |tail|
      ensures (head + middle + tail)[k]
        == ArchiveFile(PlannedName(|head|, |middle|, slugs, ix, k), PlannedData(combined, |head|, |middle|, pdfs, audio, ix, k))
    {
      PartsAt(head, middle, tail, combined, slugs, pdfs, audio, ix, k);
    }
  }

  /** The collection PDF's name is never a story file's name. */
  lemma CollectionNameDiffers(i: nat, slug: string, extension: string)
    ensures CollectionFileName != StoryFileName(i, slug, extension)
  {
    assert CollectionFileName[0] != StoryFileName(i, slug, extension)[0];
  }

  /**
   * Story file names determine the story position and the extension: the
   * decimal position ends at the first underscore after "story_", and the
   * extensions differ in their last letter.
   */
  lemma StoryFileNamesDiffer(i: nat, slug1: string, ext1: string, j: nat, slug2: string, ext2: string)
    requires ext1 == PdfExtension || ext1 == AudioExtension
    requires ext2 == PdfExtension || ext2 == AudioExtension
    requires i != j || ext1 != ext2
    ensures StoryFileName(i, slug1, ext1) != StoryFileName(j, slug2, ext2)
  {
    var d1, d2 := Decimal(i + 1), Decimal(j + 1);
    var t1, t2 := "_" + slug1 + ext1, "_" + slug2 + ext2;
    var n1, n2 := "story_" + d1 + t1, "story_" + d2 + t2;
    if i != j {
      DecimalRoundTrip(i + 1);
      DecimalRoundTrip(j + 1);
      assert All(d1, IsDigit) && All(d2, IsDigit);
      DigitsEndAtSeparator("story_", d1, t1, d2, t2);
    } else {
      assert n1[|n1| - 1] == t1[|t1| - 1] == ext1[3];
      assert n2[|n2| - 1] == t2[|t2| - 1] == ext2[3];
      LastDiffers(n1, n2);
    }
  }

  /** Two names that differ in a run of digits followed by a non-digit differ. */
  lemma DigitsEndAtSeparator(prefix: string, d1: string, t1: string, d2: string, t2: string)
    requires All(d1, IsDigit) && All(d2, IsDigit)
    requires t1 != [] && t2 != [] && !IsDigit(t1[0]) && !IsDigit(t2[0])
    requires d1 != d2
    ensures prefix + d1 + t1 != prefix + d2 + t2
  {
    var n1, n2 := prefix + d1 + t1, prefix + d2 + t2;
    var k := |prefix|;
    if |d1| < |d2| {
      assert n1[k + |d1|] == t1[0];
      assert n2[k + |d1|] == d2[|d1|];
      DiffersAt(n1, n2, k + |d1|);
    } else if |d2| < |d1| {
      assert n2[k + |d2|] == t2[0];
      assert n1[k + |d2|] == d1[|d2|];
      DiffersAt(n1, n2, k + |d2|);
    } else {
      assert n1[k..k + |d1|] == d1;
      assert n2[k..k + |d2|] == d2;
      DiffersWithin(n1, n2, k, k + |d1|);
    }
  }

  /**
   * The name the archive gives position `k`, given `c` collection entries,
   * `p` story PDFs and the audio positions `ix`.
   */
  function PlannedName(c: nat, p: nat, slugs: seq<string>, ix: seq<nat>, k: nat): string
    requires p <= |slugs|
    requires forall n :: 0 <= n < |ix| ==> ix[n] < |slugs|
    requires k < c + p + |ix|
  {
    if k < c then CollectionFileName
    else if k < c + p then StoryFileName(k - c, slugs[k - c], PdfExtension)
    else StoryFileName(ix[k - c - p], slugs[ix[k - c - p]], AudioExtension)
  }

  lemma PlannedNamesDistinct(c: nat, p: nat, slugs: seq<string>, ix: seq<nat>, a: nat, b: nat)
    requires c <= 1 && p <= |slugs|
    requires forall n :: 0 <= n < |ix| ==> ix[n] < |slugs|
    requires forall m, n :: 0 <= m < n < |ix| ==> ix[m] < ix[n]
    requires a < b < c + p + |ix|
    ensures PlannedName(c, p, slugs, ix, a) != PlannedName(c, p, slugs, ix, b)
  {
    var na, nb := PlannedName(c, p, slugs, ix, a), PlannedName(c, p, slugs, ix, b);
    if b < c + p {
      var j := b - c;
      assert nb == StoryFileName(j, slugs[j], PdfExtension);
      if a < c {
        assert na == CollectionFileName;
        CollectionNameDiffers(j, slugs[j], PdfExtension);
      } else {
        assert na == StoryFileName(a - c, slugs[a - c], PdfExtension);
        StoryFileNamesDiffer(a - c, slugs[a - c], PdfExtension, j, slugs[j], PdfExtension);
      }
    } else {
      var j := ix[b - c - p];
      assert nb == StoryFileName(j, slugs[j], AudioExtension);
      if a < c {
        assert na == CollectionFileName;
        CollectionNameDiffers(j, slugs[j], AudioExtension);
      } else if a < c + p {
        assert na == StoryFileName(a - c, slugs[a - c], PdfExtension);
        StoryFileNamesDiffer(a - c, slugs[a - c], PdfExtension, j, slugs[j], AudioExtension);
      } else {
        var i := ix[a - c - p];
        assert na == StoryFileName(i, slugs[i], AudioExtension);
        assert i < j;
        StoryFileNamesDiffer(i, slugs[i], AudioExtension, j, slugs[j], AudioExtension);
      }
    }
  }

  /** No two entries of the archive share a name, so none overwrites another. */
  lemma ArchiveNamesDistinct(combined: Option<Bytes>, mode: PdfMode, slugs: seq<string>, pdfs: map<nat, Bytes>, audio: map<nat, Bytes>)
    requires mode == Split ==> forall i: nat :: i < |slugs| ==> i in pdfs
    ensures var files := ArchiveFiles(combined, mode, slugs, pdfs, audio);
      forall a, b :: 0 <= a < b < |files| ==> files[a].name != files[b].name
  {
    var files := ArchiveFiles(combined, mode, slugs, pdfs, audio);
    var c := |CombinedFiles(combined)|;
    var p := if mode == Split then |slugs| else 0;
    var ix := AudioIndices(|slugs|, audio, 0);
    ArchiveLayout(combined, mode, slugs, pdfs, audio);
    forall a, b | 0 <= a < b < |files|
      ensures files[a].name != files[b].name
    {
      PlannedNamesDistinct(c, p, slugs, ix, a, b);
    }
  }

  /** A story's clip is in the archive, under its planned name, exactly when the story has audio. */
  lemma ClipListed(combined: Option<Bytes>, mode: PdfMode, slugs: seq<string>, pdfs: map<nat, Bytes>, audio: map<nat, Bytes>, i: nat)
    requires mode == Split ==> forall j: nat :: j < |slugs| ==> j in pdfs
    requires i < |slugs|
    ensures var files := ArchiveFiles(combined, mode, slugs, pdfs, audio);
      i in audio <==> exists k :: 0 <= k < |files| && files[k].name == StoryFileName(i, slugs[i], AudioExtension)
  {
    if i in audio {
      ClipPresent(combined, mode, slugs, pdfs, audio, i);
    } else {
      ClipAbsent(combined, mode, slugs, pdfs, audio, i);
    }
  }

  lemma ClipPresent(combined: Option<Bytes>, mode: PdfMode, slugs: seq<string>, pdfs: map<nat, Bytes>, audio: map<nat, Bytes>, i: nat)
    requires mode == Split ==> forall j: nat :: j < |slugs| ==> j in pdfs
    requires i < |slugs| && i in audio
    ensures var files := ArchiveFiles(combined, mode, slugs, pdfs, audio);
      exists k :: 0 <= k < |files| && files[k].name == StoryFileName(i, slugs[i], AudioExtension)
  {
    var files := ArchiveFiles(combined, mode, slugs, pdfs, audio);
    var c := |CombinedFiles(combined)|;
    var p := if mode == Split then |slugs| else 0;
    var ix := AudioIndices(|slugs|, audio, 0);
    ArchiveLayout(combined, mode, slugs, pdfs, audio);
    PlannedClipPresent(files, c, p, slugs, ix, i);
  }

  /** In a list named by the plan, every audio position's clip name appears. */
  lemma PlannedClipPresent(files: seq<ArchiveFile>, c: nat, p: nat, slugs: seq<string>, ix: seq<nat>, i: nat)
    requires p <= |slugs| && |files| == c + p + |ix|
    requires forall n :: 0 <= n < |ix| ==> ix[n] < |slugs|
    requires forall k :: 0 <= k < |files| ==> files[k].name == PlannedName(c, p, slugs, ix, k)
    requires i < |slugs| && i in ix
    ensures exists k :: 0 <= k < |files| && files[k].name == StoryFileName(i, slugs[i], AudioExtension)
  {
    var n :| 0 <= n < |ix| && ix[n] == i;
    assert files[c + p + n].name == PlannedName(c, p, slugs, ix, c + p + n);
  }

  lemma ClipAbsent(combined: Option<Bytes>, mode: PdfMode, slugs: seq<string>, pdfs: map<nat, Bytes>, audio: map<nat, Bytes>, i: nat)
    requires mode == Split ==> forall j: nat :: j < |slugs| ==> j in pdfs
    requires i < |slugs| && i !in audio
    ensures var files := ArchiveFiles(combined, mode, slugs, pdfs, audio);
      forall k :: 0 <= k < |files| ==> files[k].name != StoryFileName(i, slugs[i], AudioExtension)
  {
    var files := ArchiveFiles(combined, mode, slugs, pdfs, audio);
    var c := |CombinedFiles(combined)|;
    var p := if mode == Split then |slugs| else 0;
    var ix := AudioIndices(|slugs|, audio, 0);
    ArchiveLayout(combined, mode, slugs, pdfs, audio);
    AudioIndicesSpec(|slugs|, audio, 0);
    forall k | 0 <= k < |files|
      ensures files[k].name != StoryFileName(i, slugs[i], AudioExtension)
    {
      OtherPlannedName(c, p, slugs, ix, k, i);
    }
  }

  /** A planned name other than an audio position's is never the clip name of a story without audio. */
  lemma OtherPlannedName(c: nat, p: nat, slugs: seq<string>, ix: seq<nat>, k: nat, i: nat)
    requires p <= |slugs| && i < |slugs|
    requires forall n :: 0 <= n < |ix| ==> ix[n] < |slugs|
    requires i !in ix
    requires k < c + p + |ix|
    ensures PlannedName(c, p, slugs, ix, k) != StoryFileName(i, slugs[i], AudioExtension)
  {
    if k < c {
      CollectionNameDiffers(i, slugs[i], AudioExtension);
    } else if k < c + p {
      StoryFileNamesDiffer(k - c, slugs[k - c], PdfExtension, i, slugs[i], AudioExtension);
    } else {
      var j := ix[k - c - p];
      assert j in ix;
      StoryFileNamesDiffer(j, slugs[j], AudioExtension, i, slugs[i], AudioExtension);
    }
  }

  // ---------------------------------------------------------------------------
  // A whole run

  const HaltedMessage := "Story generation halted early. Adjust settings and try again."

  /** What pressing "Generate" leaves behind. */
  datatype RunOutcome =
    | Rejected(message: string)
    | HaltedEarly(message: string)
    | Committed(
        stories: seq<Story>,
        audio: map<nat, Bytes>,
        pdfs: map<nat, Bytes>,
        combined: Option<Bytes>,
        manifest: Manifest,
        files: seq<ArchiveFile>)

  /** The collection PDF: rendered in combined mode only. */
  function CombinedPdf(mode: PdfMode, stories: seq<Story>, pdfParams: PdfParams, renderAll: (seq<Story>, PdfParams) -> Bytes): (r: Option<Bytes>)
    ensures r.Some? <==> mode == Combined
    ensures r.Some? ==> r.value == renderAll(stories, pdfParams)
  {
    if mode == Combined then Some(renderAll(stories, pdfParams)) else None
  }

  /** The per-story PDFs kept by the run: backfilled in split mode, untouched otherwise. */
  function FinalPdfs(mode: PdfMode, stories: seq<Story>, pdfs: map<nat, Bytes>, pdfParams: PdfParams, render: (Story, PdfParams) -> Bytes): (r: map<nat, Bytes>)
    ensures mode == Split ==> forall i: nat :: i < |stories| ==> i in r
    ensures mode == Split ==> forall i: nat :: i !in pdfs && i < |stories| ==> r[i] == render(stories[i], pdfParams)
    ensures forall i :: i in pdfs ==> i in r && r[i] == pdfs[i]
    ensures mode == Combined ==> r == pdfs
  {
    if mode == Split then Backfill(stories, pdfs, pdfParams, render) else pdfs
  }

  /** The archive's file list for a full run, named after the stories' title slugs. */
  function RunArchive(stories: seq<Story>, combined: Option<Bytes>, mode: PdfMode, pdfs: map<nat, Bytes>, audio: map<nat, Bytes>): (r: seq<ArchiveFile>)
    requires mode == Split ==> forall i: nat :: i < |stories| ==> i in pdfs
    ensures forall a, b :: 0 <= a < b < |r| ==> r[a].name != r[b].name
  {
    var slugs := TitleSlugs(stories);
    ArchiveNamesDistinct(combined, mode, slugs, pdfs, audio);
    ArchiveFiles(combined, mode, slugs, pdfs, audio)
  }

  /** A full run's result: PDFs, manifest and archive list. */
  function Commit(
    s: Settings, stories: seq<Story>, audio: map<nat, Bytes>, pdfs: map<nat, Bytes>, pdfParams: PdfParams,
    render: (Story, PdfParams) -> Bytes,
    renderAll: (seq<Story>, PdfParams) -> Bytes): (r: RunOutcome)
    ensures r.Committed? && r.stories == stories && r.audio == audio
    ensures r.combined.Some? <==> s.pdfMode == Combined
    ensures r.combined.Some? ==> r.combined.value == renderAll(stories, pdfParams)
    ensures s.pdfMode == Split ==> forall i: nat :: i < |stories| ==> i in r.pdfs
    ensures forall i :: i in pdfs ==> i in r.pdfs && r.pdfs[i] == pdfs[i]
    ensures s.pdfMode == Split ==> forall i: nat :: i !in pdfs && i < |stories| ==> r.pdfs[i] == render(stories[i], pdfParams)
    ensures |r.manifest.stories| == |stories|
    ensures forall i :: 0 <= i < |stories| ==>
      && r.manifest.stories[i].index == i + 1
      && r.manifest.stories[i].title == stories[i].title
      && (r.manifest.stories[i].hasAudio <==> i in audio)
    ensures forall a, b :: 0 <= a < b < |r.files| ==> r.files[a].name != r.files[b].name
  {
    var combined := CombinedPdf(s.pdfMode, stories, pdfParams, renderAll);
    var finalPdfs := FinalPdfs(s.pdfMode, stories, pdfs, pdfParams, render);
    Committed(stories, audio, finalPdfs, combined, BuildManifest(s, stories, audio),
      RunArchive(stories, combined, s.pdfMode, finalPdfs, audio))
  }

  /**
   * After the loop: a short run only warns; a full one commits. `pdfParams`
   * is `_pdf_params(params)`, `render` the per-story and `renderAll` the
   * collection renderer.
   */
  function FinishRun(
    s: Settings, stories: seq<Story>, audio: map<nat, Bytes>, pdfs: map<nat, Bytes>, pdfParams: PdfParams,
    render: (Story, PdfParams) -> Bytes,
    renderAll: (seq<Story>, PdfParams) -> Bytes): (r: RunOutcome)
    ensures !r.Rejected?
    ensures r.HaltedEarly? <==> |stories| != s.storyCount
    ensures r.HaltedEarly? ==> r.message == HaltedMessage
    ensures r.Committed? ==> r == Commit(s, stories, audio, pdfs, pdfParams, render, renderAll)
  {
    if |stories| != s.storyCount then HaltedEarly(HaltedMessage)
    else Commit(s, stories, audio, pdfs, pdfParams, render, renderAll)
  }

  /**
   * In a committed run the manifest's audio flag for a story is set exactly
   * when the archive holds that story's clip.
   */
  lemma ManifestMatchesArchive(
    s: Settings, stories: seq<Story>, audio: map<nat, Bytes>, pdfs: map<nat, Bytes>, pdfParams: PdfParams,
    render: (Story, PdfParams) -> Bytes,
    renderAll: (seq<Story>, PdfParams) -> Bytes)
    ensures var r := FinishRun(s, stories, audio, pdfs, pdfParams, render, renderAll);
      r.Committed? ==> forall i :: 0 <= i < |stories| ==>
        (r.manifest.stories[i].hasAudio <==>
          exists k :: 0 <= k < |r.files| && r.files[k].name == StoryFileName(i, Slugify(stories[i].title), AudioExtension))
  {
    var r := FinishRun(s, stories, audio, pdfs, pdfParams, render, renderAll);
    if r.Committed? {
      var slugs := TitleSlugs(stories);
      forall i | 0 <= i < |stories|
        ensures r.manifest.stories[i].hasAudio <==>
          exists k :: 0 <= k < |r.files| && r.files[k].name == StoryFileName(i, Slugify(stories[i].title), AudioExtension)
      {
        ClipListed(r.combined, s.pdfMode, slugs, r.pdfs, audio, i);
      }
    }
  }

  /**
   * What a committed run promises about what it keeps: one story per request,
   * the clips are the successful narrations, the collection PDF exists
   * exactly in combined mode and renders all stories, in split mode every
   * story has its rendered PDF, the archive lists the collection PDF, the
   * story PDFs and the clips in that order, the manifest has its header and
   * one entry per story, and the archive names are distinct.
   */
  predicate CommittedAsPromised(
    s: Settings, r: RunOutcome, pdfParams: PdfParams,
    synthesize: nat -> Option<Bytes>,
    render: (Story, PdfParams) -> Bytes,
    renderAll: (seq<Story>, PdfParams) -> Bytes)
  {
    && r.Committed?
    && |r.stories| == s.storyCount
    && (forall i :: i in r.audio ==> synthesize(i).Some? && r.audio[i] == synthesize(i).value)
    && (r.combined.Some? <==> s.pdfMode == Combined)
    && (r.combined.Some? ==> r.combined.value == renderAll(r.stories, pdfParams))
    && (s.pdfMode == Split ==>
          forall i :: 0 <= i < |r.stories| ==> i in r.pdfs && r.pdfs[i] == render(r.stories[i], pdfParams))
    && r.files == ArchiveFiles(r.combined, s.pdfMode, TitleSlugs(r.stories), r.pdfs, r.audio)
    && r.manifest == BuildManifest(s, r.stories, r.audio)
    && |r.manifest.stories| == |r.stories|
    && (forall i :: 0 <= i < |r.stories| ==>
          && r.manifest.stories[i].index == i + 1
          && r.manifest.stories[i].title == r.stories[i].title
          && (r.manifest.stories[i].hasAudio <==> i in r.audio))
    && (forall a, b :: 0 <= a < b < |r.files| ==> r.files[a].name != r.files[b].name)
  }

  /** Committing after a full loop keeps every promise of a committed run. */
  lemma CommitAsPromised(
    s: Settings, stories: seq<Story>, audio: map<nat, Bytes>, pdfs: map<nat, Bytes>, pdfParams: PdfParams,
    synthesize: nat -> Option<Bytes>,
    render: (Story, PdfParams) -> Bytes,
    renderAll: (seq<Story>, PdfParams) -> Bytes)
    requires |stories| == s.storyCount
    requires forall i :: i in audio ==> synthesize(i).Some? && audio[i] == synthesize(i).value
    requires forall i: nat :: i in pdfs ==> i < |stories| && pdfs[i] == render(stories[i], pdfParams)
    ensures CommittedAsPromised(s, Commit(s, stories, audio, pdfs, pdfParams, render, renderAll), pdfParams, synthesize, render, renderAll)
  {
    var r := Commit(s, stories, audio, pdfs, pdfParams, render, renderAll);
    assert r.Committed? && r.stories == stories && r.audio == audio;
    if s.pdfMode == Split {
      forall i | 0 <= i < |stories|
        ensures i in r.pdfs && r.pdfs[i] == render(stories[i], pdfParams)
      {
        if i in pdfs {
          assert r.pdfs[i] == pdfs[i];
        }
      }
    }
  }

  /**
   * The loop and the finish of a run whose parameters passed validation:
   * the run halts exactly when some requested story failed, and otherwise
   * commits everything the loop produced.
   */
  method GenerateAndFinish(
    s: Settings, pdfParams: PdfParams,
    generate: nat -> Option<Story>,
    synthesize: nat -> Option<Bytes>,
    render: (Story, PdfParams) -> Bytes,
    renderAll: (seq<Story>, PdfParams) -> Bytes)
    returns (r: RunOutcome)
    requires 0 <= s.storyCount
    ensures !r.Rejected?
    ensures r.HaltedEarly? <==> exists i :: 0 <= i < s.storyCount && generate(i).None?
    ensures r.Committed? ==> |r.stories| == s.storyCount
    ensures r.Committed? ==> forall i :: 0 <= i < s.storyCount ==> generate(i) == Some(r.stories[i])
    ensures r.Committed? ==> forall i: nat :: i in r.audio <==> i < s.storyCount && s.includeAudio && synthesize(i).Some?
    ensures r.Committed? ==> CommittedAsPromised(s, r, pdfParams, synthesize, render, renderAll)
  {
    var stories, audio, pdfs := GenerateStories(s.storyCount, s.includeAudio, s.pdfMode, pdfParams, generate, synthesize, render);
    r := FinishRun(s, stories, audio, pdfs, pdfParams, render, renderAll);
    if |stories| != s.storyCount {
      assert generate(|stories|).None?;
    } else {
      assert r == Commit(s, stories, audio, pdfs, pdfParams, render, renderAll);
      CommitAsPromised(s, stories, audio, pdfs, pdfParams, synthesize, render, renderAll);
    }
  }

  /**
   * Pressing "Generate": validate the sidebar's parameters, run the loop
   * and finish the run.
   */
  method Run(
    s: Settings,
    generate: nat -> Option<Story>,
    synthesize: nat -> Option<Bytes>,
    render: (Story, PdfParams) -> Bytes,
    renderAll: (seq<Story>, PdfParams) -> Bytes)
    returns (r: RunOutcome)
    ensures r.Rejected? <==> !ValidateParams(ToParams(s)).0
    ensures r.Rejected? ==> ValidateParams(ToParams(s)).1 == Some(r.message)
    ensures r.HaltedEarly? <==>
      ValidateParams(ToParams(s)).0 && exists i :: 0 <= i < s.storyCount && generate(i).None?
    ensures r.Committed? ==> |r.stories| == s.storyCount
    ensures r.Committed? ==> forall i :: 0 <= i < s.storyCount ==> generate(i) == Some(r.stories[i])
    ensures r.Committed? ==> forall i: nat :: i in r.audio <==> i < s.storyCount && s.includeAudio && synthesize(i).Some?
    ensures r.Committed? ==> CommittedAsPromised(s, r, ToPdfParams(ToParams(s)), synthesize, render, renderAll)
  {
    var params := ToParams(s);
    var (valid, message) := ValidateParams(params);
    if !valid {
      return Rejected(message.value);
    }
    r := GenerateAndFinish(s, ToPdfParams(params), generate, synthesize, render, renderAll);
  }
}
