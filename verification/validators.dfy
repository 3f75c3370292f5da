/**
 * Input sanitising and validation run before any story is generated:
 * the topic sanitiser, the parameter validator and the level tables.
 */
module Validators {
  import opened Optional
  import opened Text
  import opened Seqs
  import opened StoryParams

  /** Proficiency frameworks and the levels each one offers. */
  const LevelSchemas: map<string, seq<string>> := map[
    "CEFR" := ["A1", "A2", "B1", "B2", "C1", "C2"],
    "HSK" := ["1", "2", "3", "4", "5", "6"],
    "General" := ["Beginner", "Elementary", "Intermediate", "Advanced"]
  ]

  /** Language tags accepted for both the learning and the native language. */
  const AllowedLanguages: seq<string> := [
    "en", "es", "fr", "de", "it", "pt", "ru", "zh", "ja", "ko", "ar", "hi"
  ]

  /** The levels offered for a framework; an unknown framework falls back to CEFR. */
  function AllowedLevels(schema: string): seq<string> {
    if schema in LevelSchemas then LevelSchemas[schema] else LevelSchemas["CEFR"]
  }

  // ---------------------------------------------------------------------------
  // Topic sanitising

  const TopicSeparator: char := ','
  const MaxTopicLength: nat := 40
  const Ellipsis: char := '…'
  const DefaultMaxTopics: int := 5

  /** One comma-separated chunk with each whitespace run made a single space, then stripped. */
  function CleanChunk(chunk: string): string {
    Strip(SubRuns(chunk, IsSpace, ' ', false))
  }

  /** A cleaned chunk longer than the limit keeps its first 40 characters, right-stripped, plus "…". */
  function Shorten(cleaned: string): string {
    if |cleaned| > MaxTopicLength then RStrip(cleaned[..MaxTopicLength]) + [Ellipsis] else cleaned
  }

  /** The topic one chunk yields: none when it is blank after cleaning. */
  function ChunkTopic(chunk: string): seq<string> {
    var cleaned := CleanChunk(chunk);
    if cleaned == [] then [] else [Shorten(cleaned)]
  }

  /** The topic every non-blank chunk yields, in chunk order, before the count limit applies. */
  function CleanTopics(chunks: seq<string>): seq<string> {
    if chunks == [] then [] else ChunkTopic(chunks[0]) + CleanTopics(chunks[1..])
  }

  /**
   * How many topics the scan can collect: the loop stops as soon as the count
   * reaches `maxTopics`, which it checks only after appending, so a limit
   * below one still admits one topic.
   */
  function TopicCap(maxTopics: int): nat {
    if maxTopics >= 1 then maxTopics else 1
  }

  /** The first `n` elements of `xs`, or all of them when there are fewer. */
  function Take<T>(xs: seq<T>, n: nat): (r: seq<T>)
    ensures |r| <= n && r <= xs
    ensures |r| == n || r == xs
  {
    if |xs| <= n then xs else xs[..n]
  }

  /** Once a prefix is full, appending elements does not change it. */
  lemma TakeFull<T>(xs: seq<T>, ys: seq<T>, n: nat)
    requires |Take(xs, n)| == n
    ensures Take(xs + ys, n) == Take(xs, n)
  {
    assert (xs + ys)[..n] == xs[..n];
  }

  /** Reference definition of the sanitised topic list. */
  function SanitizedTopics(raw: string, maxTopics: int): seq<string> {
    if raw == [] then [] else Take(CleanTopics(Split(raw, TopicSeparator)), TopicCap(maxTopics))
  }

  /** The shape every sanitised topic has. */
  predicate IsTopic(t: string) {
    && 0 < |t| <= MaxTopicLength + 1
    && IsStripped(t)
    && NoAdjacent(t, IsSpace)
    && OnlyPlainSpaces(t)
    && TopicSeparator !in t
  }

  /** A cleaned chunk is stripped, single-spaced with plain spaces, and gains no separator. */
  lemma CleanChunkShape(chunk: string)
    requires TopicSeparator !in chunk
    ensures var c := CleanChunk(chunk);
      IsStripped(c) && NoAdjacent(c, IsSpace) && OnlyPlainSpaces(c) && TopicSeparator !in c
  {
    var s := SubRuns(chunk, IsSpace, ' ', false);
    SubRunsNoAdjacent(chunk, IsSpace, ' ', false);
    SubRunsOnlyRep(chunk, IsSpace, ' ', false);
    SubRunsNotIn(chunk, IsSpace, ' ', false, TopicSeparator);
    assert OnlyPlainSpaces(s);
    var a, b := TrimSlice(s, IsSpace);
    NoAdjacentSlice(s, IsSpace, a, b);
    OnlyPlainSpacesSlice(s, a, b);
    NotInSlice(s, TopicSeparator, a, b);
  }

  /** The cleaned-chunk properties, which shortening preserves. */
  predicate IsCleaned(c: string) {
    && c != []
    && IsStripped(c)
    && NoAdjacent(c, IsSpace)
    && OnlyPlainSpaces(c)
    && TopicSeparator !in c
  }

  /**
   * A long cleaned chunk becomes its first 40 characters with only their
   * trailing whitespace removed, followed by "…".
   */
  lemma ShortenLong(c: string)
    requires IsCleaned(c) && |c| > MaxTopicLength
    ensures var t := Shorten(c);
      && IsTopic(t)
      && t[|t| - 1] == Ellipsis
      && 0 < |t| - 1 <= MaxTopicLength
      && t[..|t| - 1] == c[..|t| - 1]
      && !IsSpace(t[|t| - 2])
      && (forall i :: |t| - 1 <= i < MaxTopicLength ==> IsSpace(c[i]))
  {
    var pre := c[..MaxTopicLength];
    var rs := TrimRight(pre, IsSpace);
    TrimRightRemoves(pre, IsSpace);
    assert pre[0] == c[0];
    assert rs != [];
    assert rs == c[..|rs|];
    NoAdjacentSlice(c, IsSpace, 0, |rs|);
    OnlyPlainSpacesSlice(c, 0, |rs|);
    NotInSlice(c, TopicSeparator, 0, |rs|);
    assert !IsSpace(Ellipsis);
    NoAdjacentSnoc(rs, IsSpace, Ellipsis);
    var t := rs + [Ellipsis];
    assert t[..|t| - 1] == rs;
    assert OnlyPlainSpaces(t) by {
      forall i | 0 <= i < |t| ensures IsSpace(t[i]) ==> t[i] == ' ' {
        if i < |rs| {
          assert t[i] == rs[i];
        }
      }
    }
  }

  /**
   * Every topic is non-blank, at most 41 characters, stripped, single-spaced
   * with plain spaces and free of commas; a short cleaned chunk is kept whole
   * and a long one becomes a right-stripped prefix of at most 40 characters
   * plus "…".
   */
  lemma TopicShape(chunk: string)
    requires TopicSeparator !in chunk
    requires CleanChunk(chunk) != []
    ensures IsTopic(Shorten(CleanChunk(chunk)))
    ensures var c, t := CleanChunk(chunk), Shorten(CleanChunk(chunk));
      && (|c| <= MaxTopicLength ==> t == c)
      && (|c| > MaxTopicLength ==>
            && t[|t| - 1] == Ellipsis
            && 0 < |t| - 1 <= MaxTopicLength
            && t[..|t| - 1] == c[..|t| - 1]
            && !IsSpace(t[|t| - 2])
            && (forall i :: |t| - 1 <= i < MaxTopicLength ==> IsSpace(c[i])))
  {
    var c := CleanChunk(chunk);
    CleanChunkShape(chunk);
    if |c| > MaxTopicLength {
      ShortenLong(c);
    }
  }

  lemma {:induction false} CleanTopicsConcat(a: seq<string>, b: seq<string>)
    ensures CleanTopics(a + b) == CleanTopics(a) + CleanTopics(b)
  {
    ConcatFirst(a, b);
    if a == [] {
      ConcatEmpty(CleanTopics(b));
    } else {
      CleanTopicsConcat(a[1..], b);
      ConcatAssoc(ChunkTopic(a[0]), CleanTopics(a[1..]), CleanTopics(b));
    }
  }

  lemma CleanTopicsSingle(chunk: string)
    ensures CleanTopics([chunk]) == if CleanChunk(chunk) == [] then [] else [Shorten(CleanChunk(chunk))]
  {
    assert [chunk][1..] == [];
  }

  lemma {:induction false} CleanTopicsShape(chunks: seq<string>)
    requires forall i :: 0 <= i < |chunks| ==> TopicSeparator !in chunks[i]
    ensures forall i :: 0 <= i < |CleanTopics(chunks)| ==> IsTopic(CleanTopics(chunks)[i])
  {
    if chunks != [] {
      CleanTopicsShape(chunks[1..]);
      if CleanChunk(chunks[0]) != [] {
        TopicShape(chunks[0]);
      }
    }
  }

  /** Every sanitised topic has the topic shape, and the count never exceeds the cap. */
  lemma SanitizedTopicsShape(raw: string, maxTopics: int)
    ensures |SanitizedTopics(raw, maxTopics)| <= TopicCap(maxTopics)
    ensures forall i :: 0 <= i < |SanitizedTopics(raw, maxTopics)| ==> IsTopic(SanitizedTopics(raw, maxTopics)[i])
  {
    if raw != [] {
      SplitPieces(raw, TopicSeparator);
      CleanTopicsShape(Split(raw, TopicSeparator));
    }
  }

  /**
   * Python's `sanitize_topics`: scans the comma-separated chunks in order,
   * skips blank ones and stops once `maxTopics` topics are collected.
   */
  method SanitizeTopics(raw: string, maxTopics: int) returns (topics: seq<string>)
    ensures topics == SanitizedTopics(raw, maxTopics)
    ensures raw == [] ==> topics == []
    ensures maxTopics >= 1 ==> |topics| <= maxTopics
    ensures forall i :: 0 <= i < |topics| ==> IsTopic(topics[i])
  {
    if raw == [] {
      topics := [];
    } else {
      topics := ScanChunks(Split(raw, TopicSeparator), maxTopics);
    }
    SanitizedTopicsShape(raw, maxTopics);
  }

  /** The scanning loop of `sanitize_topics`, which breaks as soon as the cap is reached. */
  method ScanChunks(chunks: seq<string>, maxTopics: int) returns (topics: seq<string>)
    ensures topics == Take(CleanTopics(chunks), TopicCap(maxTopics))
  {
    topics := [];
    var i := 0;
    while i < |chunks|
      invariant 0 <= i <= |chunks|
      invariant topics == CleanTopics(chunks[..i])
      invariant |topics| < TopicCap(maxTopics)
    {
      var cleaned := CleanChunk(chunks[i]);
      ScanStep(chunks, i, topics);
      if cleaned != [] {
        topics := topics + [Shorten(cleaned)];
        if |topics| >= maxTopics {
          ScanStop(chunks, i + 1, TopicCap(maxTopics));
          return;
        }
      }
      i := i + 1;
    }
    assert chunks[..i] == chunks;
  }

  lemma ScanStep(chunks: seq<string>, i: nat, topics: seq<string>)
    requires i < |chunks|
    requires topics == CleanTopics(chunks[..i])
    ensures CleanChunk(chunks[i]) == [] ==> CleanTopics(chunks[..i + 1]) == topics
    ensures CleanChunk(chunks[i]) != [] ==> CleanTopics(chunks[..i + 1]) == topics + [Shorten(CleanChunk(chunks[i]))]
  {
    PrefixSnoc(chunks, i);
    CleanTopicsConcat(chunks[..i], [chunks[i]]);
    CleanTopicsSingle(chunks[i]);
    if CleanChunk(chunks[i]) == [] {
      assert topics + [] == topics;
    }
  }

  lemma ScanStop(chunks: seq<string>, i: nat, cap: nat)
    requires i <= |chunks|
    requires |CleanTopics(chunks[..i])| == cap
    ensures Take(CleanTopics(chunks), cap) == CleanTopics(chunks[..i])
  {
    assert chunks == chunks[..i] + chunks[i..];
    CleanTopicsConcat(chunks[..i], chunks[i..]);
    TakeFull(CleanTopics(chunks[..i]), CleanTopics(chunks[i..]), cap);
  }

  /** Once the cap is reached, whatever follows the scanned chunks cannot change the result. */
  lemma SanitizeStopsAtCap(raw: string, rest: string, maxTopics: int)
    requires |SanitizedTopics(raw, maxTopics)| == TopicCap(maxTopics)
    ensures SanitizedTopics(raw + [TopicSeparator] + rest, maxTopics) == SanitizedTopics(raw, maxTopics)
  {
    var a := Split(raw, TopicSeparator);
    var b := Split(rest, TopicSeparator);
    SplitConcat(raw, rest, TopicSeparator);
    CleanTopicsConcat(a, b);
    TakeFull(CleanTopics(a), CleanTopics(b), TopicCap(maxTopics));
  }

  /** Topics keep the order of their chunks: cleaning splits over a comma like `split` does. */
  lemma SanitizeConcat(raw: string, rest: string)
    ensures CleanTopics(Split(raw + [TopicSeparator] + rest, TopicSeparator))
         == CleanTopics(Split(raw, TopicSeparator)) + CleanTopics(Split(rest, TopicSeparator))
  {
    SplitConcat(raw, rest, TopicSeparator);
    CleanTopicsConcat(Split(raw, TopicSeparator), Split(rest, TopicSeparator));
  }

  // ---------------------------------------------------------------------------
  // Parameter validation

  const CountMessage := "Please choose between 1 and 10 stories."
  const LearningLanguageMessage := "Choose a supported learning language."
  const NativeLanguageMessage := "Choose a supported native language."
  const SameLanguageMessage := "Learning and native languages should differ for best results."
  const SchemaMessage := "Select a valid proficiency framework."
  const LevelMessage := "Select a valid proficiency level."
  const TopicsMessage := "Limit topics to five short phrases."
  const SeedMessage := "Additional instructions are too long. Shorten to under 300 characters."

  const MaxStories: int := 10
  const MaxTopicsAccepted: int := 5
  const MaxSeedLength: int := 300

  predicate IsAllowedLanguage(language: Option<string>) {
    language.Some? && language.value in AllowedLanguages
  }

  /** The framework validation reads, defaulting to CEFR when the key is absent. */
  function SchemaOf(p: Params): string {
    p.levelSchema.GetOr("CEFR")
  }

  /** The story count validation reads, defaulting to one when the key is absent. */
  function CountOf(p: Params): int {
    p.storyCount.GetOr(1)
  }

  /** One rejection check: whether it passes and the message it reports when it does not. */
  datatype Check = Check(passes: bool, message: string)

  /** The rejection checks in the order the validator applies them. */
  function Checks(p: Params): seq<Check> {
    var schema := SchemaOf(p);
    [ Check(1 <= CountOf(p) <= MaxStories, CountMessage),
      Check(IsAllowedLanguage(p.learningLanguage), LearningLanguageMessage),
      Check(IsAllowedLanguage(p.nativeLanguage), NativeLanguageMessage),
      Check(p.learningLanguage != p.nativeLanguage, SameLanguageMessage),
      Check(schema in LevelSchemas, SchemaMessage),
      Check(schema in LevelSchemas && p.level.Some? && p.level.value in LevelSchemas[schema], LevelMessage),
      Check(!(p.topics.Some? && |p.topics.value| > MaxTopicsAccepted), TopicsMessage),
      Check(!(p.promptSeed.Some? && |p.promptSeed.value| > MaxSeedLength), SeedMessage) ]
  }

  /** Check `i` is the first one that fails. */
  predicate IsFirstFailure(checks: seq<Check>, i: int) {
    && 0 <= i < |checks|
    && !checks[i].passes
    && forall j :: 0 <= j < i ==> checks[j].passes
  }

  /**
   * Python's `validate_params`: `(True, None)` exactly when every check passes;
   * otherwise `False` with the message of the first failing check.
   */
  function ValidateParams(p: Params): (r: (bool, Option<string>))
    ensures r.0 <==>
      && 1 <= CountOf(p) <= MaxStories
      && IsAllowedLanguage(p.learningLanguage)
      && IsAllowedLanguage(p.nativeLanguage)
      && p.learningLanguage != p.nativeLanguage
      && SchemaOf(p) in LevelSchemas
      && p.level.Some? && p.level.value in LevelSchemas[SchemaOf(p)]
      && (p.topics.Some? ==> |p.topics.value| <= MaxTopicsAccepted)
      && (p.promptSeed.Some? ==> |p.promptSeed.value| <= MaxSeedLength)
    ensures r.0 <==> r.1 == None
  {
    var count := CountOf(p);
    var schema := SchemaOf(p);
    if count < 1 || count > MaxStories then (false, Some(CountMessage))
    else if !IsAllowedLanguage(p.learningLanguage) then (false, Some(LearningLanguageMessage))
    else if !IsAllowedLanguage(p.nativeLanguage) then (false, Some(NativeLanguageMessage))
    else if p.learningLanguage == p.nativeLanguage then (false, Some(SameLanguageMessage))
    else if schema !in LevelSchemas then (false, Some(SchemaMessage))
    else if p.level.None? || p.level.value !in LevelSchemas[schema] then (false, Some(LevelMessage))
    else if p.topics.Some? && |p.topics.value| > MaxTopicsAccepted then (false, Some(TopicsMessage))
    else if p.promptSeed.Some? && |p.promptSeed.value| > MaxSeedLength then (false, Some(SeedMessage))
    else (true, None)
  }

  /** A rejection reports the message of the first check, in validation order, that fails. */
  lemma ValidateReportsFirstFailure(p: Params) returns (i: nat)
    requires !ValidateParams(p).0
    ensures IsFirstFailure(Checks(p), i)
    ensures ValidateParams(p).1 == Some(Checks(p)[i].message)
  {
    var checks := Checks(p);
    if !checks[0].passes {
      i := 0;
    } else if !checks[1].passes {
      i := 1;
    } else if !checks[2].passes {
      i := 2;
    } else if !checks[3].passes {
      i := 3;
    } else if !checks[4].passes {
      i := 4;
    } else if !checks[5].passes {
      i := 5;
    } else if !checks[6].passes {
      i := 6;
    } else if !checks[7].passes {
      i := 7;
    } else {
      assert false;
    }
  }

  /** Equal learning and native languages are rejected even when both are supported. */
  lemma SameLanguagesRejected(p: Params)
    requires p.learningLanguage == p.nativeLanguage
    ensures !ValidateParams(p).0
    ensures 1 <= CountOf(p) <= MaxStories && IsAllowedLanguage(p.learningLanguage)
      ==> ValidateParams(p).1 == Some(SameLanguageMessage)
  {
  }

  /**
   * Every level offered for a known framework passes the level check; for an
   * unknown framework the CEFR levels are offered but validation rejects the
   * framework itself.
   */
  lemma AllowedLevelsValidate(p: Params)
    requires p.level.Some? && p.level.value in AllowedLevels(SchemaOf(p))
    ensures SchemaOf(p) in LevelSchemas ==> Checks(p)[5].passes
    ensures SchemaOf(p) !in LevelSchemas ==> AllowedLevels(SchemaOf(p)) == LevelSchemas["CEFR"] && !ValidateParams(p).0
  {
  }
}
