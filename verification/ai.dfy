/**
 * The language-model side of story generation: cleaning the decoded reply
 * into a story, and the choices the prompt builder makes from the parameters.
 * The request itself and JSON decoding are outside the model; decoding is a
 * function parameter that yields `None` when the reply is not valid JSON.
 */
module Ai {
  import opened Optional
  import opened Text
  import opened Seqs
  import opened StoryParams

  /** A decoded JSON value. A number carries Python's `str()` of the decoded number. */
  datatype Json =
    | JNull
    | JBool(b: bool)
    | JNumber(text: string)
    | JString(s: string)
    | JArray(items: seq<Json>)
    | JObject(fields: map<string, Json>)

  /** Python truthiness of a decoded value. */
  predicate Truthy(j: Json) {
    match j
    case JNull => false
    case JBool(b) => b
    case JNumber(t) => t !in ["0", "0.0", "-0.0"]
    case JString(s) => s != []
    case JArray(xs) => xs != []
    case JObject(m) => m != map[]
  }

  /** Python's `str()` of a decoded value; a list or dict is rendered by a non-blank placeholder. */
  function PyStr(j: Json): string {
    match j
    case JNull => "None"
    case JBool(b) => if b then "True" else "False"
    case JNumber(t) => t
    case JString(s) => s
    case JArray(_) => "[...]"
    case JObject(_) => "{...}"
  }

  /** Python's `d.get(key, default)` on a decoded object. */
  function Get(fields: map<string, Json>, key: string, default: Json): Json {
    if key in fields then fields[key] else default
  }

  datatype GlossaryEntry = GlossaryEntry(term: string, definition: string)

  datatype Story = Story(title: string, body: string, glossary: seq<GlossaryEntry>)

  /** The exceptions parsing can raise: only a `ValueError` is caught by the caller. */
  datatype PayloadError =
    | ValueError(message: string)
    | AttributeError(key: string)

  const InvalidJsonMessage := "Model response was not valid JSON."
  const DefaultTitle := "Untitled Story"

  /** A glossary entry the cleaner can produce: both sides stripped and non-blank. */
  predicate IsCleanEntry(e: GlossaryEntry) {
    e.term != [] && e.definition != [] && IsStripped(e.term) && IsStripped(e.definition)
  }

  /** `str(entry.get(key, "")).strip()`. */
  function StrippedField(fields: map<string, Json>, key: string): string {
    Strip(PyStr(Get(fields, key, JString(""))))
  }

  /** One raw glossary item: kept, stripped, when it is an object with a non-blank term and definition. */
  function CleanEntry(entry: Json): (r: Option<GlossaryEntry>)
    ensures r.Some? ==> IsCleanEntry(r.value)
    ensures !entry.JObject? ==> r.None?
    ensures entry.JObject? ==> (r.Some? <==> StrippedField(entry.fields, "term") != [] && StrippedField(entry.fields, "definition") != [])
    ensures r.Some? ==> r.value == GlossaryEntry(StrippedField(entry.fields, "term"), StrippedField(entry.fields, "definition"))
  {
    match entry
    case JObject(m) =>
      var term := StrippedField(m, "term");
      var definition := StrippedField(m, "definition");
      StripStripped(PyStr(Get(m, "term", JString(""))));
      StripStripped(PyStr(Get(m, "definition", JString(""))));
      if term != [] && definition != [] then Some(GlossaryEntry(term, definition)) else None
    case _ => None
  }

  /** What one raw item contributes to the cleaned glossary: its entry, or nothing. */
  function EntryOf(item: Json): (r: seq<GlossaryEntry>)
    ensures |r| <= 1
  {
    var entry := CleanEntry(item);
    if entry.Some? then [entry.value] else []
  }

  /** The loop over a glossary list: keeps the items CleanEntry accepts, in order. */
  function CleanEntries(items: seq<Json>): (r: seq<GlossaryEntry>)
    ensures |r| <= |items|
  {
    if items == [] then [] else EntryOf(items[0]) + CleanEntries(items[1..])
  }

  /** Every entry the cleaner keeps is stripped and non-blank. */
  lemma {:induction false} CleanEntriesClean(items: seq<Json>)
    ensures forall i :: 0 <= i < |CleanEntries(items)| ==> IsCleanEntry(CleanEntries(items)[i])
  {
    if items != [] {
      CleanEntriesClean(items[1..]);
    }
  }

  /** `data.get("glossary") or []`, then the list check and the loop. */
  function CleanGlossary(glossary: Json): (r: seq<GlossaryEntry>)
    ensures !glossary.JArray? ==> r == []
    ensures glossary.JArray? ==> |r| <= |glossary.items|
  {
    if Truthy(glossary) && glossary.JArray? then CleanEntries(glossary.items) else []
  }

  lemma CleanGlossaryClean(glossary: Json)
    ensures forall i :: 0 <= i < |CleanGlossary(glossary)| ==> IsCleanEntry(CleanGlossary(glossary)[i])
  {
    if glossary.JArray? {
      CleanEntriesClean(glossary.items);
    }
  }

  lemma {:induction false} CleanEntriesConcat(a: seq<Json>, b: seq<Json>)
    ensures CleanEntries(a + b) == CleanEntries(a) + CleanEntries(b)
  {
    ConcatFirst(a, b);
    if a == [] {
      ConcatEmpty(CleanEntries(b));
    } else {
      CleanEntriesConcat(a[1..], b);
      ConcatAssoc(EntryOf(a[0]), CleanEntries(a[1..]), CleanEntries(b));
    }
  }

  /**
   * The cleaner is an order-preserving filter: the output for a list is the
   * outputs for its parts, concatenated, and each item contributes at most
   * its own cleaned entry.
   */
  lemma CleanEntriesFilter(a: seq<Json>, x: Json, b: seq<Json>)
    ensures CleanEntries(a + [x] + b)
         == CleanEntries(a) + (if CleanEntry(x).Some? then [CleanEntry(x).value] else []) + CleanEntries(b)
  {
    CleanEntriesConcat(a + [x], b);
    CleanEntriesConcat(a, [x]);
    assert [x][1..] == [];
    ConcatEmpty(EntryOf(x));
    assert CleanEntries([x]) == EntryOf(x);
  }

  /** How a clean glossary entry is written back as JSON. */
  function EncodeEntry(e: GlossaryEntry): Json {
    JObject(map["term" := JString(e.term), "definition" := JString(e.definition)])
  }

  function EncodeEntries(g: seq<GlossaryEntry>): (r: seq<Json>)
    ensures |r| == |g|
  {
    if g == [] then [] else [EncodeEntry(g[0])] + EncodeEntries(g[1..])
  }

  lemma CleanEntryEncoded(e: GlossaryEntry)
    requires IsCleanEntry(e)
    ensures CleanEntry(EncodeEntry(e)) == Some(e)
  {
    var m := EncodeEntry(e).fields;
    assert PyStr(Get(m, "term", JString(""))) == e.term;
    assert PyStr(Get(m, "definition", JString(""))) == e.definition;
    StrippedNoop(e.term);
    StrippedNoop(e.definition);
  }

  /** Cleaning a glossary of clean entries written as JSON returns it unchanged. */
  lemma {:induction false} CleanEntriesRoundTrip(g: seq<GlossaryEntry>)
    requires forall i :: 0 <= i < |g| ==> IsCleanEntry(g[i])
    ensures CleanEntries(EncodeEntries(g)) == g
  {
    if g != [] {
      CleanEntryEncoded(g[0]);
      CleanEntriesRoundTrip(g[1..]);
      assert EncodeEntries(g)[1..] == EncodeEntries(g[1..]);
    }
  }

  /** Cleaning is idempotent: a cleaned glossary written back as JSON cleans to itself. */
  lemma CleanEntriesIdempotent(items: seq<Json>)
    ensures CleanEntries(EncodeEntries(CleanEntries(items))) == CleanEntries(items)
  {
    CleanEntriesClean(items);
    CleanEntriesRoundTrip(CleanEntries(items));
  }

  /** `data.get(key, default).strip()`: raises when the value is not a string. */
  function TextField(fields: map<string, Json>, key: string, default: string): (r: Result<string, PayloadError>)
    ensures r.Ok? ==> IsStripped(r.value)
    ensures key !in fields ==> r == Ok(Strip(default))
    ensures key in fields && fields[key].JString? ==> r == Ok(Strip(fields[key].s))
    ensures r.Err? <==> key in fields && !fields[key].JString?
  {
    StripStripped(default);
    match Get(fields, key, JString(default))
    case JString(s) => StripStripped(s); Ok(Strip(s))
    case _ => Err(AttributeError(key))
  }

  lemma DefaultTitleStripped()
    ensures Strip(DefaultTitle) == DefaultTitle && Strip("") == ""
  {
    TrimNoop(DefaultTitle, IsSpace);
  }

  /**
   * The part of `_parse_story_payload` after decoding an object: the title
   * defaults to "Untitled Story" and the body to "", both stripped, and the
   * glossary is cleaned. A present title or body that is not a string raises.
   */
  function ParseFields(m: map<string, Json>): (r: Result<Story, PayloadError>)
    ensures r.Ok? ==> IsStripped(r.value.title) && IsStripped(r.value.body)
    ensures r.Ok? ==> forall i :: 0 <= i < |r.value.glossary| ==> IsCleanEntry(r.value.glossary[i])
    ensures r.Err? <==> ("title" in m && !m["title"].JString?) || ("story" in m && !m["story"].JString?)
    ensures r.Ok? && "title" !in m ==> r.value.title == DefaultTitle
    ensures r.Ok? && "story" !in m ==> r.value.body == []
    ensures r.Ok? && "glossary" !in m ==> r.value.glossary == []
  {
    DefaultTitleStripped();
    var glossary := Get(m, "glossary", JNull);
    CleanGlossaryClean(glossary);
    var title := TextField(m, "title", DefaultTitle);
    var body := TextField(m, "story", "");
    if title.Err? then Err(title.error)
    else if body.Err? then Err(body.error)
    else Ok(Story(title.value, body.value, CleanGlossary(glossary)))
  }

  /**
   * A parsed story holds what the object held: the stripped title and body
   * strings, and the glossary the cleaner keeps from the object's list.
   */
  lemma ParseFieldsReads(m: map<string, Json>)
    requires ParseFields(m).Ok?
    ensures "title" in m ==> m["title"].JString? && ParseFields(m).value.title == Strip(m["title"].s)
    ensures "story" in m ==> m["story"].JString? && ParseFields(m).value.body == Strip(m["story"].s)
    ensures ParseFields(m).value.glossary == CleanGlossary(Get(m, "glossary", JNull))
  {
    var title := TextField(m, "title", DefaultTitle);
    var body := TextField(m, "story", "");
    assert title.Ok? && body.Ok?;
    assert ParseFields(m).value.title == title.value;
    assert ParseFields(m).value.body == body.value;
  }

  /**
   * `_parse_story_payload`: a reply that does not decode raises the
   * `ValueError` the caller reports; a decoded value that is not an object
   * fails on `data.get`.
   */
  function ParseStoryPayload(payload: string, decode: string -> Option<Json>): (r: Result<Story, PayloadError>)
    ensures decode(payload).None? <==> r == Err(ValueError(InvalidJsonMessage))
    ensures decode(payload).Some? && !decode(payload).value.JObject? ==> r == Err(AttributeError("get"))
    ensures decode(payload).Some? && decode(payload).value.JObject? ==> r == ParseFields(decode(payload).value.fields)
    ensures r.Ok? ==> decode(payload).Some? && decode(payload).value.JObject?
  {
    match decode(payload)
    case None => Err(ValueError(InvalidJsonMessage))
    case Some(JObject(m)) => ParseFields(m)
    case Some(_) => Err(AttributeError("get"))
  }

  /** A story as the parser can return it. */
  predicate IsCleanStory(s: Story) {
    && IsStripped(s.title)
    && IsStripped(s.body)
    && forall i :: 0 <= i < |s.glossary| ==> IsCleanEntry(s.glossary[i])
  }

  /** A story written out as the JSON object the prompt asks the model for. */
  function EncodeStory(s: Story): Json {
    JObject(map[
      "title" := JString(s.title),
      "story" := JString(s.body),
      "glossary" := JArray(EncodeEntries(s.glossary))
    ])
  }

  lemma EncodeStoryFields(s: Story)
    ensures var m := EncodeStory(s).fields;
      && "title" in m && m["title"] == JString(s.title)
      && "story" in m && m["story"] == JString(s.body)
      && Get(m, "glossary", JNull) == JArray(EncodeEntries(s.glossary))
  {
  }

  /** A clean glossary written as a JSON list cleans back to itself, the empty list included. */
  lemma CleanGlossaryRoundTrip(g: seq<GlossaryEntry>)
    requires forall i :: 0 <= i < |g| ==> IsCleanEntry(g[i])
    ensures CleanGlossary(JArray(EncodeEntries(g))) == g
  {
    var items := EncodeEntries(g);
    if g == [] {
      assert !Truthy(JArray(items));
    } else {
      assert Truthy(JArray(items));
      CleanEntriesRoundTrip(g);
    }
  }

  /** Parsing a reply that encodes a clean story returns that story. */
  lemma ParseRoundTrip(s: Story)
    requires IsCleanStory(s)
    ensures ParseFields(EncodeStory(s).fields) == Ok(s)
  {
    var m := EncodeStory(s).fields;
    EncodeStoryFields(s);
    TextFieldOfString(m, "title", DefaultTitle);
    TextFieldOfString(m, "story", "");
    CleanGlossaryRoundTrip(s.glossary);
  }

  lemma TextFieldOfString(fields: map<string, Json>, key: string, default: string)
    requires key in fields && fields[key].JString? && IsStripped(fields[key].s)
    ensures TextField(fields, key, default) == Ok(fields[key].s)
  {
    TrimNoop(fields[key].s, IsSpace);
  }

  // ---------------------------------------------------------------------------
  // Prompt construction

  /** Word-count wording for each story length. */
  const LengthInstructions: map<string, string> := map[
    "short" := "about 150-250 words",
    "medium" := "about 300-450 words",
    "long" := "about 500-700 words"
  ]

  const NoTopicsText := "None specified"
  const TopicJoiner := "\n- "
  const NoGlossaryInstruction := "Do not include a glossary."
  const GlossaryInstructionStart := "Include a short glossary of 5-8 important words translated into the reader's native language ("
  const GlossaryInstructionEnd := ")."
  const DefaultStoryGoal := "Engage the reader with a positive tone."

  /** How an f-string renders a possibly missing value. */
  function Show(value: Option<string>): string {
    value.GetOr("None")
  }

  /** The length wording: a table lookup, with the medium wording for a missing or unknown length. */
  function LengthInstruction(p: Params): string {
    var length := p.storyLength.GetOr("medium");
    if length in LengthInstructions then LengthInstructions[length] else LengthInstructions["medium"]
  }

  /** The topics line: the topics joined by a newline and dash, or "None specified". */
  function TopicText(p: Params): string {
    var topics := p.topics.GetOr([]);
    if topics == [] then NoTopicsText else Join(topics, TopicJoiner)
  }

  /** The glossary line: names the native language when a glossary is requested. */
  function GlossaryInstruction(p: Params): (r: string)
    ensures r == NoGlossaryInstruction <==> p.includeGlossary != Some(true)
  {
    if p.includeGlossary == Some(true)
    then GlossaryInstructionStart + Show(p.nativeLanguage) + GlossaryInstructionEnd
    else NoGlossaryInstruction
  }

  /** The values the prompt template is filled with. Its fixed wording is not modelled. */
  datatype StoryPrompt = StoryPrompt(
    learningLanguage: string,
    levelSchema: string,
    level: string,
    nativeLanguage: string,
    lengthInstruction: string,
    topicText: string,
    storyGoal: string,
    glossaryInstruction: string)

  /** Python's `build_story_prompt`, as the slot values of its template. */
  function BuildStoryPrompt(p: Params): (r: StoryPrompt)
    ensures r.lengthInstruction in LengthInstructions.Values
    ensures r.topicText == NoTopicsText <== p.topics.GetOr([]) == []
    ensures r.storyGoal == DefaultStoryGoal <== p.storyGoal.None?
    ensures p.storyGoal.Some? ==> r.storyGoal == p.storyGoal.value
    ensures p.topics.GetOr([]) != [] ==> r.topicText == Join(p.topics.value, TopicJoiner)
    ensures p.learningLanguage.Some? ==> r.learningLanguage == p.learningLanguage.value
    ensures p.nativeLanguage.Some? ==> r.nativeLanguage == p.nativeLanguage.value
    ensures p.levelSchema.Some? ==> r.levelSchema == p.levelSchema.value
    ensures p.level.Some? ==> r.level == p.level.value
    ensures p.learningLanguage.None? ==> r.learningLanguage == "None"
    ensures p.nativeLanguage.None? ==> r.nativeLanguage == "None"
    ensures r.lengthInstruction == LengthInstruction(p) && r.glossaryInstruction == GlossaryInstruction(p)
  {
    StoryPrompt(
      Show(p.learningLanguage),
      Show(p.levelSchema),
      Show(p.level),
      Show(p.nativeLanguage),
      LengthInstruction(p),
      TopicText(p),
      p.storyGoal.GetOr(DefaultStoryGoal),
      GlossaryInstruction(p))
  }

  /** Each known length gets its own wording; anything else reads as medium. */
  lemma LengthInstructionChoice(p: Params)
    ensures LengthInstruction(p) == "about 150-250 words" <==> p.storyLength == Some("short")
    ensures LengthInstruction(p) == "about 500-700 words" <==> p.storyLength == Some("long")
    ensures LengthInstruction(p) == "about 300-450 words"
        <==> p.storyLength != Some("short") && p.storyLength != Some("long")
  {
  }

  /** The topics line joined with "\n- " is the topics put back in bullet form one per line. */
  function Bulleted(topics: seq<string>): (r: seq<string>)
    requires |topics| >= 1
    ensures |r| == |topics| && r[0] == topics[0]
    ensures forall i :: 1 <= i < |r| ==> r[i] == "- " + topics[i]
  {
    [topics[0]] + seq(|topics| - 1, i requires 0 <= i < |topics| - 1 => "- " + topics[i + 1])
  }

  lemma {:induction false} JoinBulleted(topics: seq<string>)
    requires |topics| >= 1
    ensures Join(topics, TopicJoiner) == Join(Bulleted(topics), "\n")
  {
    if |topics| > 1 {
      var j := Join(Bulleted(topics[1..]), "\n");
      JoinBulleted(topics[1..]);
      BulletedStep(topics);
      ConcatAssoc(topics[0] + "\n", "- ", j);
      ConcatAssoc(topics[0], "\n", "- ");
      assert TopicJoiner == "\n" + "- ";
    }
  }

  /** One line of the bullet form: the first topic, a newline, then the rest bulleted. */
  lemma BulletedStep(topics: seq<string>)
    requires |topics| > 1
    ensures Join(Bulleted(topics), "\n") == (topics[0] + "\n") + ("- " + Join(Bulleted(topics[1..]), "\n"))
  {
    var rest := Bulleted(topics[1..]);
    var b := Bulleted(topics);
    assert b[1..] == ["- " + rest[0]] + rest[1..];
    JoinPrefixFirst(rest, "- ", "\n");
  }

  /** Joining with `sep` after prefixing the first piece is prefixing the join. */
  lemma JoinPrefixFirst(xs: seq<string>, prefix: string, sep: string)
    requires |xs| >= 1
    ensures Join([prefix + xs[0]] + xs[1..], sep) == prefix + Join(xs, sep)
  {
    var ys := [prefix + xs[0]] + xs[1..];
    assert ys[1..] == xs[1..];
  }

  /**
   * The topics line loses nothing: for topics without line breaks, splitting it
   * at newlines gives the first topic and then each further topic behind "- ".
   */
  lemma TopicTextRoundTrip(p: Params)
    requires p.topics.Some? && p.topics.value != []
    requires forall i :: 0 <= i < |p.topics.value| ==> '\n' !in p.topics.value[i]
    ensures Split(TopicText(p), '\n') == Bulleted(p.topics.value)
  {
    var topics := p.topics.value;
    JoinBulleted(topics);
    var b := Bulleted(topics);
    forall i | 0 <= i < |b| ensures '\n' !in b[i] {
      if i > 0 {
        assert b[i] == "- " + topics[i];
      }
    }
    SplitJoin(b, '\n');
  }

  /**
   * The glossary line determines whether a glossary was requested and, when it
   * was, the native language it names.
   */
  lemma GlossaryInstructionDetermines(p: Params, q: Params)
    requires GlossaryInstruction(p) == GlossaryInstruction(q)
    ensures p.includeGlossary == Some(true) <==> q.includeGlossary == Some(true)
    ensures p.includeGlossary == Some(true) ==> Show(p.nativeLanguage) == Show(q.nativeLanguage)
  {
    var a, b := Show(p.nativeLanguage), Show(q.nativeLanguage);
    var s, e := GlossaryInstructionStart, GlossaryInstructionEnd;
    if p.includeGlossary == Some(true) && q.includeGlossary == Some(true) {
      var x, y := s + a + e, s + b + e;
      assert |x| == |y|;
      assert x[|s|..|x| - |e|] == a;
      assert y[|s|..|y| - |e|] == b;
    }
  }
}
