# GradReader core, modelled in Dafny

GradReader is a Streamlit app that generates graded reading stories with a
hosted language model. It can add narration through a hosted speech
service, and it packages the stories as PDFs and a zip archive. Around
those services sits a small, deterministic core, and that core is what this
project models and proves things about:

- **Input sanitising and validation** (`utils/validators.py`):
  - the comma-separated topic sanitiser;
  - the ordered chain of parameter checks;
  - the level tables with their CEFR fallback.
- **Post-processing of the model's reply** (`utils/ai.py`):
  - title and body defaults and stripping;
  - glossary cleaning;
  - the branch choices of the prompt builder (length table, topic text, glossary instruction).
- **Bookkeeping of a generation run** (`streamlit_app.py`):
  - language labels;
  - the parameters passed to the PDF renderer;
  - file-name slugs;
  - the generation loop with its early halt;
  - split-mode PDF backfill;
  - the manifest;
  - the ordered archive file list.

Modules:

| file | module | contents |
|---|---|---|
| `option.dfy` | `Optional` | `Option` and `Result` |
| `params.dfy` | `StoryParams` | the `params` dictionary as a record; a missing key is `None` |
| `seqs.dfy` | `Seqs` | small sequence lemmas |
| `text.dfy` | `Text` | Python's `str.isspace`, `\w`, `strip`/`rstrip`, `split`, `join`, `re.sub` of a character-class run, and `str(n)` for naturals |
| `validators.dfy` | `Validators` | `allowed_levels`, `sanitize_topics`, `validate_params` |
| `ai.dfy` | `Ai` | decoded JSON values, `_parse_story_payload` after decoding, `build_story_prompt`'s choices |
| `app.dfy` | `App` | `LANGUAGE_OPTIONS`, `_pdf_params`, `_slugify`, the `params` dictionary, the generation loop, backfill, manifest, archive list, and a whole press of "Generate" |

Every external effect becomes a function parameter:

- JSON decoding is `decode: string -> Option<Json>`.
- The text model's answer for story `i` is `generate(i)`. It is `None` when
  the request raises one of the errors the loop catches.
- Narration for story `i` is `synthesize(i)`. It is `None` when synthesis fails.
- The two PDF renderers are `render` and `renderAll`.

Two places follow the code where its own wording says otherwise:

- `validate_params` rejects a prompt seed only when it is longer than 300
  characters, so a seed of exactly 300 passes. Its message says "under 300".
- `sanitize_topics` checks the cap only after appending. A `max_topics`
  of zero or less therefore yields at most one topic: the first non-blank
  chunk's, or none when every chunk is blank (`TopicCap`).

## Model

| member | source | states |
|---|---|---|
| `Validators.AllowedLevelsValidate` | utils/validators.py:22-25 | an unknown framework is offered the CEFR levels (and validation then rejects the framework); every level offered for a known framework passes the level check |
| `Validators.CleanChunkShape` | utils/validators.py:35 | a cleaned chunk is stripped, has no two whitespace characters in a row, uses only plain spaces, and gains no comma |
| `Validators.ShortenLong` | utils/validators.py:38-39 | a cleaned chunk longer than 40 becomes its first 40 characters with only their trailing whitespace dropped, non-blank, followed by "…" |
| `Validators.TopicShape` | utils/validators.py:35-40 | every topic from a non-blank chunk is non-empty, at most 41 characters, stripped, single-spaced and comma-free; a chunk of at most 40 characters is kept whole, and a longer one becomes its first 40 characters, right-stripped, followed by "…" |
| `Validators.SanitizedTopicsShape` | utils/validators.py:31-43 | the sanitised list never exceeds the cap, and every element has the topic shape |
| `Validators.SanitizeTopics` | utils/validators.py:28-43 | the scan equals the reference definition (first cap topics of the cleaned, non-blank chunks in order); empty input gives no topics; at most `max_topics` topics for a positive limit; every topic well-shaped |
| `Validators.ScanChunks` | utils/validators.py:33-43 | the loop that breaks once the cap is reached returns exactly the first cap topics of all chunks |
| `Validators.SanitizeStopsAtCap` | utils/validators.py:41-42 | once the cap is reached, chunks after a further comma cannot change the result |
| `Validators.SanitizeConcat` | utils/validators.py:34-40 | topics keep the order of their chunks: cleaning any two texts joined by a comma gives the topics of each part, concatenated |
| `Validators.ValidateParams` | utils/validators.py:46-78 | accepted exactly when the count is 1..10, both languages are supported and differ, the framework is known, the level belongs to it, there are at most 5 topics and the seed has at most 300 characters; the message is absent exactly when accepted |
| `Validators.ValidateReportsFirstFailure` | utils/validators.py:49-76 | a rejection reports the message of the first failing check in source order |
| `Validators.SameLanguagesRejected` | utils/validators.py:59-60 | equal learning and native languages are always rejected, with the "should differ" message once the earlier checks pass |
| `Text.JoinSplit` | utils/validators.py:34 | joining the pieces of a split with the separator restores the input, so splitting loses no characters |
| `Text.SplitConcat` | utils/validators.py:34 | splitting text joined by a separator yields the pieces of each part |
| `Text.SubRunsNoAdjacent` | utils/validators.py:35 | after replacing each whitespace run by one space, no two whitespace characters are adjacent |
| `Text.StripIdempotent` | utils/validators.py:35 | stripping twice is stripping once |
| `Text.DecimalInjective` | streamlit_app.py:240 | distinct story numbers render as distinct digit strings |
| `Ai.CleanEntry` | utils/ai.py:114-120 | an item is kept exactly when it is an object whose stripped term and stripped definition are both non-empty; the kept entry holds those stripped values |
| `Ai.CleanEntriesClean` | utils/ai.py:117-120 | every kept entry has a stripped, non-empty term and definition |
| `Ai.CleanEntriesFilter` | utils/ai.py:114-120 | cleaning is an order-preserving filter: each item contributes at most its own entry, in place |
| `Ai.CleanGlossary` | utils/ai.py:109-113 | a missing, falsy or non-list glossary yields no entries; the output is never longer than the input list |
| `Ai.CleanEntriesRoundTrip` | utils/ai.py:112-120 | a clean glossary written as JSON objects cleans back to itself |
| `Ai.CleanEntriesIdempotent` | utils/ai.py:112-120 | cleaning a cleaned glossary written back as JSON changes nothing |
| `Ai.CleanGlossaryRoundTrip` | utils/ai.py:109-120 | a clean glossary written as a JSON list, the empty one included, cleans to itself |
| `Ai.TextField` | utils/ai.py:107-108 | a field present as a string reads as that string stripped, an absent field reads as the stripped default, and the read raises exactly when the field is present but not a string |
| `Ai.ParseFields` | utils/ai.py:107-122 | title and body are stripped, default to "Untitled Story" and ""; a missing glossary is empty; the parse fails exactly when the title or body is present but not a string |
| `Ai.ParseFieldsReads` | utils/ai.py:107-122 | a parsed story's title and body are the object's `title` and `story` strings, stripped, and its glossary is what the cleaner keeps from the object's `glossary` value |
| `Ai.ParseStoryPayload` | utils/ai.py:99-105 | an undecodable reply is exactly the "Model response was not valid JSON." error; a decoded non-object fails on `get`; an object is parsed field by field |
| `Ai.ParseRoundTrip` | utils/ai.py:99-122 | a reply that encodes a clean story parses back to that story |
| `Ai.BuildStoryPrompt` | utils/ai.py:53-69 | the length wording is always one of the table's three; topics are joined by a newline and dash, and no topics give "None specified"; a given goal is used as is and a missing one gives the default goal; given languages, framework and level are filled in as they are, and a missing language reads "None" |
| `Ai.LengthInstructionChoice` | utils/ai.py:63-67 | "short" and "long" get their own wording, and every other or missing length gets the medium wording |
| `Ai.JoinBulleted` | utils/ai.py:54 | joining with "\n- " is the first topic followed by each further topic on its own line behind "- " |
| `Ai.TopicTextRoundTrip` | utils/ai.py:53-54 | for topics without line breaks, splitting the topic text at newlines recovers the topics in bullet form |
| `Ai.GlossaryInstruction` | utils/ai.py:56-61 | the glossary line is "Do not include a glossary." exactly when a glossary was not requested |
| `Ai.GlossaryInstructionDetermines` | utils/ai.py:56-61 | the glossary line determines whether a glossary was requested and, if so, the native language it names |
| `App.LanguageOptionsMatchAllowed` | streamlit_app.py:19-32 | the selectable languages are exactly the ones validation accepts, each with a non-empty name |
| `App.LanguageNamesDistinct` | streamlit_app.py:19-32 | no two languages share a display name |
| `App.PdfLabel` | streamlit_app.py:69-70 | the PDF label is empty exactly when the tag is missing or unsupported |
| `App.LabelsAgree` | streamlit_app.py:217-218 | for a supported tag the PDF label and the manifest label are the same non-empty name; otherwise the PDF gets "" and the manifest keeps the tag |
| `App.ToPdfParams` | streamlit_app.py:65-73 | supported languages become their display names and others become ""; framework and level pass through; given topics and glossary flag pass through, missing topics become none and a missing glossary flag becomes off |
| `App.Slugify` | streamlit_app.py:46-49 | a slug is never empty |
| `App.SlugifyShape` | streamlit_app.py:47-49 | a slug holds only word characters and hyphens, with no hyphen at either end and never two in a row |
| `App.SlugMergesToItself` | streamlit_app.py:46-49 | stripping a slug and collapsing its unsafe and hyphen runs leaves it unchanged |
| `App.SlugifyIdempotent` | streamlit_app.py:46-49 | slugging a slug changes nothing |
| `App.SlugifyKeepsWords` | streamlit_app.py:47-49 | a slug keeps exactly the title's word characters, in order; a title without any becomes "story" |
| `App.ToParams` | streamlit_app.py:132-149 | the parameters carry the sidebar's topic text cleaned into at most five topics, the sidebar's count, languages, framework, level, length and glossary choice, and no story goal or prompt seed |
| `App.SidebarValidation` | streamlit_app.py:87-152 | every combination the sidebar offers passes validation except equal learning and native languages, which get the "should differ" message |
| `App.GenerateStories` | streamlit_app.py:164-195 | stories are the generated ones in order, stopping at the first failed request; clips are kept exactly for generated stories whose narration succeeded; in split mode each story gets its rendered PDF |
| `App.BackfillFrom` | streamlit_app.py:208-210 | from a position on, every story without a PDF gets one rendered, and existing PDFs are kept |
| `App.Backfill` | streamlit_app.py:207-210 | after backfill every story has a PDF, existing ones are unchanged, and new ones are the rendered story |
| `App.BackfillAfterLoop` | streamlit_app.py:192-210 | after a full split-mode loop the backfill changes nothing |
| `App.CombinedPdf` | streamlit_app.py:203-205 | the collection PDF exists exactly in combined mode and is the rendering of all stories |
| `App.FinalPdfs` | streamlit_app.py:207-214 | in split mode every story has a PDF; PDFs from the loop are kept; combined mode leaves the PDFs alone |
| `App.BuildManifest` | streamlit_app.py:216-232 | the header holds both languages' manifest labels and the sidebar's framework, level, length, glossary and audio choices; one entry per story, in order; entry `i` has index `i+1`, the story's title, and an audio flag set exactly when story `i` has a clip |
| `App.AudioIndicesSpec` | streamlit_app.py:241-244 | the stories with a clip are listed once each, in increasing order, and all of them are listed |
| `App.ArchiveLayout` | streamlit_app.py:234-244 | the collection PDF comes first exactly when one is non-empty; then, in split mode only, one `story_{i+1}_{slug}.pdf` per story in order; then one `story_{i+1}_{slug}.mp3` for exactly the stories with audio, in order, each with its bytes |
| `App.StoryFileNamesDiffer` | streamlit_app.py:240-244 | two story file names differ whenever the story numbers or the extensions differ |
| `App.ArchiveNamesDistinct` | streamlit_app.py:234-244 | no two archive entries share a name |
| `App.ClipListed` | streamlit_app.py:241-244 | a story's clip is in the archive exactly when the story has audio |
| `App.RunArchive` | streamlit_app.py:234-244 | a full run's archive list has distinct names |
| `App.ManifestMatchesArchive` | streamlit_app.py:224-244 | in a committed run the manifest's audio flag for a story is set exactly when the archive holds that story's clip |
| `App.FinishRun` | streamlit_app.py:200-202 | a run with fewer stories than requested only warns with the halted-early message; a full run commits |
| `App.Commit` | streamlit_app.py:202-254 | a committed run keeps the stories and clips, has the collection PDF exactly in combined mode, has every story's PDF in split mode, has one manifest entry per story, and has distinct archive names |
| `App.CommitAsPromised` | streamlit_app.py:202-254 | committing a full loop's stories, clips and PDFs gives one story per request, the clips as narrated, the collection PDF exactly in combined mode and rendered from all stories, every story's rendered PDF in split mode, the archive listing the collection PDF, the story PDFs and the clips in that order under their slugged names, the manifest built from the settings with one entry per story, and distinct archive names |
| `App.GenerateAndFinish` | streamlit_app.py:164-210 | after validation the run halts early exactly when some requested story fails; otherwise it commits exactly the requested stories, in order, with the clips of those whose narration succeeded, keeping every promise of a committed run |
| `App.Run` | streamlit_app.py:151-254 | invalid parameters are rejected with the validator's message; otherwise the run halts early exactly when some requested story fails; a committed run holds exactly the requested stories, in order, the clips of those whose narration succeeded (their bytes as narrated), the collection PDF exactly in combined mode, the archive listing the collection PDF, the story PDFs and the clips in that order, the manifest with its header and one entry per story, and distinct archive names |

## Left out

- The Streamlit interface, session state, progress bar and caching decorators: interface plumbing with no stateable logic.
- `build_zip_bundle`, `json.dumps` and `json.loads`: library serialisation. The model ends at the ordered file list and an abstract decode result.
- `get_openai_client`, the chat-completion request, `utils/audio.py` and `utils/pdf.py`: network clients and the FPDF library. They become the parameters `generate`, `synthesize`, `render`, `renderAll` and `decode`.
- The `voice`, `model_text`, `model_tts`, `temperature` and `top_p` settings: they only reach the external services. The floating-point progress fraction is left out for the same reason.
- `Text.IsWord`: exact for ASCII. Outside ASCII it treats every character as a word character unless it is whitespace or in a punctuation list (Latin typography, CJK and fullwidth punctuation, Arabic and Devanagari punctuation). Python's Unicode `\w` table is not reproduced, so other punctuation, symbols and combining marks such as the Devanagari virama count as word characters here.
- `Ai.PyStr`: `str()` of a list or dict is a fixed non-blank placeholder rather than Python's repr. The placeholder is what the cleaner keeps as the term or definition. For `{"term": ["a"], "definition": "x"}` the source keeps the term `['a']` and the model keeps the placeholder. Blankness, and so whether the entry is kept, agrees with the source.
- `Ai.BuildStoryPrompt`: the result is the values filled into the template. The template's fixed wording and its final `strip()` are not modelled. A key present with the value `None` cannot be told apart from an absent key, because `Params` uses `None` for absence. For `story_goal` the two differ: the source renders "None" into the prompt (utils/ai.py:69), where the model uses the default goal.
- `Validators.ValidateParams`: `story_count` is taken as an integer. The `int()` conversion and its failure on non-numeric input are not modelled. A topics value that is present but not a list is not representable. A key present with the value `None` reads as an absent key. For `level_schema` the two differ: the source rejects with "Select a valid proficiency framework." (utils/validators.py:62), where the model defaults to CEFR and may accept. For `story_count` the source's `int(None)` raises, where the model defaults to one. The application always passes these keys with real values.
- `App.GenerateStories`: the oracles are indexed by story position. The narration oracle is therefore not tied to the story body it would read. The error text shown for a failed request is not modelled.
- `App.Run`: two replies raise an `AttributeError` that the loop does not catch (streamlit_app.py:168-176), so in the source they abort the whole page run. One parses to an object whose title or body is not a string. The other decodes to a JSON value that is not an object, so `data.get` fails (utils/ai.py:107). Likewise, any exception from the PDF renderers (for instance `FileNotFoundError` from `load_fonts`, utils/pdf.py:39-41) and any synthesis exception other than `AudioSynthesisError` (streamlit_app.py:186) escape the outer `try` (streamlit_app.py:156), whose only handler is for `MissingAPIKeyError` (streamlit_app.py:258). The page then aborts with no warning and no commit. Here `generate` and `synthesize` are total and the renderers are total functions, so the model has no way to express those outcomes: it commits where the source aborts.
- `App.CombinedPdf`: in combined mode the source renders the collection once and renders it again only if the first result is empty. The renderer is a deterministic function here, so both renders give the same bytes.
- `App.Commit`: the session-state assignments and the success message are not modelled.
