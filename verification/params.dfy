/**
 * The parameter dictionary handed from the form to the validator, the prompt
 * builder and the PDF helpers. One field per key the modelled code reads;
 * `None` stands for a key that is absent from the dictionary.
 */
module StoryParams {
  import opened Optional

  datatype Params = Params(
    storyCount: Option<int>,
    learningLanguage: Option<string>,
    nativeLanguage: Option<string>,
    levelSchema: Option<string>,
    level: Option<string>,
    storyLength: Option<string>,
    topics: Option<seq<string>>,
    includeGlossary: Option<bool>,
    storyGoal: Option<string>,
    promptSeed: Option<string>)
}
