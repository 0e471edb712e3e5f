/** The configuration constants the modelled logic depends on
    (src/config.py). Endpoint, sampling parameters and PDF margins only reach
    code that is outside the model and are not repeated here. */
module Config {

  /** `LANGUAGE_MAP`: one-letter codes to language names. */
  const LanguageMap: map<char, string> :=
    map['C' := "Chinese", 'J' := "Japanese", 'K' := "Korean", 'E' := "English"]

  /** `AVAILABLE_MODELS`, in their listed order. */
  const AvailableModels: seq<string> := [
    "o3-mini",
    "gpt-4o-mini",
    "gpt-4o",
    "gpt-35-turbo-16k",
    "Meta-Llama-3-1-70B-Instruct-htzs",
    "Meta-Llama-3-1-8B-Instruct-nwxcg",
    "Mistral-small-zgjes"
  ]

  const DefaultModel: string := "gpt-4o"

  /** `CONTEXT_PERCENTAGE`: the share of the previous page skipped before the
      part that is quoted as context. */
  const ContextPercentage: real := 0.65

  /** The four codes name four different languages, so two distinct codes
      never name the same language. */
  lemma LanguageNamesDistinct(a: char, b: char)
    requires a in LanguageMap && b in LanguageMap && a != b
    ensures LanguageMap[a] != LanguageMap[b]
  {
  }
}
