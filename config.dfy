/** The constant sets of the application configuration that the core reads. */
module Config {

  /** ALLOWED_EXTENSIONS: the upload extensions accepted for review. */
  const AllowedExtensions: set<string> := {"py", "js", "jsx", "ts", "tsx"}

  /** LANGUAGE_MAPPING. Only its keys are consulted (by language validation);
      note that "javascript" maps to the single string "js, jsx". */
  const LanguageMapping: map<string, seq<string>> :=
    map["python" := ["py"], "javascript" := ["js, jsx"], "typescript" := ["ts", "tsx"]]
}
