/** The two servers' repository-name checks side by side
    (public/index.php `createEmptyRepository`, public/server.js
    `createEmptyRepository`). */
module Gates {
  import PhpGate
  import JsGate

  /** The two servers decide the same on every input that their sanitizers
      map to the same name. */
  lemma GatesAgree(input: string, existing: set<string>)
    requires PhpGate.SanitizeRepoName(input) == JsGate.SanitizeRepoName(input)
    ensures PhpGate.CreateRepositoryName(input, existing) == JsGate.CreateRepositoryName(input, existing)
  {
    PhpGate.CreateRepositoryNameSpec(input, existing);
    JsGate.CreateRepositoryNameSpec(input, existing);
  }
}
