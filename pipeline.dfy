/** `generate_skill_tree` without its console output and file writes:
    extraction, classification, then tree building. */
module Pipeline {
  import opened Wrappers
  import opened SkillModel
  import opened Extraction
  import opened KeywordFallback
  import opened ResponseParsing
  import opened TreeBuilder

  /** The tree a run produces, or the extraction error that ends it. */
  function GenerateSkillTree(primary: Backend, secondary: Backend, apiKey: Option<string>,
                             remote: string -> Reply, parse: string -> Option<SkillData>): Result<Node, ExtractError>
  {
    match ExtractSpec(primary, secondary)
    case Err(e) => Err(e)
    case Ok(resumeText) => Ok(SkillTree(Classify(resumeText, apiKey, remote, parse).record))
  }

  /** An extraction failure ends the run with that failure; without an API
      key the tree is built from the keyword fallback's record, so it has no
      Soft Skills, Domain Expertise or Certifications branch. */
  lemma RunWithoutKey(primary: Backend, secondary: Backend, remote: string -> Reply,
                      parse: string -> Option<SkillData>)
    ensures ExtractSpec(primary, secondary).Err? ==>
      GenerateSkillTree(primary, secondary, None, remote, parse) == Err(ExtractSpec(primary, secondary).error)
    ensures ExtractSpec(primary, secondary).Ok? ==>
      var text := ExtractSpec(primary, secondary).value;
      var tree := GenerateSkillTree(primary, secondary, None, remote, parse);
      && tree == Ok(SkillTree(FallbackRecord(text)))
      && !HasBranch(tree.value.children, SoftName)
      && !HasBranch(tree.value.children, DomainName)
      && !HasBranch(tree.value.children, CertificationName)
  {
    if ExtractSpec(primary, secondary).Ok? {
      BranchPresence(FallbackRecord(ExtractSpec(primary, secondary).value));
    }
  }
}
