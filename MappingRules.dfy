/** The mapping rule (LightGet/Logic/PathMappingRule.cs): which URL parts become parts of a local path. */
module MappingRules {

  datatype PathMappingRule = PathMappingRule(
    includeHost: bool,
    includePort: bool,
    includeParentPath: bool,
    includePath: bool)

  /** What `new PathMappingRule()` gives: every part included, the "full" mapping. */
  const DefaultRule := PathMappingRule(true, true, true, true)
}
