// The node configuration's mapping from the configured routing-algorithm
// name to the algorithm kind.

module Config {
  import opened Wrappers
  import opened Text
  import opened Routing

  const EPIDEMIC_NAME: string := "epidemic"
  const PROPHET_NAME: string := "prophet"

  /** The algorithm kind chosen, and the warning printed when the name is
      not recognised. */
  datatype AlgorithmChoice = AlgorithmChoice(kind: RoutingAlgorithmType, warning: Option<string>)

  function FallbackWarning(name: string): string {
    "Warning: Unknown routing algorithm '" + name + "', falling back to epidemic"
  }

  /** `name` spells `word` when letter case is ignored. */
  predicate SpellsIgnoringCase(name: string, word: string) {
    |name| == |word| && forall i :: 0 <= i < |name| ==> LowerChar(name[i]) == word[i]
  }

  /** `get_routing_algorithm_type`: "epidemic" and "prophet" in any letter
      case name their algorithms; any other name falls back to epidemic
      with a warning that quotes the name as configured. */
  function GetRoutingAlgorithmType(name: string): (r: AlgorithmChoice)
    ensures r.kind == Prophet <==> SpellsIgnoringCase(name, PROPHET_NAME)
    ensures r.kind == Epidemic <==> !SpellsIgnoringCase(name, PROPHET_NAME)
    ensures r.warning.None? <==> SpellsIgnoringCase(name, EPIDEMIC_NAME) || SpellsIgnoringCase(name, PROPHET_NAME)
    ensures r.warning.Some? ==> r.warning.value == FallbackWarning(name)
  {
    var lower := AsciiLower(name);
    LowerSpells(name, EPIDEMIC_NAME);
    LowerSpells(name, PROPHET_NAME);
    if lower == EPIDEMIC_NAME then AlgorithmChoice(Epidemic, None)
    else if lower == PROPHET_NAME then AlgorithmChoice(Prophet, None)
    else AlgorithmChoice(Epidemic, Some(FallbackWarning(name)))
  }

  /** Lowercasing gives `word` exactly when the name spells it ignoring
      case. */
  lemma LowerSpells(name: string, word: string)
    ensures AsciiLower(name) == word <==> SpellsIgnoringCase(name, word)
  {
    if SpellsIgnoringCase(name, word) {
      assert forall i :: 0 <= i < |name| ==> AsciiLower(name)[i] == word[i];
    }
  }

  /** The choice depends on the lowercased name only: names that differ in
      letter case choose the same algorithm, and warn alike. */
  lemma ChoiceIgnoresCase(a: string, b: string)
    requires AsciiLower(a) == AsciiLower(b)
    ensures GetRoutingAlgorithmType(a).kind == GetRoutingAlgorithmType(b).kind
    ensures GetRoutingAlgorithmType(a).warning.None? <==> GetRoutingAlgorithmType(b).warning.None?
  {
    LowerSpells(a, EPIDEMIC_NAME);
    LowerSpells(a, PROPHET_NAME);
    LowerSpells(b, EPIDEMIC_NAME);
    LowerSpells(b, PROPHET_NAME);
  }

  /** Concrete names: "EPIDEMIC" and "Prophet" are recognised, and an
      unknown name falls back to epidemic with a warning. */
  lemma NamedChoices()
    ensures GetRoutingAlgorithmType("EPIDEMIC") == AlgorithmChoice(Epidemic, None)
    ensures GetRoutingAlgorithmType("Prophet") == AlgorithmChoice(Prophet, None)
    ensures GetRoutingAlgorithmType("unknown_algorithm").kind == Epidemic
    ensures GetRoutingAlgorithmType("unknown_algorithm").warning.Some?
  {
    assert SpellsIgnoringCase("EPIDEMIC", EPIDEMIC_NAME);
    assert SpellsIgnoringCase("Prophet", PROPHET_NAME);
    assert !SpellsIgnoringCase("unknown_algorithm", PROPHET_NAME);
    assert !SpellsIgnoringCase("unknown_algorithm", EPIDEMIC_NAME);
  }
}
