/** lib/patches/punycode.patch.js: the three import forms of the `punycode`
    module get a trailing slash, which selects the userland package instead
    of the deprecated core module. */
module Punycode {
  import opened Regex
  import PatchBase
  import Wrappers

  /** `require\("punycode"\)`, `from "punycode"` and `import "punycode"`,
      each with its slash-suffixed replacement, in list order. */
  const RULES: seq<Rule> := [
    Rule([Lit("require(\"punycode\")")], "require(\"punycode/\")"),
    Rule([Lit("from \"punycode\"")], "from \"punycode/\""),
    Rule([Lit("import \"punycode\"")], "import \"punycode/\"")]

  /** A rule whose pattern is one literal and whose replacement is longer. */
  lemma LiteralRule(r: Rule)
    requires |r.pattern| == 1 && r.pattern[0].Lit? && |r.pattern[0].text| > 0
    requires |r.replacement| > |r.pattern[0].text|
    ensures Separated(r.pattern) && Lengthens(r)
  {
    assert MinLen(r.pattern) == |r.pattern[0].text|;
  }

  /** Every rule is separated and lengthens the text at each match. */
  lemma RulesFacts()
    ensures WellFormed(RULES)
    ensures forall k :: 0 <= k < |RULES| ==> Separated(RULES[k].pattern) && Lengthens(RULES[k])
  {
    forall k | 0 <= k < |RULES| ensures Separated(RULES[k].pattern) && Lengthens(RULES[k]) {
      LiteralRule(RULES[k]);
    }
  }

  /** `canApply`: some form occurs (`REPLACEMENTS.some(...)`). */
  predicate CanApply(source: string) {
    RulesFacts();
    AnyOccurs(RULES, source)
  }

  /** What `apply` computes: the rules applied one after another. */
  function Rewrite(source: string): string {
    RulesFacts();
    ReplaceEach(RULES, source)
  }

  /** `apply`: the loop over the replacements, each on the previous result. */
  method Apply(source: string) returns (result: string)
    ensures result == Rewrite(source)
  {
    RulesFacts();
    result := source;
    assert WellFormed(RULES[..0]);
    for k := 0 to |RULES|
      invariant WellFormed(RULES[..k])
      invariant result == ReplaceEach(RULES[..k], source)
    {
      ReplaceEachStep(RULES, k, source);
      result := ApplyRule(RULES[k], result);
    }
    assert RULES[..|RULES|] == RULES;
  }

  /** `canApply` holds exactly when one of the three forms occurs. */
  lemma CanApplyIff(source: string)
    ensures CanApply(source) <==>
      exists k, i: nat, n: nat :: 0 <= k < |RULES| && MatchesAt(RULES[k].pattern, source, i, n)
  {
    RulesFacts();
    AnyOccursSome(RULES, source);
    forall k | 0 <= k < |RULES|
      ensures RuleMatches(RULES[k], source) <==> exists i: nat, n: nat :: MatchesAt(RULES[k].pattern, source, i, n)
    {
      TestIffMatch(RULES[k].pattern, source);
    }
  }

  /** `apply` never shortens the text, and lengthens it exactly when
      `canApply` holds; a text without the three forms (a bare `"punycode"`
      string, say) comes back unchanged. */
  lemma RewriteLengthens(source: string)
    ensures |Rewrite(source)| >= |source|
    ensures |Rewrite(source)| > |source| <==> CanApply(source)
    ensures !CanApply(source) ==> Rewrite(source) == source
  {
    RulesFacts();
    ReplaceEachLengthens(RULES, source);
    if !CanApply(source) {
      ReplaceEachIdentity(RULES, source);
    }
  }

  const PATCH: PatchBase.Patch := PatchBase.NewPatch(PatchBase.Fields(
    "punycode",
    "Add trailing slash to punycode imports (Node.js deprecation fix)",
    Wrappers.Some(false),
    PatchBase.Custom(CanApply),
    PatchBase.Custom(Rewrite),
    PatchBase.Default))

  /** The descriptor never turns down its own change once `canApply` passed. */
  lemma PatchEffective()
    ensures PatchBase.Effective(PATCH)
  {
    forall s | PATCH.canApply.f(s)
      ensures PATCH.apply.f(s) != s
    {
      RewriteLengthens(s);
    }
  }
}
