/** lib/patches/root-check.patch.js: every `getuid()`/`geteuid()` comparison
    with 0 becomes `false`. */
module RootCheck {
  import opened Regex
  import PatchBase
  import Wrappers

  /** `process\.getuid\(\)\s*===\s*0` */
  const GETUID: Pattern :=
    [Lit("process.getuid()"), Run(Space, 0, Unbounded), Lit("==="), Run(Space, 0, Unbounded), Lit("0")]

  /** `process\.getuid\?\.\(\)\s*===\s*0` */
  const GETUID_OPTIONAL: Pattern :=
    [Lit("process.getuid?.()"), Run(Space, 0, Unbounded), Lit("==="), Run(Space, 0, Unbounded), Lit("0")]

  /** `(\w+)\.getuid\(\)\s*===\s*0` */
  const ANY_GETUID: Pattern :=
    [Run(Word, 1, Unbounded), Lit(".getuid()"), Run(Space, 0, Unbounded), Lit("==="), Run(Space, 0, Unbounded), Lit("0")]

  /** `process\.geteuid\(\)\s*===\s*0` */
  const GETEUID: Pattern :=
    [Lit("process.geteuid()"), Run(Space, 0, Unbounded), Lit("==="), Run(Space, 0, Unbounded), Lit("0")]

  /** `process\.geteuid\?\.\(\)\s*===\s*0` */
  const GETEUID_OPTIONAL: Pattern :=
    [Lit("process.geteuid?.()"), Run(Space, 0, Unbounded), Lit("==="), Run(Space, 0, Unbounded), Lit("0")]

  const PATTERNS: seq<Pattern> := [GETUID, GETUID_OPTIONAL, ANY_GETUID, GETEUID, GETEUID_OPTIONAL]

  /** Each pattern is replaced globally by `false`, in list order. */
  const RULES: seq<Rule> := [
    Rule(GETUID, "false"), Rule(GETUID_OPTIONAL, "false"), Rule(ANY_GETUID, "false"),
    Rule(GETEUID, "false"), Rule(GETEUID_OPTIONAL, "false")]

  /** A pattern that never matches the empty string, is separated and holds an `=`. */
  predicate Fit(p: Pattern) {
    MinLen(p) > 0 && Separated(p) && LitHas(p, '=')
  }

  /** The patterns that start with a literal. */
  lemma LitHeaded(p: Pattern)
    requires |p| == 5 && p[0].Lit? && p[0].text != []
    requires p[1] == Run(Space, 0, Unbounded) && p[2] == Lit("===") && p[3] == Run(Space, 0, Unbounded) && p[4] == Lit("0")
    ensures Fit(p)
  {
    assert p[2].text[0] == '=';
    assert p[4].text[0] == '0';
    assert p[2].Lit? && '=' in p[2].text;
  }

  /** The pattern with a leading identifier run: the rest is literal-headed. */
  lemma AnyGetuidFit()
    ensures Fit(ANY_GETUID)
  {
    var p := ANY_GETUID;
    LitHeaded(p[1..]);
    assert p[1].text[0] == '.';
    assert Separated(p) by {
      forall i | 1 <= i < |p| - 1 && p[i].Run?
        ensures p[i + 1].Lit? && p[i + 1].text != [] && !InClass(p[i].cls, p[i + 1].text[0])
      {
        assert p[1..][i - 1] == p[i] && p[1..][i] == p[i + 1];
      }
    }
    assert LitHas(p, '=') by {
      var j :| 0 <= j < |p[1..]| && p[1..][j].Lit? && '=' in p[1..][j].text;
      assert p[j + 1] == p[1..][j];
    }
  }

  lemma PatternsFit()
    ensures forall k :: 0 <= k < |PATTERNS| ==> Fit(PATTERNS[k])
  {
    forall k | 0 <= k < |PATTERNS| ensures Fit(PATTERNS[k]) {
      if k == 0 {
        LitHeaded(GETUID);
      } else if k == 1 {
        LitHeaded(GETUID_OPTIONAL);
      } else if k == 2 {
        AnyGetuidFit();
      } else if k == 3 {
        LitHeaded(GETEUID);
      } else {
        LitHeaded(GETEUID_OPTIONAL);
      }
    }
  }

  /** Rule `k` replaces pattern `k` by `false`; every rule is separated and
      removes an `=` per match. */
  lemma RulesFacts()
    ensures |RULES| == |PATTERNS| && WellFormed(RULES)
    ensures forall k :: 0 <= k < |RULES| ==> RULES[k] == Rule(PATTERNS[k], "false")
    ensures forall k :: 0 <= k < |RULES| ==> Separated(RULES[k].pattern) && Removes(RULES[k], '=')
  {
    assert '=' !in "false";
    PatternsFit();
    assert forall k :: 0 <= k < |RULES| ==> RULES[k] == Rule(PATTERNS[k], "false");
  }

  /** `canApply`: some pattern occurs (`PATTERNS.some(p => p.test(source))`). */
  predicate CanApply(source: string) {
    RulesFacts();
    AnyOccurs(RULES, source)
  }

  /** What `apply` computes: the rules applied one after another. */
  function Rewrite(source: string): string {
    RulesFacts();
    ReplaceEach(RULES, source)
  }

  /** `apply`: the loop over the patterns, each replacing on the previous result. */
  method Apply(source: string) returns (result: string)
    ensures result == Rewrite(source)
  {
    RulesFacts();
    result := source;
    assert WellFormed(RULES[..0]);
    for k := 0 to |RULES|
      invariant WellFormed(RULES[..k])
      invariant result == ReplaceEach(RULES[..k], source)
    {
      ReplaceEachStep(RULES, k, source);
      result := ApplyRule(RULES[k], result);
    }
    assert RULES[..|RULES|] == RULES;
  }

  /** `canApply` holds exactly when some substring matches one of the five patterns. */
  lemma CanApplyIff(source: string)
    ensures CanApply(source) <==>
      exists k, i: nat, n: nat :: 0 <= k < |PATTERNS| && MatchesAt(PATTERNS[k], source, i, n)
  {
    RulesFacts();
    AnyOccursSome(RULES, source);
    forall k | 0 <= k < |RULES|
      ensures RuleMatches(RULES[k], source) <==> exists i: nat, n: nat :: MatchesAt(PATTERNS[k], source, i, n)
    {
      TestIffMatch(PATTERNS[k], source);
    }
  }

  /** `apply` changes the text exactly when `canApply` holds: every match
      loses its `===`, and `false` brings no `=` back. */
  lemma RewriteChangesIff(source: string)
    ensures Rewrite(source) != source <==> CanApply(source)
  {
    RulesFacts();
    ReplaceEachRemoves(RULES, source, '=');
    if !CanApply(source) {
      ReplaceEachIdentity(RULES, source);
    }
  }

  const PATCH: PatchBase.Patch := PatchBase.NewPatch(PatchBase.Fields(
    "root-check",
    "Replace all getuid/geteuid === 0 checks with false",
    Wrappers.Some(true),
    PatchBase.Custom(CanApply),
    PatchBase.Custom(Rewrite),
    PatchBase.Default))

  /** The descriptor never fails verification once `canApply` passed. */
  lemma PatchEffective()
    ensures PatchBase.Effective(PATCH)
  {
    forall s | PATCH.canApply.f(s)
      ensures PATCH.apply.f(s) != s
    {
      RewriteChangesIff(s);
    }
  }
}
