/** lib/patches/internet-access.patch.js: every `hasInternetAccess()` call, with the
    identifier before it, becomes `false`, and every `hasInternetAccess:<word>`
    property becomes `hasInternetAccess:()=>false`. */
module InternetAccess {
  import opened Regex
  import Accessor
  import PatchBase
  import Wrappers

  const NAME: string := "hasInternetAccess"
  const VALUE: string := "false"

  /** `[a-zA-Z0-9_]*\.hasInternetAccess\(\)` */
  const CALL_PATTERN: Pattern := Accessor.CallPattern(NAME)

  /** `hasInternetAccess:\w+` */
  const PROP_PATTERN: Pattern := Accessor.PropPattern(NAME)

  /** The patterns and replacements are those of the source. */
  lemma Texts()
    ensures CALL_PATTERN == [Run(Word, 0, Unbounded), Lit(".hasInternetAccess()")]
    ensures PROP_PATTERN == [Lit("hasInternetAccess:"), Run(Word, 1, Unbounded)]
    ensures Accessor.CallRule(NAME, VALUE).replacement == "false"
    ensures Accessor.PropRule(NAME, VALUE).replacement == "hasInternetAccess:()=>false"
  {
    assert "." + NAME + "()" == ".hasInternetAccess()";
    assert NAME + ":" == "hasInternetAccess:";
  }

  /** Neither name holds a `.` or a `(`. */
  lemma NamesPlain()
    ensures Accessor.Plain(NAME, VALUE)
  {
    assert NAME == "hasInternetAccess" && VALUE == "false";
  }

  /** `canApply`: either pattern occurs. */
  predicate CanApply(source: string) {
    Accessor.CanApply(NAME, source)
  }

  /** `apply`: calls are replaced first, then properties. */
  function Apply(source: string): string {
    Accessor.Apply(NAME, VALUE, source)
  }

  /** `canApply` holds exactly when some substring is a call or a property. */
  lemma CanApplyIff(source: string)
    ensures CanApply(source) <==>
      (exists i: nat, n: nat :: MatchesAt(CALL_PATTERN, source, i, n)) ||
      (exists i: nat, n: nat :: MatchesAt(PROP_PATTERN, source, i, n))
  {
    Accessor.CanApplyIff(NAME, source);
  }

  /** `apply` changes the text exactly when `canApply` holds, so this
      required patch never fails the default `verify` after its pre-check,
      and a text without either pattern comes back unchanged. */
  lemma ApplyChangesIff(source: string)
    ensures Apply(source) != source <==> CanApply(source)
  {
    NamesPlain();
    Accessor.ApplyChangesIff(NAME, VALUE, source);
  }

  const PATCH: PatchBase.Patch := PatchBase.NewPatch(PatchBase.Fields(
    "internet-access",
    "Replace hasInternetAccess() calls/references with false",
    Wrappers.Some(true),
    PatchBase.Custom(CanApply),
    PatchBase.Custom(Apply),
    PatchBase.Default))

  /** The descriptor never fails verification once `canApply` passed. */
  lemma PatchEffective()
    ensures PatchBase.Effective(PATCH)
  {
    forall s | PATCH.canApply.f(s)
      ensures PATCH.apply.f(s) != s
    {
      ApplyChangesIff(s);
    }
  }
}
