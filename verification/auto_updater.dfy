/** lib/patches/auto-updater.patch.js: a check of DISABLE_INSTALLATION_CHECKS
    is spliced in front of the first DISABLE_AUTOUPDATER check of the bundle,
    so the auto-updater's disable function also returns early when that
    variable is set. */
module AutoUpdater {
  import opened Text
  import PatchBase
  import Wrappers

  /** The stable text of the DISABLE_AUTOUPDATER check. */
  const SEARCH := "process.env.DISABLE_AUTOUPDATER))" + "return\"DISABLE_AUTOUPDATER set\""

  /** The injected check, up to the `if(_6(` that reopens the original one. */
  const GUARD := "process.env.DISABLE_INSTALLATION_CHECKS))" + "return\"DISABLE_INSTALLATION_CHECKS set\";"

  /** The call that opens the check in the bundle. */
  const PREFIX := "if(_6("

  /** The replacement: the guard, then the original check reopened by
      `PREFIX` (the source writes the same text as two literals). */
  const REPLACE := GUARD + PREFIX + SEARCH

  /** `canApply`. */
  predicate CanApply(source: string) {
    Contains(source, SEARCH)
  }

  /** The splice of `apply`, over its three texts: at the first `search`,
      when a `prefix` starts at most its own length plus 5 characters before it, the
      text from there to the end of the match becomes `prefix + replace`;
      otherwise the match alone becomes `replace`. */
  function Splice(source: string, search: string, prefix: string, replace: string): string {
    var idx := IndexOf(source, search);
    if idx == -1 then source
    else
      var ifStart := LastIndexOf(source, prefix, idx);
      if ifStart == -1 || idx - ifStart > |prefix| + 5 then ReplaceFirst(source, search, replace)
      else
        var fullOld := source[ifStart..idx + |search|];
        source[..ifStart] + prefix + replace + source[ifStart + |fullOld|..]
  }

  /** `apply`. */
  function Apply(source: string): string {
    Splice(source, SEARCH, PREFIX, REPLACE)
  }

  /** A `prefix` found by the look-back cannot overlap the match when the
      match starts with a character the prefix does not hold. */
  lemma LookBackBefore(source: string, search: string, prefix: string, idx: nat)
    requires OccursAt(source, search, idx) && search != [] && search[0] !in prefix
    ensures var ifStart := LastIndexOf(source, prefix, idx);
      ifStart == -1 || ifStart + |prefix| <= idx
  {
    var ifStart := LastIndexOf(source, prefix, idx);
    assert source[idx] == source[idx..idx + |search|][0];
  }

  /** Where the kept text before the insertion ends: after the `prefix` the
      look-back found, or at the match when it found none close enough. */
  function KeepAt(source: string, search: string, prefix: string): (k: nat)
    requires Contains(source, search) && search != [] && search[0] !in prefix
    ensures IndexOf(source, search) - 5 <= k <= IndexOf(source, search)
  {
    var idx := IndexOf(source, search);
    var ifStart := LastIndexOf(source, prefix, idx);
    LookBackBefore(source, search, prefix, idx);
    if ifStart == -1 || idx - ifStart > |prefix| + 5 then idx else ifStart + |prefix|
  }

  /** The fallback splice is an insertion in front of the match. */
  lemma ReplaceShape(s: string, idx: nat, g: string, search: string)
    requires OccursAt(s, search, idx)
    ensures s[..idx] + (g + search) + s[idx + |search|..] == s[..idx] + g + s[idx..]
  {
    assert s[idx..] == search + s[idx + |search|..];
  }

  /** The look-back splice keeps the text up to the end of the `prefix`,
      inserts, and resumes at the match. */
  lemma LookBackShape(s: string, ifStart: nat, idx: nat, p: string, g: string, search: string)
    requires OccursAt(s, p, ifStart) && ifStart + |p| <= idx && OccursAt(s, search, idx)
    ensures s[..ifStart] + p + (g + search) + s[idx + |search|..] == s[..ifStart + |p|] + g + s[idx..]
  {
    assert s[..ifStart + |p|] == s[..ifStart] + p;
    assert s[idx..] == search + s[idx + |search|..];
  }

  /** With `replace` made of an insertion `g` followed by `search`, the
      splice keeps the text before `KeepAt`, inserts `g`, and resumes at the
      first match, which is kept with everything after it. */
  lemma SpliceShape(source: string, search: string, prefix: string, g: string)
    requires Contains(source, search) && search != [] && search[0] !in prefix
    ensures var idx := IndexOf(source, search);
      Splice(source, search, prefix, g + search) == source[..KeepAt(source, search, prefix)] + g + source[idx..]
  {
    var idx := IndexOf(source, search);
    var ifStart := LastIndexOf(source, prefix, idx);
    LookBackBefore(source, search, prefix, idx);
    if ifStart == -1 || idx - ifStart > |prefix| + 5 {
      FallbackBranch(source, search, prefix, g + search);
      ReplaceShape(source, idx, g, search);
    } else {
      LookBackBranch(source, search, prefix, g + search);
      LookBackShape(source, ifStart, idx, prefix, g, search);
    }
  }

  lemma FallbackBranch(source: string, search: string, prefix: string, replace: string)
    requires Contains(source, search)
    requires var ifStart := LastIndexOf(source, prefix, IndexOf(source, search));
      ifStart == -1 || IndexOf(source, search) - ifStart > |prefix| + 5
    ensures var idx := IndexOf(source, search);
      Splice(source, search, prefix, replace) == source[..idx] + replace + source[idx + |search|..]
  {
  }

  lemma LookBackBranch(source: string, search: string, prefix: string, replace: string)
    requires Contains(source, search)
    requires var ifStart := LastIndexOf(source, prefix, IndexOf(source, search));
      ifStart != -1 && IndexOf(source, search) - ifStart <= |prefix| + 5
    ensures var idx := IndexOf(source, search);
      var ifStart := LastIndexOf(source, prefix, idx);
      Splice(source, search, prefix, replace) == source[..ifStart] + prefix + replace + source[idx + |search|..]
  {
  }

  /** A text spliced as `s[..k] + g + s[idx..]` around an occurrence of
      `search` at `idx` keeps `s[..k]` and holds `g + search` at `k`. */
  lemma Inserted(s: string, k: nat, idx: nat, g: string, search: string)
    requires k <= idx && OccursAt(s, search, idx)
    ensures var r := s[..k] + g + s[idx..];
      r[..k] == s[..k] && OccursAt(r, g + search, k) && |r| == |s| - (idx - k) + |g|
  {
    var r := s[..k] + g + s[idx..];
    assert s[idx..][..|search|] == search;
    assert r[k..k + |g + search|] == g + search;
  }

  /** The fixed texts meet the conditions of `SpliceShape`. */
  lemma Texts()
    ensures SEARCH != [] && SEARCH[0] !in PREFIX && REPLACE == (GUARD + PREFIX) + SEARCH
  {
  }

  /** Where the kept text before the guard ends. */
  function Keep(source: string): (k: nat)
    requires CanApply(source)
    ensures IndexOf(source, SEARCH) - 5 <= k <= IndexOf(source, SEARCH)
  {
    Texts();
    KeepAt(source, SEARCH, PREFIX)
  }

  /** A text without the check comes back unchanged. */
  lemma ApplyIdentity(source: string)
    requires !CanApply(source)
    ensures Apply(source) == source
  {
  }

  /** With the check present, the result keeps the text before `Keep`,
      then holds the guard and a fresh `if(_6(`, then the whole text from
      the first match on, later duplicates included. When the look-back
      finds an `if(_6(` that does not end right at the match, the up to five
      characters between the two are dropped. */
  lemma ApplySplice(source: string)
    requires CanApply(source)
    ensures var idx := IndexOf(source, SEARCH);
      Apply(source) == source[..Keep(source)] + GUARD + PREFIX + source[idx..]
  {
    Texts();
    SpliceShape(source, SEARCH, PREFIX, GUARD + PREFIX);
  }

  /** With the check present, the text before `Keep` is unchanged, the
      guard is followed by the original check, and the result is longer
      than the input. */
  lemma ApplyGuards(source: string)
    requires CanApply(source)
    ensures var k := Keep(source);
      Apply(source)[..k] == source[..k] &&
      OccursAt(Apply(source), GUARD + PREFIX + SEARCH, k)
    ensures |Apply(source)| > |source|
  {
    Texts();
    ApplySplice(source);
    Inserted(source, Keep(source), IndexOf(source, SEARCH), GUARD + PREFIX, SEARCH);
  }

  const PATCH: PatchBase.Patch := PatchBase.NewPatch(PatchBase.Fields(
    "auto-updater",
    "Disable auto-updater when DISABLE_INSTALLATION_CHECKS is set",
    Wrappers.Some(false),
    PatchBase.Custom(CanApply),
    PatchBase.Custom(Apply),
    PatchBase.Default))

  /** The descriptor never turns down its own change once `canApply` passed. */
  lemma PatchEffective()
    ensures PatchBase.Effective(PATCH)
  {
    forall s | PATCH.canApply.f(s)
      ensures PATCH.apply.f(s) != s
    {
      ApplyGuards(s);
    }
  }
}
