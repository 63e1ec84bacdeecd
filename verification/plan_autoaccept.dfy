/** The plan-autoaccept patch: it injects into the bundle a React effect
    that answers "yes-bypass-permissions" as soon as bypass-permissions
    mode is available.

    The semantic strategy finds the `isBypassPermissionsModeAvailable`
    anchor, reads three minified names from the text around it (the React
    alias of `useEffect`, the object holding `toolPermissionContext`, and the
    function called with "yes-bypass-permissions"), builds the effect from
    them, and inserts it after a known declaration or else after the last
    `;` before the anchor. When that fails, a fixed effect is inserted after
    the known declaration. */
module PlanAutoaccept {
  import opened Wrappers
  import opened Text
  import opened Regex
  import PatchBase

  const ANCHOR: string := "isBypassPermissions" + "ModeAvailable"
  const YES: string := "yes-bypass-permissions"
  const KNOWN_ANCHOR: string := "let M=Md(),R=M?oH(M):null"

  /** The injected effect for a hook alias, a context object and a submit
      function. */
  function Snippet(alias: string, context: string, submit: string): (r: string)
    ensures |r| > |alias| + |context| + |submit|
  {
    alias + ".useEffect(()=>{if(" + context + ".toolPermissionContext." + ANCHOR
      + "&&!F){" + submit + "(\"" + YES + "\")}},[]);"
  }

  /** The effect of the known bundle version. */
  const KNOWN_PATCH: string := Snippet("k5", "G", "N")

  /** `(\w{1,3})\.useEffect\(` */
  const USE_EFFECT: Pattern := [Run(Word, 1, AtMost(3)), Lit(".useEffect(")]
  /** `(\w+)\.toolPermissionContext` */
  const PERM_CONTEXT: Pattern := [Run(Word, 1, Unbounded), Lit(".toolPermissionContext")]
  /** `(\w+)\(["']yes-bypass-permissions["']\)` */
  const SUBMIT: Pattern :=
    [Run(Word, 1, Unbounded), Lit("("), Run(Quote, 1, AtMost(1)), Lit(YES), Run(Quote, 1, AtMost(1)), Lit(")")]

  /** A pattern whose first group is a leading run followed by a literal. */
  predicate Capturing(p: Pattern) {
    |p| >= 2 && p[0].Run? && p[1].Lit? && MinLen(p) > 0 && Separated(p)
  }

  lemma UseEffectCapturing()
    ensures Capturing(USE_EFFECT)
  {
    assert USE_EFFECT[1].text[0] == '.';
  }

  lemma PermContextCapturing()
    ensures Capturing(PERM_CONTEXT)
  {
    assert PERM_CONTEXT[1].text[0] == '.';
  }

  lemma SubmitCapturing()
    ensures Capturing(SUBMIT)
  {
    assert SUBMIT[1].text == "(" && SUBMIT[5].text == ")";
    assert SUBMIT[3].text == YES && YES[0] == 'y';
    forall i | 0 <= i < |SUBMIT| - 1 && SUBMIT[i].Run?
      ensures SUBMIT[i + 1].Lit? && SUBMIT[i + 1].text != [] && !InClass(SUBMIT[i].cls, SUBMIT[i + 1].text[0])
    {
      assert i == 0 || i == 2 || i == 4;
    }
  }

  /** `Math.max(0, a - 2000)`. */
  function SearchStart(a: nat): nat {
    if a >= 2000 then a - 2000 else 0
  }

  /** The text searched for the hook alias and the context object. */
  function Region(source: string, a: nat): string {
    Slice(source, SearchStart(a), a + 500)
  }

  /** The text searched for the submit function. */
  function WiderRegion(source: string, a: nat): string {
    Slice(source, SearchStart(a), a + 2000)
  }

  datatype Names = Names(alias: string, context: string, submit: string)

  /** The three names the semantic strategy reads around the anchor. */
  function Captures(source: string): (r: Option<Names>)
    ensures r.Some? ==> Contains(source, ANCHOR)
  {
    UseEffectCapturing();
    PermContextCapturing();
    SubmitCapturing();
    var a := IndexOf(source, ANCHOR);
    if a == -1 then None
    else
      var alias := Capture(USE_EFFECT, Region(source, a));
      var context := Capture(PERM_CONTEXT, Region(source, a));
      var submit := Capture(SUBMIT, WiderRegion(source, a));
      if alias.None? || context.None? || submit.None? then None
      else Some(Names(alias.value, context.value, submit.value))
  }

  /** Where the semantic strategy puts its effect: after the known
      declaration, else after the last `;` at or before the anchor. */
  function Inject(source: string, effect: string): Option<string>
    requires Contains(source, ANCHOR)
  {
    if Contains(source, KNOWN_ANCHOR) then
      Some(ReplaceFirst(source, KNOWN_ANCHOR, KNOWN_ANCHOR + ";" + effect))
    else
      var st := LastIndexOf(source, ";", IndexOf(source, ANCHOR));
      if st == -1 then None else Some(source[..st + 1] + effect + source[st + 1..])
  }

  /** The semantic strategy; `None` where the source gives `null`. */
  function Semantic(source: string): Option<string> {
    match Captures(source)
    case None => None
    case Some(f) => Inject(source, Snippet(f.alias, f.context, f.submit))
  }

  predicate CanApply(source: string) {
    Contains(source, ANCHOR) || Contains(source, KNOWN_ANCHOR)
  }

  /** The semantic strategy first, then the known anchor, else unchanged. */
  function Apply(source: string): string {
    match Semantic(source)
    case Some(r) => r
    case None =>
      if Contains(source, KNOWN_ANCHOR) then ReplaceFirst(source, KNOWN_ANCHOR, KNOWN_ANCHOR + ";" + KNOWN_PATCH)
      else source
  }

  /** Some text of `s` is in the language of `p`. */
  ghost predicate Found(p: Pattern, s: string) {
    exists i: nat, n: nat :: MatchesAt(p, s, i, n)
  }

  /** The semantic strategy finds its names exactly when the anchor occurs,
      the hook alias and the context object occur within 2000 characters
      before and 500 after it, and the submit call within 2000 either side. */
  lemma CapturesIff(source: string)
    ensures Captures(source).Some? <==>
      Contains(source, ANCHOR) &&
      var a := IndexOf(source, ANCHOR);
      Found(USE_EFFECT, Region(source, a)) && Found(PERM_CONTEXT, Region(source, a)) &&
      Found(SUBMIT, WiderRegion(source, a))
  {
    UseEffectCapturing();
    PermContextCapturing();
    SubmitCapturing();
    var a := IndexOf(source, ANCHOR);
    if a != -1 {
      TestIffMatch(USE_EFFECT, Region(source, a));
      TestIffMatch(PERM_CONTEXT, Region(source, a));
      TestIffMatch(SUBMIT, WiderRegion(source, a));
    }
  }

  /** `w` occurs in `source` starting no more than 2000 characters before
      index `a` and ending no more than `after` characters after it. */
  ghost predicate Near(source: string, w: string, a: nat, after: nat) {
    exists j: nat :: SearchStart(a) <= j && j + |w| <= a + after && OccursAt(source, w, j)
  }

  /** An occurrence in a slice is an occurrence in the whole text. */
  lemma SliceOccurs(source: string, from: nat, to: nat, w: string, j: nat)
    requires from <= to && from <= |source| && OccursAt(Slice(source, from, to), w, j)
    ensures from + j + |w| <= to && OccursAt(source, w, from + j)
  {
    var hi := if to < |source| then to else |source|;
    assert Slice(source, from, to) == source[from..hi];
  }

  lemma SliceNear(source: string, w: string, a: nat, after: nat, j: nat)
    requires a <= |source| && OccursAt(Slice(source, SearchStart(a), a + after), w, j)
    ensures Near(source, w, a, after)
  {
    SliceOccurs(source, SearchStart(a), a + after, w, j);
  }

  /** A captured name is followed in the slice by the literal after the
      group, so the name and that literal occur together near the anchor. */
  lemma CaptureNear(p: Pattern, source: string, a: nat, after: nat)
    requires Capturing(p) && a <= |source|
    requires Capture(p, Slice(source, SearchStart(a), a + after)).Some?
    ensures Near(source, Capture(p, Slice(source, SearchStart(a), a + after)).value + p[1].text, a, after)
  {
    var region := Slice(source, SearchStart(a), a + after);
    CaptureFollowedBy(p, region);
    var j := FirstMatch(PatternMatcher(p), region, 0).value.start;
    SliceNear(source, Capture(p, region).value + p[1].text, a, after, j);
  }

  /** The names read: a hook alias of one to three word characters used as
      `alias.useEffect(`, an identifier used as `context.toolPermissionContext`
      and an identifier called as `submit(`, each found near the anchor. */
  lemma CapturesSound(source: string)
    requires Captures(source).Some?
    ensures var f := Captures(source).value;
      var a := IndexOf(source, ANCHOR);
      a >= 0 &&
      1 <= |f.alias| <= 3 && AllIn(Word, f.alias) && Near(source, f.alias + ".useEffect(", a, 500) &&
      |f.context| >= 1 && AllIn(Word, f.context) && Near(source, f.context + ".toolPermissionContext", a, 500) &&
      |f.submit| >= 1 && AllIn(Word, f.submit) && Near(source, f.submit + "(", a, 2000)
  {
    UseEffectCapturing();
    PermContextCapturing();
    SubmitCapturing();
    var a := IndexOf(source, ANCHOR);
    var f := Captures(source).value;
    assert f.alias == Capture(USE_EFFECT, Region(source, a)).value;
    assert f.context == Capture(PERM_CONTEXT, Region(source, a)).value;
    assert f.submit == Capture(SUBMIT, WiderRegion(source, a)).value;
    CaptureNear(USE_EFFECT, source, a, 500);
    CaptureNear(PERM_CONTEXT, source, a, 500);
    CaptureNear(SUBMIT, source, a, 2000);
    assert USE_EFFECT[1].text == ".useEffect(" && PERM_CONTEXT[1].text == ".toolPermissionContext";
    assert SUBMIT[1].text == "(";
  }

  /** The effect goes right after the first occurrence of the known
      declaration, behind a `;`. */
  lemma KnownInsert(source: string, effect: string)
    requires Contains(source, KNOWN_ANCHOR)
    ensures var j := IndexOf(source, KNOWN_ANCHOR) + |KNOWN_ANCHOR|;
      j <= |source| &&
      ReplaceFirst(source, KNOWN_ANCHOR, KNOWN_ANCHOR + ";" + effect) == source[..j] + (";" + effect) + source[j..]
  {
    ReplaceAppends(source, KNOWN_ANCHOR, ";" + effect);
    AppendAssoc(KNOWN_ANCHOR, ";", effect);
  }

  /** `source.lastIndexOf(';', a)` is the last `;` at or before `a`. */
  lemma LastSemicolon(source: string, a: nat)
    requires a < |source| && LastIndexOf(source, ";", a) != -1
    ensures var st := LastIndexOf(source, ";", a);
      0 <= st <= a && source[st] == ';' && forall k :: st < k <= a ==> source[k] != ';'
  {
    var st := LastIndexOf(source, ";", a);
    assert OccursAt(source, ";", st);
    forall k | st < k <= a
      ensures source[k] != ';'
    {
      assert !OccursAt(source, ";", k);
      assert source[k..k + 1] == [source[k]];
    }
  }

  /** What the semantic strategy writes: the effect, inserted after the
      known declaration when the bundle has it, and otherwise right after
      the last `;` at or before the anchor. */
  lemma InjectInserts(source: string, effect: string)
    requires Contains(source, ANCHOR) && Inject(source, effect).Some?
    ensures var r := Inject(source, effect).value;
      var a := IndexOf(source, ANCHOR);
      if Contains(source, KNOWN_ANCHOR) then
        var j := IndexOf(source, KNOWN_ANCHOR) + |KNOWN_ANCHOR|;
        j <= |source| && r == source[..j] + (";" + effect) + source[j..]
      else
        exists st: nat :: st <= a < |source| && source[st] == ';' &&
          (forall k :: st < k <= a ==> source[k] != ';') &&
          r == source[..st + 1] + effect + source[st + 1..]
  {
    if Contains(source, KNOWN_ANCHOR) {
      KnownInsert(source, effect);
    } else {
      LastSemicolon(source, IndexOf(source, ANCHOR));
    }
  }

  /** Either way the bundle grows by the inserted text. */
  lemma InjectGrows(source: string, effect: string)
    requires Contains(source, ANCHOR) && Inject(source, effect).Some?
    ensures |Inject(source, effect).value| >= |source| + |effect|
  {
    if Contains(source, KNOWN_ANCHOR) {
      KnownInsert(source, effect);
    }
  }

  /** The bundle changes exactly when one strategy succeeds; then the patch
      could apply and the bundle grows. */
  lemma ApplyChangesIff(source: string)
    ensures Apply(source) != source <==> Semantic(source).Some? || Contains(source, KNOWN_ANCHOR)
    ensures Apply(source) != source ==> CanApply(source) && |Apply(source)| > |source|
  {
    if Semantic(source).Some? {
      var f := Captures(source).value;
      InjectGrows(source, Snippet(f.alias, f.context, f.submit));
    } else if Contains(source, KNOWN_ANCHOR) {
      KnownInsert(source, KNOWN_PATCH);
    }
  }

  const PATCH: PatchBase.Patch := PatchBase.NewPatch(PatchBase.Fields(
    "plan-autoaccept", "Auto-accept plan mode when bypass permissions is available", Some(false),
    PatchBase.Custom(CanApply), PatchBase.Custom(Apply), PatchBase.Default))
}
