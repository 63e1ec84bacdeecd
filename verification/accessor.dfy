/** The rewrite shared by lib/patches/is-docker.patch.js and
    lib/patches/internet-access.patch.js. Both replace an accessor of the
    bundle by a constant: every call `<word>.name()` becomes the constant,
    then every property `name:<word>` becomes `name:()=><constant>`. */
module Accessor {
  import opened Regex

  /** `[a-zA-Z0-9_]*\.name\(\)` */
  function CallPattern(name: string): Pattern {
    [Run(Word, 0, Unbounded), Lit("." + name + "()")]
  }

  /** `name:\w+` */
  function PropPattern(name: string): Pattern {
    [Lit(name + ":"), Run(Word, 1, Unbounded)]
  }

  /** The global replacement of calls by the constant. */
  function CallRule(name: string, value: string): Rule {
    Rule(CallPattern(name), value)
  }

  /** The global replacement of properties by an arrow function returning the constant. */
  function PropRule(name: string, value: string): Rule {
    Rule(PropPattern(name), name + ":()=>" + value)
  }

  /** Names the rewrite can work with: neither the accessor nor the constant
      holds a `.`, and the accessor holds no `(`. */
  predicate Plain(name: string, value: string) {
    '.' !in name && '(' !in name && '.' !in value
  }

  /** Both patterns are separated and never match the empty string. */
  lemma PatternsSeparated(name: string)
    ensures Separated(CallPattern(name)) && MinLen(CallPattern(name)) > 0
    ensures Separated(PropPattern(name)) && MinLen(PropPattern(name)) > 0
  {
    var call, prop := CallPattern(name), PropPattern(name);
    assert call[1].text[0] == '.';
    assert call[1..][0] == call[1] && MinLen(call[1..]) >= |call[1].text|;
    assert MinLen(prop) >= |prop[0].text|;
  }

  /** Every call match holds the `.` before the accessor, and the constant holds none. */
  lemma CallRemoves(name: string, value: string)
    requires Plain(name, value)
    ensures Separated(CallPattern(name)) && Removes(CallRule(name, value), '.')
  {
    PatternsSeparated(name);
    var p := CallPattern(name);
    assert p[1].Lit? && p[1].text[0] == '.';
    assert LitHas(p, '.');
  }

  /** No property match holds a `(`, and its replacement holds one and no `.`. */
  lemma PropAdds(name: string, value: string)
    requires Plain(name, value)
    ensures Separated(PropPattern(name)) && Adds(PropRule(name, value), '(')
    ensures '.' !in PropRule(name, value).replacement
  {
    PatternsSeparated(name);
    var p := PropPattern(name);
    assert '(' !in name + ":";
    assert AtomAvoids(p[0], '(') && AtomAvoids(p[1], '(');
    var rep := name + ":()=>" + value;
    assert rep[|name| + 1] == '(';
    assert '.' !in name + ":()=>";
  }

  /** `canApply`: either pattern occurs. */
  predicate CanApply(name: string, source: string) {
    PatternsSeparated(name);
    PatternConsumes(CallPattern(name));
    PatternConsumes(PropPattern(name));
    Test(PatternMatcher(CallPattern(name)), source) || Test(PatternMatcher(PropPattern(name)), source)
  }

  /** `apply`: calls are replaced first, then properties. */
  function Apply(name: string, value: string, source: string): string {
    PatternsSeparated(name);
    ApplyRule(PropRule(name, value), ApplyRule(CallRule(name, value), source))
  }

  /** `canApply` holds exactly when some substring is a call or a property. */
  lemma CanApplyIff(name: string, source: string)
    ensures CanApply(name, source) <==>
      (exists i: nat, n: nat :: MatchesAt(CallPattern(name), source, i, n)) ||
      (exists i: nat, n: nat :: MatchesAt(PropPattern(name), source, i, n))
  {
    PatternsSeparated(name);
    TestIffMatch(CallPattern(name), source);
    TestIffMatch(PropPattern(name), source);
  }

  /** `apply` changes the text exactly when `canApply` holds: each call
      loses its `.`, each property gains a `(`, and the constant brings no
      `.` back. */
  lemma ApplyChangesIff(name: string, value: string, source: string)
    requires Plain(name, value)
    ensures Apply(name, value, source) != source <==> CanApply(name, source)
  {
    CallRemoves(name, value);
    PropAdds(name, value);
    RemoveThenAdd(CallRule(name, value), PropRule(name, value), source, '.', '(');
  }
}
