/** The regular expressions of the patches, as a small pattern language.

    Every expression the patches use is a sequence of literal strings and
    greedy character-class runs (`\w*`, `\w+`, `\w{1,3}`, `\s*`, `["']`).
    In each of them a run is followed by a literal whose first character is
    outside the run's class (a "separated" pattern), so the backtracking
    matcher of JavaScript never gives back a character of a run: the
    possessive matcher `MatchLen` below finds the same match, which is the
    longest prefix in the pattern's language (`MatchLenSound`,
    `MatchLenGreedy`). `FirstMatch` is the leftmost search of `RegExp.exec`,
    `ReplaceAll` is `String.prototype.replace` with the `g` flag and a
    `$`-free replacement. No pattern here has anchors or look-behind, so
    whether a match starts at index `i` depends on `s[i..]` only: the search
    and replace functions take that dependency as a `Matcher`, a function
    from the remaining text to the length of the match at its start. */
module Regex {
  import opened Wrappers
  import opened Text

  datatype CharClass = Word | Space | Quote

  predicate InClass(c: CharClass, ch: char) {
    match c
    case Word => IsWordChar(ch)
    case Space => IsSpace(ch)
    case Quote => ch == '"' || ch == '\''
  }

  datatype Bound = Unbounded | AtMost(n: nat)

  predicate Within(k: nat, b: Bound) {
    b.Unbounded? || k <= b.n
  }

  /** `Lit(t)` matches `t`; `Run(c, lo, hi)` matches between `lo` and `hi`
      characters of class `c`, greedily. */
  datatype Atom = Lit(text: string) | Run(cls: CharClass, min: nat, max: Bound)

  type Pattern = seq<Atom>

  predicate AllIn(c: CharClass, w: string) {
    forall i :: 0 <= i < |w| ==> InClass(c, w[i])
  }

  /** Each run is followed by a non-empty literal that starts outside its class. */
  predicate Separated(p: Pattern) {
    forall i :: 0 <= i < |p| - 1 && p[i].Run? ==>
      p[i + 1].Lit? && p[i + 1].text != [] && !InClass(p[i].cls, p[i + 1].text[0])
  }

  /** The fewest characters a match of `a` has. */
  function AtomMin(a: Atom): nat {
    match a
    case Lit(t) => |t|
    case Run(_, lo, _) => lo
  }

  /** The fewest characters a match of `p` has. */
  function MinLen(p: Pattern): nat {
    if p == [] then 0 else AtomMin(p[0]) + MinLen(p[1..])
  }

  /** `a` matches the whole of `u`. */
  ghost predicate AtomIn(a: Atom, u: string) {
    match a
    case Lit(t) => u == t
    case Run(c, lo, hi) => lo <= |u| && Within(|u|, hi) && AllIn(c, u)
  }

  /** The language of `p`: the strings `w` that `p` matches exactly. */
  ghost predicate InLang(p: Pattern, w: string)
    decreases |p|
  {
    if p == [] then w == []
    else exists k :: 0 <= k <= |w| && AtomIn(p[0], w[..k]) && InLang(p[1..], w[k..])
  }

  /** `p` matches `s[i..i + n]`. */
  ghost predicate MatchesAt(p: Pattern, s: string, i: nat, n: nat) {
    i + n <= |s| && InLang(p, s[i..i + n])
  }

  /** The length of the greedy run of class `c` at the start of `s`, at most `hi`. */
  function RunLen(c: CharClass, s: string, hi: Bound): (n: nat)
    decreases |s|
    ensures n <= |s| && Within(n, hi) && AllIn(c, s[..n])
    ensures n < |s| && Within(n + 1, hi) ==> !InClass(c, s[n])
  {
    if s == [] || !InClass(c, s[0]) || hi == AtMost(0) then 0
    else
      var rest := RunLen(c, s[1..], if hi.AtMost? then AtMost(hi.n - 1) else Unbounded);
      assert s[..1 + rest] == [s[0]] + s[1..][..rest];
      1 + rest
  }

  /** The greedy run stops at the first character outside its class. */
  lemma RunLenStops(c: CharClass, s: string, hi: Bound, j: nat)
    requires j < |s| && !InClass(c, s[j])
    ensures RunLen(c, s, hi) <= j
  {
    var n := RunLen(c, s, hi);
    forall i | 0 <= i < n ensures InClass(c, s[i]) {
      assert s[..n][i] == s[i];
    }
  }

  /** The greedy run covers every admissible run of its class. */
  lemma RunLenReaches(c: CharClass, s: string, hi: Bound, k: nat)
    requires k <= |s| && Within(k, hi) && AllIn(c, s[..k])
    ensures RunLen(c, s, hi) >= k
  {
    forall i | 0 <= i < k ensures InClass(c, s[i]) {
      assert s[..k][i] == s[i];
    }
  }

  /** The length `a` consumes at the start of `s`, if it matches there. */
  function AtomLen(a: Atom, s: string): (r: Option<nat>)
    ensures r.Some? ==> AtomMin(a) <= r.value <= |s| && AtomIn(a, s[..r.value])
  {
    match a
    case Lit(t) => if IsPrefix(t, s) then Some(|t|) else None
    case Run(c, lo, hi) =>
      var k := RunLen(c, s, hi);
      if k < lo then None else Some(k)
  }

  function Shift(k: nat, r: Option<nat>): Option<nat> {
    if r.Some? then Some(k + r.value) else None
  }

  /** The length of the match of `p` at the start of `s`, if any: each atom in
      turn consumes what it matches, and a run never gives characters back. */
  function MatchLen(p: Pattern, s: string): (r: Option<nat>)
    decreases |p|
    ensures r.Some? ==> MinLen(p) <= r.value <= |s|
  {
    if p == [] then Some(0)
    else
      var h := AtomLen(p[0], s);
      if h.None? then None else Shift(h.value, MatchLen(p[1..], s[h.value..]))
  }

  /** Whatever `MatchLen` reports is a match of `p`. */
  lemma {:induction false} MatchLenSound(p: Pattern, s: string)
    decreases |p|
    ensures MatchLen(p, s).Some? ==> InLang(p, s[..MatchLen(p, s).value])
  {
    if p != [] && MatchLen(p, s).Some? {
      var n := MatchLen(p, s).value;
      var h := AtomLen(p[0], s).value;
      MatchLenSound(p[1..], s[h..]);
      var w := s[..n];
      assert w[..h] == s[..h];
      assert w[h..] == s[h..][..n - h];
    }
  }

  lemma SeparatedTail(p: Pattern)
    requires p != [] && Separated(p)
    ensures Separated(p[1..])
  {
    forall i | 0 <= i < |p[1..]| - 1 && p[1..][i].Run?
      ensures p[1..][i + 1].Lit? && p[1..][i + 1].text != [] && !InClass(p[1..][i].cls, p[1..][i + 1].text[0])
    {
      assert p[1..][i] == p[i + 1] && p[1..][i + 1] == p[i + 2];
    }
  }

  /** A match of a separated pattern whose head is a literal `t` starts with `t[0]`. */
  lemma LitHeadFirst(p: Pattern, u: string)
    requires p != [] && p[0].Lit? && p[0].text != [] && InLang(p, u)
    ensures u != [] && u[0] == p[0].text[0]
  {
    var j :| 0 <= j <= |u| && AtomIn(p[0], u[..j]) && InLang(p[1..], u[j..]);
    assert u[..j][0] == u[0];
  }

  /** The head atom of a separated pattern: a match of `p` in `s[..n]` splits
      after some `k` characters, and the head atom of `MatchLen` consumes at
      least `k` (exactly `k` unless the head is a final run). */
  lemma GreedyHead(p: Pattern, s: string, n: nat) returns (k: nat)
    requires p != [] && Separated(p) && n <= |s| && InLang(p, s[..n])
    ensures k <= n && InLang(p[1..], s[k..][..n - k])
    ensures AtomLen(p[0], s).Some? && k <= AtomLen(p[0], s).value
    ensures |p| > 1 ==> AtomLen(p[0], s) == Some(k)
  {
    var w := s[..n];
    k :| 0 <= k <= |w| && AtomIn(p[0], w[..k]) && InLang(p[1..], w[k..]);
    assert w[..k] == s[..k];
    assert w[k..] == s[k..][..n - k];
    if p[0].Run? {
      if |p| > 1 {
        assert p[1..][0] == p[1];
        LitHeadFirst(p[1..], w[k..]);
        assert w[k] == s[k];
      }
      RunHead(p, s, k);
    }
  }

  /** A run of length `k` at the start of `s`, followed by the first
      character of the next literal, is exactly what the greedy run takes. */
  lemma RunHead(p: Pattern, s: string, k: nat)
    requires p != [] && p[0].Run? && Separated(p) && k <= |s| && AtomIn(p[0], s[..k])
    requires |p| > 1 ==> p[1].Lit? && p[1].text != [] && k < |s| && s[k] == p[1].text[0]
    ensures AtomLen(p[0], s).Some? && k <= AtomLen(p[0], s).value
    ensures |p| > 1 ==> AtomLen(p[0], s) == Some(k)
  {
    RunLenReaches(p[0].cls, s, p[0].max, k);
    if |p| > 1 {
      RunLenStops(p[0].cls, s, p[0].max, k);
    }
  }

  /** For a separated pattern, every match of `p` at the start of `s` is at
      most as long as the one `MatchLen` reports: `MatchLen` finds a match
      whenever there is one, and the longest. */
  lemma {:induction false} MatchLenGreedy(p: Pattern, s: string, n: nat)
    requires Separated(p) && n <= |s| && InLang(p, s[..n])
    decreases |p|
    ensures MatchLen(p, s).Some? && n <= MatchLen(p, s).value
  {
    if p != [] {
      SeparatedTail(p);
      var k := GreedyHead(p, s, n);
      MatchLenGreedy(p[1..], s[k..], n - k);
      if |p| == 1 {
        var h := AtomLen(p[0], s).value;
        assert MatchLen(p[1..], s[h..]) == Some(0);
      }
    }
  }

  /** The length of the match at the start of the remaining text, if any. */
  type Matcher = string -> Option<nat>

  /** Every match is non-empty and lies inside the text. */
  ghost predicate Consumes(m: Matcher) {
    forall t {:trigger m(t)} :: m(t).Some? ==> 0 < m(t).value <= |t|
  }

  /** The matcher of a pattern. */
  function PatternMatcher(p: Pattern): (m: Matcher)
    ensures forall t :: m(t) == MatchLen(p, t)
  {
    t => MatchLen(p, t)
  }

  lemma PatternConsumes(p: Pattern)
    requires MinLen(p) > 0
    ensures Consumes(PatternMatcher(p))
  {
  }

  datatype Span = Span(start: nat, len: nat)

  /** `m` matches at index `j` of `s`. */
  predicate HasMatchAt(m: Matcher, s: string, j: nat) {
    j <= |s| && m(s[j..]).Some?
  }

  /** The leftmost match starting at or after `from` (`RegExp.exec` from `lastIndex`). */
  function FirstMatch(m: Matcher, s: string, from: nat): (r: Option<Span>)
    requires Consumes(m)
    decreases |s| + 1 - from
    ensures r.Some? ==>
      from <= r.value.start <= |s| && 0 < r.value.len && r.value.start + r.value.len <= |s| &&
      m(s[r.value.start..]) == Some(r.value.len)
    ensures r.Some? ==> forall j: nat :: from <= j < r.value.start ==> !HasMatchAt(m, s, j)
    ensures r.None? ==> forall j: nat :: from <= j ==> !HasMatchAt(m, s, j)
  {
    if from > |s| then None
    else
      var n := m(s[from..]);
      if n.Some? then Some(Span(from, n.value)) else FirstMatch(m, s, from + 1)
  }

  /** `RegExp.prototype.test`. */
  predicate Test(m: Matcher, s: string)
    requires Consumes(m)
  {
    FirstMatch(m, s, 0).Some?
  }

  /** A match of a separated pattern at index `i` is seen by its matcher. */
  lemma MatchFound(p: Pattern, s: string, i: nat, n: nat)
    requires Separated(p) && MatchesAt(p, s, i, n)
    ensures HasMatchAt(PatternMatcher(p), s, i)
  {
    assert s[i..][..n] == s[i..i + n];
    MatchLenGreedy(p, s[i..], n);
  }

  /** What the matcher reports at index `i` is a match there. */
  lemma MatchReported(p: Pattern, s: string, i: nat)
    requires HasMatchAt(PatternMatcher(p), s, i)
    ensures MatchesAt(p, s, i, MatchLen(p, s[i..]).value)
  {
    var n := MatchLen(p, s[i..]).value;
    MatchLenSound(p, s[i..]);
    assert s[i..][..n] == s[i..i + n];
  }

  /** `test` holds exactly when some substring of `s` is in the pattern's language. */
  lemma TestIffMatch(p: Pattern, s: string)
    requires Separated(p) && MinLen(p) > 0
    ensures Consumes(PatternMatcher(p))
    ensures Test(PatternMatcher(p), s) <==> exists i: nat, n: nat :: MatchesAt(p, s, i, n)
  {
    PatternConsumes(p);
    match FirstMatch(PatternMatcher(p), s, 0)
    case Some(sp) =>
      MatchReported(p, s, sp.start);
    case None =>
      forall i: nat, n: nat | MatchesAt(p, s, i, n) ensures false {
        MatchFound(p, s, i, n);
      }
  }


  /** A match of `p` is a match of its head atom followed by one of the rest. */
  lemma MatchLenHead(p: Pattern, s: string)
    requires p != [] && MatchLen(p, s).Some?
    ensures AtomLen(p[0], s).Some? && MatchLen(p[1..], s[AtomLen(p[0], s).value..]).Some?
  {
  }

  /** `s.match(p)[1]`, where group 1 of `p` is its leading run. */
  function Capture(p: Pattern, s: string): (r: Option<string>)
    requires p != [] && p[0].Run? && MinLen(p) > 0
    ensures r.Some? ==> p[0].min <= |r.value| && Within(|r.value|, p[0].max) && AllIn(p[0].cls, r.value)
    ensures r.Some? <==> Test(PatternMatcher(p), s)
  {
    PatternConsumes(p);
    match FirstMatch(PatternMatcher(p), s, 0)
    case None => None
    case Some(sp) =>
      var t := s[sp.start..];
      MatchLenHead(p, t);
      var k := AtomLen(p[0], t).value;
      assert s[sp.start..sp.start + k] == t[..k];
      Some(s[sp.start..sp.start + k])
  }

  lemma PrefixJoin(t: string, k: nat, w: string)
    requires k <= |t| && IsPrefix(w, t[k..])
    ensures IsPrefix(t[..k] + w, t)
  {
    assert t[..k + |w|] == t[..k] + t[k..][..|w|];
  }

  lemma PrefixOccurs(s: string, i: nat, w: string)
    requires i <= |s| && IsPrefix(w, s[i..])
    ensures OccursAt(s, w, i)
  {
    assert s[i..i + |w|] == s[i..][..|w|];
  }

  /** When the pattern is a run followed by a literal, the captured word is
      followed by that literal in `s`, at the leftmost match. */
  lemma CaptureFollowedBy(p: Pattern, s: string)
    requires |p| >= 2 && p[0].Run? && p[1].Lit? && MinLen(p) > 0
    requires Capture(p, s).Some?
    ensures Consumes(PatternMatcher(p))
    ensures OccursAt(s, Capture(p, s).value + p[1].text, FirstMatch(PatternMatcher(p), s, 0).value.start)
  {
    PatternConsumes(p);
    var sp := FirstMatch(PatternMatcher(p), s, 0).value;
    var t := s[sp.start..];
    MatchLenHead(p, t);
    var k := AtomLen(p[0], t).value;
    MatchLenHead(p[1..], t[k..]);
    assert p[1..][0] == p[1];
    var lit := p[1].text;
    assert IsPrefix(lit, t[k..]);
    assert Capture(p, s).value == t[..k];
    PrefixJoin(t, k, lit);
    PrefixOccurs(s, sp.start, t[..k] + lit);
  }

  /** The global replace from index `i` on, scanning left to right: a match
      at the current index is replaced and skipped, otherwise one character
      is copied. */
  function ReplaceAt(m: Matcher, s: string, rep: string, i: nat): string
    requires Consumes(m) && i <= |s|
    decreases |s| - i
  {
    if i == |s| then []
    else
      var n := m(s[i..]);
      if n.Some? then rep + ReplaceAt(m, s, rep, i + n.value)
      else [s[i]] + ReplaceAt(m, s, rep, i + 1)
  }

  /** The number of matches `ReplaceAt` replaces. */
  function NumMatchesAt(m: Matcher, s: string, i: nat): nat
    requires Consumes(m) && i <= |s|
    decreases |s| - i
  {
    if i == |s| then 0
    else
      var n := m(s[i..]);
      if n.Some? then 1 + NumMatchesAt(m, s, i + n.value) else NumMatchesAt(m, s, i + 1)
  }

  /** `s.replace(new RegExp(p, 'g'), rep)` with a `$`-free `rep`. */
  function ReplaceAll(m: Matcher, s: string, rep: string): string
    requires Consumes(m)
  {
    ReplaceAt(m, s, rep, 0)
  }

  /** The number of matches `ReplaceAll` replaces. */
  function NumMatches(m: Matcher, s: string): nat
    requires Consumes(m)
  {
    NumMatchesAt(m, s, 0)
  }

  /** The replace algorithm as ECMAScript states it: find the leftmost match
      from `last`, copy the gap, append the replacement, continue after the match. */
  function EcmaReplace(m: Matcher, s: string, rep: string, last: nat): string
    requires Consumes(m) && last <= |s|
    decreases |s| - last
  {
    match FirstMatch(m, s, last)
    case None => s[last..]
    case Some(sp) => s[last..sp.start] + rep + EcmaReplace(m, s, rep, sp.start + sp.len)
  }

  /** Without a match at `i`, the character at `i` is copied. */
  lemma ReplaceAtCopy(m: Matcher, s: string, rep: string, i: nat)
    requires Consumes(m) && i < |s| && m(s[i..]).None?
    ensures ReplaceAt(m, s, rep, i) == [s[i]] + ReplaceAt(m, s, rep, i + 1)
    ensures NumMatchesAt(m, s, i) == NumMatchesAt(m, s, i + 1)
  {
  }

  /** A match at `i` is replaced by `rep`. */
  lemma ReplaceAtMatch(m: Matcher, s: string, rep: string, i: nat)
    requires Consumes(m) && i < |s| && m(s[i..]).Some?
    ensures ReplaceAt(m, s, rep, i) == rep + ReplaceAt(m, s, rep, i + m(s[i..]).value)
    ensures NumMatchesAt(m, s, i) == 1 + NumMatchesAt(m, s, i + m(s[i..]).value)
  {
  }

  /** Text up to the next match is copied unchanged. */
  lemma {:induction false} ReplaceAtSkip(m: Matcher, s: string, rep: string, i: nat, k: nat)
    requires Consumes(m) && i <= k <= |s|
    requires forall j: nat :: i <= j < k ==> !HasMatchAt(m, s, j)
    decreases k - i
    ensures ReplaceAt(m, s, rep, i) == s[i..k] + ReplaceAt(m, s, rep, k)
  {
    if i < k {
      assert !HasMatchAt(m, s, i);
      ReplaceAtCopy(m, s, rep, i);
      ReplaceAtSkip(m, s, rep, i + 1, k);
      AppendAssoc([s[i]], s[i + 1..k], ReplaceAt(m, s, rep, k));
      assert s[i..k] == [s[i]] + s[i + 1..k];
    }
  }

  /** No match is counted up to the next match. */
  lemma {:induction false} NumMatchesAtSkip(m: Matcher, s: string, i: nat, k: nat)
    requires Consumes(m) && i <= k <= |s|
    requires forall j: nat :: i <= j < k ==> !HasMatchAt(m, s, j)
    decreases k - i
    ensures NumMatchesAt(m, s, i) == NumMatchesAt(m, s, k)
  {
    if i < k {
      assert !HasMatchAt(m, s, i);
      ReplaceAtCopy(m, s, [], i);
      NumMatchesAtSkip(m, s, i + 1, k);
    }
  }

  /** The first match becomes `rep`, the text before it is unchanged, and the
      scan goes on after the match. */
  lemma ReplaceAllAtFirstMatch(m: Matcher, s: string, rep: string)
    requires Consumes(m) && Test(m, s)
    ensures var sp := FirstMatch(m, s, 0).value;
      ReplaceAll(m, s, rep) == s[..sp.start] + rep + ReplaceAt(m, s, rep, sp.start + sp.len) &&
      NumMatches(m, s) == 1 + NumMatchesAt(m, s, sp.start + sp.len)
  {
    var sp := FirstMatch(m, s, 0).value;
    ReplaceAtSkip(m, s, rep, 0, sp.start);
    NumMatchesAtSkip(m, s, 0, sp.start);
    assert s[0..sp.start] == s[..sp.start];
  }

  /** The scanning definition agrees with the ECMAScript algorithm. */
  lemma {:induction false} EcmaReplaceAgrees(m: Matcher, s: string, rep: string, last: nat)
    requires Consumes(m) && last <= |s|
    decreases |s| - last
    ensures EcmaReplace(m, s, rep, last) == ReplaceAt(m, s, rep, last)
  {
    var r := FirstMatch(m, s, last);
    if r.None? {
      ReplaceAtSkip(m, s, rep, last, |s|);
    } else {
      var sp := r.value;
      ReplaceAtSkip(m, s, rep, last, sp.start);
      EcmaReplaceAgrees(m, s, rep, sp.start + sp.len);
    }
  }

  /** `ReplaceAll` replaces at least one match exactly when `test` holds. */
  lemma NumMatchesPositive(m: Matcher, s: string)
    requires Consumes(m)
    ensures NumMatches(m, s) > 0 <==> Test(m, s)
  {
    if Test(m, s) {
      ReplaceAllAtFirstMatch(m, s, []);
    } else {
      NumMatchesAtSkip(m, s, 0, |s|);
    }
  }

  /** Text without a match is returned unchanged. */
  lemma ReplaceAllIdentity(m: Matcher, s: string, rep: string)
    requires Consumes(m) && !Test(m, s)
    ensures ReplaceAll(m, s, rep) == s
  {
    ReplaceAtSkip(m, s, rep, 0, |s|);
    assert s[0..|s|] == s;
  }

  /** Some literal of `p` contains `c`, so every match of `p` does. */
  predicate LitHas(p: Pattern, c: char) {
    exists i :: 0 <= i < |p| && p[i].Lit? && c in p[i].text
  }

  /** `a` cannot match the character `c`. */
  predicate AtomAvoids(a: Atom, c: char) {
    match a
    case Lit(t) => c !in t
    case Run(cl, _, _) => !InClass(cl, c)
  }

  /** No atom of `p` can match `c`, so no match of `p` contains it. */
  predicate Avoids(p: Pattern, c: char) {
    forall i :: 0 <= i < |p| ==> AtomAvoids(p[i], c)
  }

  lemma TakeSplit(s: string, h: nat, v: nat)
    requires h + v <= |s|
    ensures s[..h + v] == s[..h] + s[h..][..v]
  {
  }

  lemma {:induction false} MatchHas(p: Pattern, s: string, c: char)
    requires LitHas(p, c) && MatchLen(p, s).Some?
    decreases |p|
    ensures c in s[..MatchLen(p, s).value]
  {
    var n := MatchLen(p, s).value;
    var h := AtomLen(p[0], s).value;
    var v := MatchLen(p[1..], s[h..]).value;
    assert n == h + v;
    TakeSplit(s, h, v);
    if p[0].Lit? && c in p[0].text {
      assert s[..h] == p[0].text;
    } else {
      var i :| 0 <= i < |p| && p[i].Lit? && c in p[i].text;
      assert p[1..][i - 1] == p[i];
      MatchHas(p[1..], s[h..], c);
    }
  }

  lemma AtomAvoidsMatch(a: Atom, s: string, c: char)
    requires AtomAvoids(a, c) && AtomLen(a, s).Some?
    ensures c !in s[..AtomLen(a, s).value]
  {
    var h := AtomLen(a, s).value;
    if a.Run? {
      forall j | 0 <= j < h ensures s[..h][j] != c {
      }
    }
  }

  lemma AvoidsTail(p: Pattern, c: char)
    requires p != [] && Avoids(p, c)
    ensures AtomAvoids(p[0], c) && Avoids(p[1..], c)
  {
    forall i | 0 <= i < |p[1..]| ensures AtomAvoids(p[1..][i], c) {
      assert p[1..][i] == p[i + 1];
    }
  }

  lemma {:induction false} MatchAvoids(p: Pattern, s: string, c: char)
    requires Avoids(p, c) && MatchLen(p, s).Some?
    decreases |p|
    ensures c !in s[..MatchLen(p, s).value]
  {
    if p != [] {
      var n := MatchLen(p, s).value;
      var h := AtomLen(p[0], s).value;
      var v := MatchLen(p[1..], s[h..]).value;
      AvoidsTail(p, c);
      MatchAvoids(p[1..], s[h..], c);
      AtomAvoidsMatch(p[0], s, c);
      assert n == h + v;
      TakeSplit(s, h, v);
    }
  }

  /** The match of `m` at the start of `t`, if any, contains `c`. */
  ghost predicate HitHas(m: Matcher, t: string, c: char)
    requires Consumes(m)
  {
    m(t).Some? ==> c in t[..m(t).value]
  }

  /** The match of `m` at the start of `t`, if any, does not contain `c`. */
  ghost predicate HitAvoids(m: Matcher, t: string, c: char)
    requires Consumes(m)
  {
    m(t).Some? ==> c !in t[..m(t).value]
  }

  /** Every match of `m` contains `c`. */
  ghost predicate MatchesHave(m: Matcher, c: char)
    requires Consumes(m)
  {
    forall t {:trigger HitHas(m, t, c)} :: HitHas(m, t, c)
  }

  /** No match of `m` contains `c`. */
  ghost predicate MatchesAvoid(m: Matcher, c: char)
    requires Consumes(m)
  {
    forall t {:trigger HitAvoids(m, t, c)} :: HitAvoids(m, t, c)
  }

  lemma PatternMatchesHave(p: Pattern, c: char)
    requires MinLen(p) > 0 && LitHas(p, c)
    ensures Consumes(PatternMatcher(p)) && MatchesHave(PatternMatcher(p), c)
  {
    PatternConsumes(p);
    forall t ensures HitHas(PatternMatcher(p), t, c) {
      if MatchLen(p, t).Some? {
        MatchHas(p, t, c);
      }
    }
  }

  lemma PatternMatchesAvoid(p: Pattern, c: char)
    requires MinLen(p) > 0 && Avoids(p, c)
    ensures Consumes(PatternMatcher(p)) && MatchesAvoid(PatternMatcher(p), c)
  {
    PatternConsumes(p);
    forall t ensures HitAvoids(PatternMatcher(p), t, c) {
      if MatchLen(p, t).Some? {
        MatchAvoids(p, t, c);
      }
    }
  }

  /** How the counts of `c` change over one replaced match. */
  lemma CountStepMatch(m: Matcher, s: string, rep: string, i: nat, c: char)
    requires Consumes(m) && i < |s| && m(s[i..]).Some?
    ensures var n := m(s[i..]).value;
      Count(c, ReplaceAt(m, s, rep, i)) == Count(c, rep) + Count(c, ReplaceAt(m, s, rep, i + n)) &&
      Count(c, s[i..]) == Count(c, s[i..][..n]) + Count(c, s[i + n..]) &&
      NumMatchesAt(m, s, i) == 1 + NumMatchesAt(m, s, i + n)
  {
    var n := m(s[i..]).value;
    ReplaceAtMatch(m, s, rep, i);
    CountConcat(c, rep, ReplaceAt(m, s, rep, i + n));
    assert s[i..] == s[i..][..n] + s[i + n..];
    CountConcat(c, s[i..][..n], s[i + n..]);
  }

  /** How the counts of `c` change over one copied character. */
  lemma CountStepCopy(m: Matcher, s: string, rep: string, i: nat, c: char)
    requires Consumes(m) && i < |s| && m(s[i..]).None?
    ensures
      Count(c, ReplaceAt(m, s, rep, i)) == Count(c, [s[i]]) + Count(c, ReplaceAt(m, s, rep, i + 1)) &&
      Count(c, s[i..]) == Count(c, [s[i]]) + Count(c, s[i + 1..]) &&
      NumMatchesAt(m, s, i) == NumMatchesAt(m, s, i + 1)
  {
    ReplaceAtCopy(m, s, rep, i);
    CountConcat(c, [s[i]], ReplaceAt(m, s, rep, i + 1));
    assert s[i..] == [s[i]] + s[i + 1..];
    CountConcat(c, [s[i]], s[i + 1..]);
  }

  /** A match of a matcher whose matches all hold `c` counts one at least. */
  lemma MatchHolds(m: Matcher, t: string, c: char)
    requires Consumes(m) && MatchesHave(m, c) && m(t).Some?
    ensures Count(c, t[..m(t).value]) >= 1
  {
    assert HitHas(m, t, c);
    CountPresent(c, t[..m(t).value]);
  }

  /** A match of a matcher whose matches all avoid `c` counts none. */
  lemma MatchLacks(m: Matcher, t: string, c: char)
    requires Consumes(m) && MatchesAvoid(m, c) && m(t).Some?
    ensures Count(c, t[..m(t).value]) == 0
  {
    assert HitAvoids(m, t, c);
    CountAbsent(c, t[..m(t).value]);
  }

  /** Where the scan goes on after index `i`: past the match, or one on. */
  function Next(m: Matcher, s: string, i: nat): (j: nat)
    requires Consumes(m) && i < |s|
    ensures i < j <= |s|
  {
    var n := m(s[i..]);
    if n.Some? then i + n.value else i + 1
  }

  /** The counts of `c` before and after replacing, from `i` on. */
  function CountBefore(s: string, i: nat, c: char): nat
    requires i <= |s|
  {
    Count(c, s[i..])
  }

  function CountAfter(m: Matcher, s: string, rep: string, i: nat, c: char): nat
    requires Consumes(m) && i <= |s|
  {
    Count(c, ReplaceAt(m, s, rep, i))
  }

  lemma DownStep(m: Matcher, s: string, rep: string, i: nat, c: char)
    requires Consumes(m) && c !in rep && i < |s|
    requires CountAfter(m, s, rep, Next(m, s, i), c) <= CountBefore(s, Next(m, s, i), c)
    ensures CountAfter(m, s, rep, i, c) <= CountBefore(s, i, c)
  {
    CountAbsent(c, rep);
    if m(s[i..]).Some? {
      CountStepMatch(m, s, rep, i, c);
    } else {
      CountStepCopy(m, s, rep, i, c);
    }
  }

  /** A replacement without `c` never adds a `c`. */
  lemma {:induction false} CountDown(m: Matcher, s: string, rep: string, i: nat, c: char)
    requires Consumes(m) && c !in rep && i <= |s|
    decreases |s| - i
    ensures CountAfter(m, s, rep, i, c) <= CountBefore(s, i, c)
  {
    if i < |s| {
      CountDown(m, s, rep, Next(m, s, i), c);
      DownStep(m, s, rep, i, c);
    }
  }

  lemma DownHaveStep(m: Matcher, s: string, rep: string, i: nat, c: char)
    requires Consumes(m) && MatchesHave(m, c) && c !in rep && i < |s|
    requires CountAfter(m, s, rep, Next(m, s, i), c) + NumMatchesAt(m, s, Next(m, s, i))
      <= CountBefore(s, Next(m, s, i), c)
    ensures CountAfter(m, s, rep, i, c) + NumMatchesAt(m, s, i) <= CountBefore(s, i, c)
  {
    CountAbsent(c, rep);
    if m(s[i..]).Some? {
      CountStepMatch(m, s, rep, i, c);
      MatchHolds(m, s[i..], c);
    } else {
      CountStepCopy(m, s, rep, i, c);
    }
  }

  /** When moreover every match holds a `c`, each replaced match removes
      at least one. */
  lemma {:induction false} CountDownHave(m: Matcher, s: string, rep: string, i: nat, c: char)
    requires Consumes(m) && MatchesHave(m, c) && c !in rep && i <= |s|
    decreases |s| - i
    ensures CountAfter(m, s, rep, i, c) + NumMatchesAt(m, s, i) <= CountBefore(s, i, c)
  {
    if i < |s| {
      CountDownHave(m, s, rep, Next(m, s, i), c);
      DownHaveStep(m, s, rep, i, c);
    }
  }

  lemma UpStep(m: Matcher, s: string, rep: string, i: nat, c: char)
    requires Consumes(m) && MatchesAvoid(m, c) && c in rep && i < |s|
    requires CountBefore(s, Next(m, s, i), c) + NumMatchesAt(m, s, Next(m, s, i))
      <= CountAfter(m, s, rep, Next(m, s, i), c)
    ensures CountBefore(s, i, c) + NumMatchesAt(m, s, i) <= CountAfter(m, s, rep, i, c)
  {
    if m(s[i..]).Some? {
      CountStepMatch(m, s, rep, i, c);
      CountPresent(c, rep);
      MatchLacks(m, s[i..], c);
    } else {
      CountStepCopy(m, s, rep, i, c);
    }
  }

  /** When no match holds a `c` and the replacement does, each replaced match
      adds at least one `c`. */
  lemma {:induction false} CountUp(m: Matcher, s: string, rep: string, i: nat, c: char)
    requires Consumes(m) && MatchesAvoid(m, c) && c in rep && i <= |s|
    decreases |s| - i
    ensures CountBefore(s, i, c) + NumMatchesAt(m, s, i) <= CountAfter(m, s, rep, i, c)
  {
    if i < |s| {
      CountUp(m, s, rep, Next(m, s, i), c);
      UpStep(m, s, rep, i, c);
    }
  }

  /** A pattern made of literals only. */
  predicate LiteralOnly(p: Pattern) {
    forall i :: 0 <= i < |p| ==> p[i].Lit?
  }

  lemma {:induction false} LiteralMatchLen(p: Pattern, s: string)
    requires LiteralOnly(p) && MatchLen(p, s).Some?
    decreases |p|
    ensures MatchLen(p, s).value == MinLen(p)
  {
    if p != [] {
      assert p[0].Lit?;
      assert LiteralOnly(p[1..]) by {
        forall i | 0 <= i < |p[1..]| ensures p[1..][i].Lit? { assert p[1..][i] == p[i + 1]; }
      }
      LiteralMatchLen(p[1..], s[|p[0].text|..]);
    }
  }

  /** Every match of `m` has length `len`. */
  ghost predicate FixedLength(m: Matcher, len: nat) {
    forall t :: m(t).Some? ==> m(t).value == len
  }

  lemma LiteralFixedLength(p: Pattern)
    requires LiteralOnly(p)
    ensures FixedLength(PatternMatcher(p), MinLen(p))
  {
    forall t | MatchLen(p, t).Some? ensures MatchLen(p, t).value == MinLen(p) {
      LiteralMatchLen(p, t);
    }
  }

  /** When every match is shorter than `rep`, each replacement adds at least one character. */
  lemma {:induction false} LengthReplaceAt(m: Matcher, s: string, rep: string, i: nat, len: nat)
    requires Consumes(m) && FixedLength(m, len) && len < |rep| && i <= |s|
    decreases |s| - i
    ensures |ReplaceAt(m, s, rep, i)| >= |s| - i + NumMatchesAt(m, s, i)
  {
    if i < |s| {
      var n := m(s[i..]);
      if n.Some? {
        ReplaceAtMatch(m, s, rep, i);
        LengthReplaceAt(m, s, rep, i + n.value, len);
      } else {
        ReplaceAtCopy(m, s, rep, i);
        LengthReplaceAt(m, s, rep, i + 1, len);
      }
    }
  }

  /** One rule of a replacement list: a global pattern and its replacement. */
  datatype Rule = Rule(pattern: Pattern, replacement: string)

  /** The pattern of `r` never matches the empty string. */
  predicate NonEmpty(r: Rule) {
    MinLen(r.pattern) > 0
  }

  /** `s.replace(new RegExp(r.pattern, 'g'), r.replacement)`. */
  function ApplyRule(r: Rule, s: string): string
    requires NonEmpty(r)
  {
    PatternConsumes(r.pattern);
    ReplaceAll(PatternMatcher(r.pattern), s, r.replacement)
  }

  /** `new RegExp(r.pattern).test(s)`. */
  predicate RuleMatches(r: Rule, s: string)
    requires NonEmpty(r)
  {
    PatternConsumes(r.pattern);
    Test(PatternMatcher(r.pattern), s)
  }

  /** Each match of `r` holds a `c` and its replacement holds none. */
  predicate Removes(r: Rule, c: char) {
    NonEmpty(r) && LitHas(r.pattern, c) && c !in r.replacement
  }

  /** No match of `r` holds a `c` and its replacement does. */
  predicate Adds(r: Rule, c: char) {
    NonEmpty(r) && Avoids(r.pattern, c) && c in r.replacement
  }

  /** `r` matches literals only, and its replacement is longer than them. */
  predicate Lengthens(r: Rule) {
    NonEmpty(r) && LiteralOnly(r.pattern) && |r.replacement| > MinLen(r.pattern)
  }

  lemma RuleIdentity(r: Rule, s: string)
    requires NonEmpty(r) && !RuleMatches(r, s)
    ensures ApplyRule(r, s) == s
  {
    PatternConsumes(r.pattern);
    ReplaceAllIdentity(PatternMatcher(r.pattern), s, r.replacement);
  }

  /** A rule whose replacement has no `c` never adds one, and removes one
      per match when every match has one. */
  lemma RuleCountDown(r: Rule, s: string, c: char)
    requires NonEmpty(r) && c !in r.replacement
    ensures Count(c, ApplyRule(r, s)) <= Count(c, s)
    ensures Removes(r, c) && RuleMatches(r, s) ==> Count(c, ApplyRule(r, s)) < Count(c, s)
  {
    var m := PatternMatcher(r.pattern);
    PatternConsumes(r.pattern);
    CountDown(m, s, r.replacement, 0, c);
    assert s[0..] == s;
    if Removes(r, c) {
      PatternMatchesHave(r.pattern, c);
      CountDownHave(m, s, r.replacement, 0, c);
      NumMatchesPositive(m, s);
    }
  }

  /** A rule that adds a `c` per match strictly raises the count when it matches. */
  lemma RuleCountUp(r: Rule, s: string, c: char)
    requires Adds(r, c)
    ensures Count(c, s) <= Count(c, ApplyRule(r, s))
    ensures RuleMatches(r, s) ==> Count(c, s) < Count(c, ApplyRule(r, s))
  {
    var m := PatternMatcher(r.pattern);
    PatternMatchesAvoid(r.pattern, c);
    CountUp(m, s, r.replacement, 0, c);
    assert s[0..] == s;
    NumMatchesPositive(m, s);
  }

  /** Two rules applied in turn, the first removing a `c1` per match and the
      second adding a `c2` per match and no `c1`: the text changes exactly
      when either pattern occurs in it. */
  lemma RemoveThenAdd(r1: Rule, r2: Rule, s: string, c1: char, c2: char)
    requires Removes(r1, c1) && Adds(r2, c2) && c1 !in r2.replacement
    ensures ApplyRule(r2, ApplyRule(r1, s)) != s <==> RuleMatches(r1, s) || RuleMatches(r2, s)
  {
    var t := ApplyRule(r1, s);
    RuleCountDown(r1, s, c1);
    RuleCountDown(r2, t, c1);
    if !RuleMatches(r1, s) {
      RuleIdentity(r1, s);
      if RuleMatches(r2, s) {
        RuleCountUp(r2, s, c2);
      } else {
        RuleIdentity(r2, s);
      }
    }
  }

  lemma RuleLengthens(r: Rule, s: string)
    requires Lengthens(r)
    ensures |ApplyRule(r, s)| >= |s|
    ensures RuleMatches(r, s) ==> |ApplyRule(r, s)| > |s|
  {
    var m := PatternMatcher(r.pattern);
    PatternConsumes(r.pattern);
    LiteralFixedLength(r.pattern);
    LengthReplaceAt(m, s, r.replacement, 0, MinLen(r.pattern));
    NumMatchesPositive(m, s);
  }

  predicate WellFormed(rules: seq<Rule>) {
    forall i :: 0 <= i < |rules| ==> NonEmpty(rules[i])
  }

  /** The rules applied globally one after another, each on the previous result. */
  function ReplaceEach(rules: seq<Rule>, s: string): string
    requires WellFormed(rules)
    decreases |rules|
  {
    if rules == [] then s
    else ApplyRule(rules[|rules| - 1], ReplaceEach(rules[..|rules| - 1], s))
  }

  /** One more rule of a list extends the fold by one application. */
  lemma ReplaceEachStep(rules: seq<Rule>, k: nat, s: string)
    requires WellFormed(rules) && k < |rules|
    ensures WellFormed(rules[..k]) && WellFormed(rules[..k + 1])
    ensures ReplaceEach(rules[..k + 1], s) == ApplyRule(rules[k], ReplaceEach(rules[..k], s))
  {
    assert rules[..k + 1][..k] == rules[..k];
  }

  /** Some rule's pattern occurs in `s` (`rules.some(r => r.pattern.test(s))`). */
  predicate AnyOccurs(rules: seq<Rule>, s: string)
    requires WellFormed(rules)
    decreases |rules|
  {
    rules != [] && (AnyOccurs(rules[..|rules| - 1], s) || RuleMatches(rules[|rules| - 1], s))
  }

  /** `AnyOccurs` holds exactly when some rule matches. */
  lemma {:induction false} AnyOccursSome(rules: seq<Rule>, s: string)
    requires WellFormed(rules)
    decreases |rules|
    ensures AnyOccurs(rules, s) <==> exists i :: 0 <= i < |rules| && RuleMatches(rules[i], s)
  {
    if rules != [] {
      var init := rules[..|rules| - 1];
      AnyOccursSome(init, s);
      assert forall i :: 0 <= i < |init| ==> init[i] == rules[i];
      if RuleMatches(rules[|rules| - 1], s) {
        assert 0 <= |rules| - 1 < |rules|;
      }
    }
  }

  /** Rules none of whose patterns occurs in `s` leave it unchanged. */
  lemma {:induction false} ReplaceEachIdentity(rules: seq<Rule>, s: string)
    requires WellFormed(rules) && !AnyOccurs(rules, s)
    decreases |rules|
    ensures ReplaceEach(rules, s) == s
  {
    if rules != [] {
      ReplaceEachIdentity(rules[..|rules| - 1], s);
      RuleIdentity(rules[|rules| - 1], s);
    }
  }

  /** Rules that each remove a `c` per match and add none never increase the
      count of `c`, and strictly decrease it when some pattern occurs in the input. */
  lemma {:induction false} ReplaceEachRemoves(rules: seq<Rule>, s: string, c: char)
    requires forall i :: 0 <= i < |rules| ==> Removes(rules[i], c)
    decreases |rules|
    ensures WellFormed(rules)
    ensures Count(c, ReplaceEach(rules, s)) <= Count(c, s)
    ensures AnyOccurs(rules, s) ==> Count(c, ReplaceEach(rules, s)) < Count(c, s)
  {
    if rules != [] {
      var init := rules[..|rules| - 1];
      var last := rules[|rules| - 1];
      assert forall i :: 0 <= i < |init| ==> init[i] == rules[i];
      ReplaceEachRemoves(init, s, c);
      RuleCountDown(last, ReplaceEach(init, s), c);
      if !AnyOccurs(init, s) {
        ReplaceEachIdentity(init, s);
      }
    }
  }

  /** Rules on literal patterns whose replacements are longer than the
      literal never shorten the text, and lengthen it when some pattern occurs. */
  lemma {:induction false} ReplaceEachLengthens(rules: seq<Rule>, s: string)
    requires forall i :: 0 <= i < |rules| ==> Lengthens(rules[i])
    decreases |rules|
    ensures WellFormed(rules)
    ensures |ReplaceEach(rules, s)| >= |s|
    ensures AnyOccurs(rules, s) ==> |ReplaceEach(rules, s)| > |s|
  {
    if rules != [] {
      var init := rules[..|rules| - 1];
      var last := rules[|rules| - 1];
      assert forall i :: 0 <= i < |init| ==> init[i] == rules[i];
      ReplaceEachLengthens(init, s);
      RuleLengthens(last, ReplaceEach(init, s));
      if !AnyOccurs(init, s) {
        ReplaceEachIdentity(init, s);
      }
    }
  }
}
