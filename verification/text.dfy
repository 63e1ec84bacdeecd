/** The JavaScript string operations the patch engine relies on
    (`indexOf`, `includes`, `lastIndexOf`, `replace` with a string pattern,
    `trim`), stated over `seq<char>`. */
module Text {

  /** `p` occurs in `s` starting at index `i`. */
  predicate OccursAt(s: string, p: string, i: nat) {
    i + |p| <= |s| && s[i..i + |p|] == p
  }

  predicate IsPrefix(p: string, s: string) {
    |p| <= |s| && s[..|p|] == p
  }

  /** `s.indexOf(p, from)`: the first occurrence at or after `from`, or -1. */
  function IndexOfFrom(s: string, p: string, from: nat): (r: int)
    decreases |s| - from
    ensures r == -1 || (from <= r && OccursAt(s, p, r))
    ensures r == -1 ==> forall k: nat :: from <= k ==> !OccursAt(s, p, k)
    ensures r != -1 ==> forall k: nat :: from <= k < r ==> !OccursAt(s, p, k)
  {
    if from + |p| > |s| then -1
    else if s[from..from + |p|] == p then from
    else IndexOfFrom(s, p, from + 1)
  }

  /** `s.indexOf(p)`. */
  function IndexOf(s: string, p: string): (r: int)
    ensures r == -1 || (0 <= r && OccursAt(s, p, r))
    ensures r == -1 ==> forall k: nat :: !OccursAt(s, p, k)
    ensures r != -1 ==> forall k: nat :: k < r ==> !OccursAt(s, p, k)
  {
    IndexOfFrom(s, p, 0)
  }

  /** `s.includes(p)`. */
  predicate Contains(s: string, p: string) {
    IndexOf(s, p) != -1
  }

  lemma ContainsWitness(s: string, p: string, i: nat)
    requires OccursAt(s, p, i)
    ensures Contains(s, p) && IndexOf(s, p) <= i
  {
  }

  /** The last occurrence starting at or before index `k`, or -1. */
  function LastIndexAtOrBefore(s: string, p: string, k: nat): (r: int)
    decreases k
    ensures r == -1 || (0 <= r <= k && OccursAt(s, p, r))
    ensures forall j: nat :: r < j <= k ==> !OccursAt(s, p, j)
  {
    if OccursAt(s, p, k) then k
    else if k == 0 then -1
    else LastIndexAtOrBefore(s, p, k - 1)
  }

  /** `s.lastIndexOf(p, from)`: the greatest start index `<= from` of an occurrence. */
  function LastIndexOf(s: string, p: string, from: nat): (r: int)
    ensures r == -1 || (0 <= r <= from && OccursAt(s, p, r))
    ensures forall j: nat :: r < j <= from ==> !OccursAt(s, p, j)
  {
    LastIndexAtOrBefore(s, p, if from < |s| then from else |s|)
  }

  /** `s.replace(p, rep)` with a string pattern and a replacement free of `$`
      patterns: only the first occurrence is replaced. */
  function ReplaceFirst(s: string, p: string, rep: string): (r: string)
    ensures !Contains(s, p) ==> r == s
    ensures Contains(s, p) ==>
      var i := IndexOf(s, p);
      |r| == |s| - |p| + |rep| &&
      r[..i] == s[..i] && r[i..i + |rep|] == rep && r[i + |rep|..] == s[i + |p|..]
  {
    var i := IndexOf(s, p);
    if i == -1 then s else s[..i] + rep + s[i + |p|..]
  }

  /** From the first occurrence on, the result is the replacement followed
      by what followed the occurrence. */
  lemma ReplaceFirstFrom(s: string, p: string, rep: string)
    requires Contains(s, p)
    ensures var i := IndexOf(s, p);
      i + |p| <= |s| && i <= |ReplaceFirst(s, p, rep)| &&
      ReplaceFirst(s, p, rep)[i..] == rep + s[i + |p|..]
  {
    var i := IndexOf(s, p);
    assert ReplaceFirst(s, p, rep) == s[..i] + rep + s[i + |p|..];
  }

  /** Replacing the first occurrence of `p` by `p + x` inserts `x` right
      after that occurrence. */
  lemma ReplaceAppends(s: string, p: string, x: string)
    requires Contains(s, p)
    ensures var j := IndexOf(s, p) + |p|;
      j <= |s| && ReplaceFirst(s, p, p + x) == s[..j] + x + s[j..]
  {
    var i := IndexOf(s, p);
    assert s[..i + |p|] == s[..i] + p;
  }

  /** `s.slice(from, to)` for indices that are not negative. */
  function Slice(s: string, from: nat, to: nat): (r: string)
    ensures |r| <= |s|
    ensures from <= to <= |s| ==> r == s[from..to]
  {
    var hi := if to < |s| then to else |s|;
    var lo := if from < hi then from else hi;
    s[lo..hi]
  }

  /** Number of occurrences of the character `c`. */
  function Count(c: char, s: string): nat {
    if s == [] then 0 else (if s[0] == c then 1 else 0) + Count(c, s[1..])
  }

  lemma {:induction false} CountConcat(c: char, a: string, b: string)
    ensures Count(c, a + b) == Count(c, a) + Count(c, b)
  {
    if a == [] {
      assert a + b == b;
    } else {
      assert (a + b)[0] == a[0];
      assert (a + b)[1..] == a[1..] + b;
      CountConcat(c, a[1..], b);
    }
  }

  lemma {:induction false} CountAbsent(c: char, s: string)
    requires c !in s
    ensures Count(c, s) == 0
  {
    if s != [] {
      assert s[0] != c;
      assert c !in s[1..] by {
        assert forall j :: 0 <= j < |s[1..]| ==> s[1..][j] == s[j + 1];
      }
      CountAbsent(c, s[1..]);
    }
  }

  lemma {:induction false} CountPresent(c: char, s: string)
    requires c in s
    ensures Count(c, s) >= 1
  {
    if s[0] != c {
      var j :| 0 <= j < |s| && s[j] == c;
      assert s[1..][j - 1] == c;
      CountPresent(c, s[1..]);
    }
  }

  /** JavaScript's `\w`: `[A-Za-z0-9_]`. */
  predicate IsWordChar(ch: char) {
    ('a' <= ch <= 'z') || ('A' <= ch <= 'Z') || ('0' <= ch <= '9') || ch == '_'
  }

  /** JavaScript's `\s`, which is also the set `trim` removes:
      WhiteSpace and LineTerminator code points. */
  predicate IsSpace(ch: char) {
    var n := ch as int;
    (9 <= n <= 13) || n == 0x20 || n == 0xA0 || n == 0x1680 || (0x2000 <= n <= 0x200A) ||
    n == 0x2028 || n == 0x2029 || n == 0x202F || n == 0x205F || n == 0x3000 || n == 0xFEFF
  }

  function TrimStart(s: string): (r: string)
    ensures |r| <= |s| && r == s[|s| - |r|..]
    ensures r == [] || !IsSpace(r[0])
    ensures forall i :: 0 <= i < |s| - |r| ==> IsSpace(s[i])
  {
    if s != [] && IsSpace(s[0]) then TrimStart(s[1..]) else s
  }

  function TrimEnd(s: string): (r: string)
    ensures |r| <= |s| && r == s[..|r|]
    ensures r == [] || !IsSpace(r[|r| - 1])
    ensures forall i :: |r| <= i < |s| ==> IsSpace(s[i])
  {
    if s != [] && IsSpace(s[|s| - 1]) then TrimEnd(s[..|s| - 1]) else s
  }

  /** `s.trim()`. */
  function Trim(s: string): string {
    TrimEnd(TrimStart(s))
  }

  /** A string without leading or trailing white space is its own trim,
      so a stored hexadecimal digest reads back as itself. */
  lemma TrimFixed(s: string)
    requires s == [] || (!IsSpace(s[0]) && !IsSpace(s[|s| - 1]))
    ensures Trim(s) == s
  {
  }

  lemma AppendAssoc<T>(a: seq<T>, b: seq<T>, c: seq<T>)
    ensures a + (b + c) == (a + b) + c
  {
  }
}
