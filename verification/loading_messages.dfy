/** The loading-messages patch: the array of 56 loading words the bundle
    shows while it works is replaced by the same words, each followed by
    one of four coloured "unleashed" suffixes. */
module LoadingMessages {
  import opened Wrappers
  import opened Text
  import opened Json
  import PatchBase

  /** The loading words, in the bundle's order. */
  const WORDS: seq<string> := [
    "Accomplishing", "Actioning", "Actualizing", "Baking", "Brewing", "Calculating",
    "Cerebrating", "Churning", "Clauding", "Coalescing", "Cogitating", "Computing",
    "Conjuring", "Considering", "Cooking", "Crafting", "Creating", "Crunching",
    "Deliberating", "Determining", "Doing", "Effecting", "Finagling", "Forging", "Forming",
    "Generating", "Hatching", "Herding", "Honking", "Hustling", "Ideating", "Inferring",
    "Manifesting", "Marinating", "Moseying", "Mulling", "Mustering", "Musing", "Noodling",
    "Percolating", "Pondering", "Processing", "Puttering", "Reticulating", "Ruminating",
    "Schlepping", "Shucking", "Simmering", "Smooshing", "Spinning", "Stewing",
    "Synthesizing", "Thinking", "Transmuting", "Vibing", "Working"
  ]

  /** The array as it appears in the bundle: `JSON.stringify(WORDS)`. */
  const ORIGINAL_ARRAY: string := Array(WORDS)

  const ESC: char := '\U{1B}'

  /** The colour codes of the terminal palette. */
  datatype Palette = Palette(red: string, yellow: string, cyan: string, bold: string, reset: string)

  /** An ANSI control sequence begins with escape and an opening bracket. */
  predicate Ansi(code: string) {
    |code| >= 2 && code[0] == ESC && code[1] == '['
  }

  predicate ValidPalette(p: Palette) {
    Ansi(p.red) && Ansi(p.yellow) && Ansi(p.cyan) && Ansi(p.bold) && Ansi(p.reset)
  }

  /** The four suffixes, each a space, a colour and a remark. */
  function Suffixes(p: Palette): seq<string> {
    [ " " + p.red + "(safety's off, hold on tight)" + p.reset,
      " " + p.yellow + "(all gas, no brakes, lfg)" + p.reset,
      " " + p.bold + [ESC] + "[35m" + "(unleashed mode)" + p.reset,
      " " + p.cyan + "(dangerous mode! I guess " + "you can just do things)" + p.reset ]
  }

  /** `Math.floor(Math.random() * 4)`: an index into the suffixes. */
  type SuffixIndex = k: nat | k < 4

  /** The new words: word `k` followed by suffix `pick(k)`, where `pick(k)`
      is the random draw made for word `k`. */
  function Unleashed(p: Palette, pick: nat -> SuffixIndex): seq<string> {
    seq(|WORDS|, k requires 0 <= k < |WORDS| => WORDS[k] + Suffixes(p)[pick(k)])
  }

  predicate CanApply(source: string) {
    Contains(source, ORIGINAL_ARRAY)
  }

  /** The first occurrence of the array is replaced by the new array. The new
      array is inserted as it is, which is what `replace` does with a
      replacement holding no `$`. */
  function Apply(source: string, p: Palette, pick: nat -> SuffixIndex): string {
    ReplaceFirst(source, ORIGINAL_ARRAY, Array(Unleashed(p, pick)))
  }

  /** Parsing the array in the bundle gives back the word list, so the
      `try` around it has nothing to catch. */
  lemma OriginalParses()
    ensures ReadArray(ORIGINAL_ARRAY) == Some(Read(WORDS, []))
  {
    ReadArrayBack(WORDS, []);
    assert ORIGINAL_ARRAY + [] == ORIGINAL_ARRAY;
  }

  /** Every suffix begins with a space and a control sequence. */
  lemma SuffixMarked(p: Palette, i: SuffixIndex)
    requires ValidPalette(p)
    ensures |Suffixes(p)[i]| >= 3
    ensures Suffixes(p)[i][0] == ' ' && Suffixes(p)[i][1] == ESC && Suffixes(p)[i][2] == '['
  {
  }

  /** There is one new entry per word; each is the word, a space, and a
      control sequence. */
  lemma EntriesMarked(p: Palette, pick: nat -> SuffixIndex)
    requires ValidPalette(p)
    ensures |Unleashed(p, pick)| == |WORDS| == 56
    ensures forall k :: 0 <= k < |WORDS| ==>
      var e := Unleashed(p, pick)[k];
      IsPrefix(WORDS[k], e) && OccursAt(e, [' ', ESC, '['], |WORDS[k]|)
  {
    forall k | 0 <= k < |WORDS|
      ensures IsPrefix(WORDS[k], Unleashed(p, pick)[k])
      ensures OccursAt(Unleashed(p, pick)[k], [' ', ESC, '['], |WORDS[k]|)
    {
      var w, s := WORDS[k], Suffixes(p)[pick(k)];
      SuffixMarked(p, pick(k));
      assert (w + s)[..|w|] == w;
      assert (w + s)[|w|..|w| + 3] == s[..3];
    }
  }

  /** Each new entry is written longer than the word it replaces: every
      suffix starts with a space, whatever the palette. */
  lemma EntriesLonger(p: Palette, pick: nat -> SuffixIndex)
    ensures forall k :: 0 <= k < |WORDS| ==> |Quote(WORDS[k])| < |Quote(Unleashed(p, pick)[k])|
  {
    forall k | 0 <= k < |WORDS|
      ensures |Quote(WORDS[k])| < |Quote(Unleashed(p, pick)[k])|
    {
      var w, s := WORDS[k], Suffixes(p)[pick(k)];
      assert s[0] == ' ';
      EscapeConcat(w, s);
      EscapeLength(s);
    }
  }

  /** Where the patch applies, the bundle keeps everything before the first
      occurrence of the array, and from there reads as a JSON array holding
      exactly the new entries, followed by what followed the old array. */
  lemma ApplyWritesArray(source: string, p: Palette, pick: nat -> SuffixIndex)
    requires CanApply(source)
    ensures var i := IndexOf(source, ORIGINAL_ARRAY);
      var r := Apply(source, p, pick);
      i + |ORIGINAL_ARRAY| <= |source| && i <= |r| && r[..i] == source[..i] &&
      ReadArray(r[i..]) == Some(Read(Unleashed(p, pick), source[i + |ORIGINAL_ARRAY|..]))
  {
    ReplaceByArray(source, ORIGINAL_ARRAY, Unleashed(p, pick));
  }

  /** The patch changes the bundle exactly when it can apply. */
  lemma ApplyChangesIff(source: string, p: Palette, pick: nat -> SuffixIndex)
    ensures Apply(source, p, pick) != source <==> CanApply(source)
    ensures !CanApply(source) ==> Apply(source, p, pick) == source
  {
    if CanApply(source) {
      EntriesLonger(p, pick);
      ArrayLonger(WORDS, Unleashed(p, pick));
    }
  }

  /** The descriptor; `JSON.parse` of the constant array cannot fail, so
      `apply` is the replacement itself. */
  function Patch(p: Palette, pick: nat -> SuffixIndex): (r: PatchBase.Patch)
    ensures r.id == "loading-messages" && !r.required
  {
    PatchBase.NewPatch(PatchBase.Fields(
      "loading-messages", "Replace loading messages with Unleashed-themed versions", Some(false),
      PatchBase.Custom(CanApply), PatchBase.Custom(s => Apply(s, p, pick)), PatchBase.Default))
  }

  /** Whatever the palette and the draws, the descriptor never turns down
      its own change once `canApply` passed. */
  lemma PatchEffective(p: Palette, pick: nat -> SuffixIndex)
    ensures PatchBase.Effective(Patch(p, pick))
  {
    var d := Patch(p, pick);
    forall s | d.canApply.f(s)
      ensures d.apply.f(s) != s
    {
      ApplyChangesIff(s, p, pick);
    }
  }
}
