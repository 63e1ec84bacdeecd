/** `JSON.stringify` on strings and on arrays of strings, and the decoding
    of a JSON string body, which undoes it. */
module Json {
  import opened Wrappers
  import opened Text

  /** The lower-case hexadecimal digit of `n`. */
  function HexDigit(n: nat): char
    requires n < 16
  {
    if n < 10 then ('0' as int + n) as char else ('a' as int + n - 10) as char
  }

  /** The value of a hexadecimal digit of either case. */
  function HexValue(c: char): (r: Option<nat>)
    ensures r.Some? ==> r.value < 16
  {
    if '0' <= c <= '9' then Some(c as int - '0' as int)
    else if 'a' <= c <= 'f' then Some(c as int - 'a' as int + 10)
    else if 'A' <= c <= 'F' then Some(c as int - 'A' as int + 10)
    else None
  }

  lemma HexRoundTrip(n: nat)
    requires n < 16
    ensures HexValue(HexDigit(n)) == Some(n)
  {
  }

  /** The `\u00XX` escape of a control character reads back as that character. */
  lemma Hex4Control(n: nat)
    requires n < 0x20
    ensures Hex4(['0', '0', HexDigit(n / 16), HexDigit(n % 16)]) == Some(n)
  {
    HexRoundTrip(n / 16);
    HexRoundTrip(n % 16);
  }

  /** The characters `JSON.stringify` writes as a backslash and a letter,
      with that letter. */
  function ShortName(c: char): Option<char> {
    var n := c as int;
    if c == '"' then Some('"')
    else if c == '\\' then Some('\\')
    else if n == 8 then Some('b')
    else if n == 9 then Some('t')
    else if n == 10 then Some('n')
    else if n == 12 then Some('f')
    else if n == 13 then Some('r')
    else None
  }

  /** The character a backslash and a letter stand for in a JSON string. */
  function ShortEscape(x: char): Option<char> {
    if x == '"' || x == '\\' || x == '/' then Some(x)
    else if x == 'b' then Some(8 as char)
    else if x == 't' then Some(9 as char)
    else if x == 'n' then Some(10 as char)
    else if x == 'f' then Some(12 as char)
    else if x == 'r' then Some(13 as char)
    else None
  }

  lemma ShortRoundTrip(c: char)
    requires ShortName(c).Some?
    ensures ShortEscape(ShortName(c).value) == Some(c)
  {
  }

  /** How `JSON.stringify` writes one character of a string: quote,
      backslash and five control characters as a backslash and a letter,
      other control characters as `\u00XX`, the rest as is. */
  function EscapeChar(c: char): (r: string)
    ensures r != []
  {
    var n := c as int;
    if ShortName(c).Some? then ['\\', ShortName(c).value]
    else if n < 0x20 then ['\\', 'u', '0', '0', HexDigit(n / 16), HexDigit(n % 16)]
    else [c]
  }

  /** The body of the JSON string of `s`. */
  function Escape(s: string): string {
    if s == [] then [] else EscapeChar(s[0]) + Escape(s[1..])
  }

  /** Escaping adds no character other than a backslash, a quote, an ASCII
      letter or digit, so any other character missing from `s` is missing
      from its escape too. */
  lemma {:induction false} EscapeAvoids(s: string, c: char)
    requires c !in s && c != '\\' && c != '"' && !('0' <= c <= '9') && !('a' <= c <= 'z')
    ensures c !in Escape(s)
  {
    if s != [] {
      EscapeAvoids(s[1..], c);
      assert c !in EscapeChar(s[0]);
    }
  }

  /** `JSON.stringify(s)` for a string `s`. */
  function Quote(s: string): string {
    ['"'] + Escape(s) + ['"']
  }

  /** The items of a JSON array of strings, separated by commas. */
  function Items(xs: seq<string>): string {
    if xs == [] then []
    else if |xs| == 1 then Quote(xs[0])
    else Quote(xs[0]) + [','] + Items(xs[1..])
  }

  /** A character `EscapeAvoids` keeps out of each string, other than a
      comma, is kept out of the items and their separators. */
  lemma {:induction false} ItemsAvoid(xs: seq<string>, c: char)
    requires forall k :: 0 <= k < |xs| ==> c !in xs[k]
    requires c != '\\' && c != '"' && c != ',' && !('0' <= c <= '9') && !('a' <= c <= 'z')
    ensures c !in Items(xs)
  {
    if xs != [] {
      EscapeAvoids(xs[0], c);
      if |xs| > 1 {
        ItemsAvoid(xs[1..], c);
      }
    }
  }

  /** `JSON.stringify(xs)` for an array of strings. */
  function Array(xs: seq<string>): string {
    ['['] + Items(xs) + [']']
  }

  /** A read value followed by the text after it. */
  datatype Read<T> = Read(value: T, rest: string)

  function Cons(c: char, r: Option<Read<string>>): Option<Read<string>> {
    if r.Some? then Some(Read([c] + r.value.value, r.value.rest)) else None
  }

  /** Reads the body of a JSON string up to its closing quote, as
      `JSON.parse` does: a raw control character or an unknown escape is an
      error. `JSON.parse` turns a `\u` escape of a surrogate into a lone
      UTF-16 surrogate; here a character is a code point, which cannot be a
      surrogate, so such an escape is rejected. */
  function ReadString(t: string): (r: Option<Read<string>>)
    ensures r.Some? ==> |r.value.rest| < |t|
  {
    if t == [] then None
    else if t[0] == '"' then Some(Read([], t[1..]))
    else if t[0] < ' ' then None
    else if t[0] != '\\' then Cons(t[0], ReadString(t[1..]))
    else if |t| < 2 then None
    else if ShortEscape(t[1]).Some? then Cons(ShortEscape(t[1]).value, ReadString(t[2..]))
    else if t[1] == 'u' && |t| >= 6 then
      var v := Hex4(t[2..6]);
      if v.None? || 0xD800 <= v.value < 0xE000 then None else Cons(v.value as char, ReadString(t[6..]))
    else None
  }

  /** The value of four hexadecimal digits. */
  function Hex4(h: string): (r: Option<nat>)
    requires |h| == 4
    ensures r.Some? ==> r.value < 0x10000
  {
    var d0, d1, d2, d3 := HexValue(h[0]), HexValue(h[1]), HexValue(h[2]), HexValue(h[3]);
    if d0.None? || d1.None? || d2.None? || d3.None? then None
    else Some(((d0.value * 16 + d1.value) * 16 + d2.value) * 16 + d3.value)
  }

  /** Reads the items of a non-empty JSON array of strings up to its
      closing bracket. */
  function ReadItems(t: string): (r: Option<Read<seq<string>>>)
    ensures r.Some? ==> |r.value.rest| < |t|
    decreases |t|
  {
    if t == [] || t[0] != '"' then None
    else
      var x := ReadString(t[1..]);
      if x.None? || x.value.rest == [] then None
      else if x.value.rest[0] == ']' then Some(Read([x.value.value], x.value.rest[1..]))
      else if x.value.rest[0] != ',' then None
      else
        var more := ReadItems(x.value.rest[1..]);
        if more.None? then None else Some(Read([x.value.value] + more.value.value, more.value.rest))
  }

  /** Reads a JSON array of strings, as `JSON.parse` does. */
  function ReadArray(t: string): (r: Option<Read<seq<string>>>)
    ensures r.Some? ==> |r.value.rest| < |t|
  {
    if t == [] || t[0] != '[' then None
    else if |t| >= 2 && t[1] == ']' then Some(Read([], t[2..]))
    else ReadItems(t[1..])
  }

  /** Reading one escaped character in front of more text. */
  lemma ReadStep(c: char, t: string)
    ensures ReadString(EscapeChar(c) + t) == Cons(c, ReadString(t))
  {
    var e := EscapeChar(c);
    if |e| == 6 {
      ReadControl(c, t);
    } else if |e| == 2 {
      ReadShort(c, t);
    } else {
      assert (e + t)[1..] == t;
    }
  }

  lemma ReadShort(c: char, t: string)
    requires |EscapeChar(c)| == 2
    ensures ReadString(EscapeChar(c) + t) == Cons(c, ReadString(t))
  {
    var e := EscapeChar(c);
    ShortRoundTrip(c);
    assert (e + t)[2..] == t;
    assert (e + t)[0] == '\\' && (e + t)[1] == ShortName(c).value;
  }

  lemma ReadControl(c: char, t: string)
    requires |EscapeChar(c)| == 6
    ensures ReadString(EscapeChar(c) + t) == Cons(c, ReadString(t))
  {
    var n := c as int;
    var e := EscapeChar(c);
    assert n < 0x20;
    Hex4Control(n);
    assert (e + t)[2..6] == ['0', '0', HexDigit(n / 16), HexDigit(n % 16)];
    assert (e + t)[6..] == t;
  }

  /** Reading undoes `JSON.stringify` on every string: the escaped body
      followed by a quote reads back as the string, and reading stops
      right after that quote. */
  lemma {:induction false} ReadEscape(s: string, rest: string)
    ensures ReadString(Escape(s) + ['"'] + rest) == Some(Read(s, rest))
  {
    if s == [] {
      assert Escape(s) + ['"'] + rest == ['"'] + rest;
    } else {
      ReadEscape(s[1..], rest);
      assert Escape(s) + ['"'] + rest == EscapeChar(s[0]) + (Escape(s[1..]) + ['"'] + rest);
      ReadStep(s[0], Escape(s[1..]) + ['"'] + rest);
      assert [s[0]] + s[1..] == s;
    }
  }

  /** Reading an item that is a well-formed string, by what follows it. */
  lemma ReadItemsCons(x: string, u: string)
    ensures ReadItems(['"'] + (Escape(x) + ['"'] + u)) ==
      if u == [] || (u[0] != ']' && u[0] != ',') then None
      else if u[0] == ']' then Some(Read([x], u[1..]))
      else
        var more := ReadItems(u[1..]);
        if more.None? then None else Some(Read([x] + more.value.value, more.value.rest))
  {
    var t := ['"'] + (Escape(x) + ['"'] + u);
    ReadEscape(x, u);
    assert t[0] == '"' && t[1..] == Escape(x) + ['"'] + u;
  }

  lemma QuoteThen(x: string, u: string)
    ensures Quote(x) + u == ['"'] + (Escape(x) + ['"'] + u)
  {
  }

  lemma ItemsThen(xs: seq<string>, u: string)
    requires xs != []
    ensures Items(xs) + u ==
      if |xs| == 1 then Quote(xs[0]) + u else Quote(xs[0]) + ([','] + (Items(xs[1..]) + u))
  {
    if |xs| > 1 {
      AppendAssoc(Quote(xs[0]) + [','], Items(xs[1..]), u);
      AppendAssoc(Quote(xs[0]), [','], Items(xs[1..]) + u);
    }
  }

  /** The items of a non-empty array read back, and reading stops right
      after the closing bracket. */
  lemma {:induction false} ReadItemsBack(xs: seq<string>, rest: string)
    requires xs != []
    ensures ReadItems(Items(xs) + ([']'] + rest)) == Some(Read(xs, rest))
    decreases |xs|
  {
    var u := [']'] + rest;
    ItemsThen(xs, u);
    if |xs| == 1 {
      QuoteThen(xs[0], u);
      ReadItemsCons(xs[0], u);
      assert u[1..] == rest;
      assert [xs[0]] == xs;
    } else {
      var tail := Items(xs[1..]) + u;
      QuoteThen(xs[0], [','] + tail);
      ReadItemsCons(xs[0], [','] + tail);
      assert ([','] + tail)[1..] == tail;
      ReadItemsBack(xs[1..], rest);
      assert [xs[0]] + xs[1..] == xs;
    }
  }

  /** `JSON.parse` undoes `JSON.stringify` on every array of strings. */
  lemma ReadArrayBack(xs: seq<string>, rest: string)
    ensures ReadArray(Array(xs) + rest) == Some(Read(xs, rest))
  {
    var t := Array(xs) + rest;
    if xs == [] {
      assert t == ['[', ']'] + rest;
    } else {
      assert t == ['['] + (Items(xs) + ([']'] + rest));
      ItemsFirst(xs);
      ReadItemsBack(xs, rest);
    }
  }

  /** A non-empty list of items begins with a quote. */
  lemma ItemsFirst(xs: seq<string>)
    requires xs != []
    ensures Items(xs) != [] && Items(xs)[0] == '"'
  {
  }

  /** Escaping works character by character. */
  lemma {:induction false} EscapeConcat(a: string, b: string)
    ensures Escape(a + b) == Escape(a) + Escape(b)
  {
    if a != [] {
      assert (a + b)[0] == a[0] && (a + b)[1..] == a[1..] + b;
      EscapeConcat(a[1..], b);
      AppendAssoc(EscapeChar(a[0]), Escape(a[1..]), Escape(b));
    } else {
      assert a + b == b;
    }
  }

  /** Escaping never shortens. */
  lemma {:induction false} EscapeLength(s: string)
    ensures |Escape(s)| >= |s|
  {
    if s != [] {
      EscapeLength(s[1..]);
    }
  }

  /** An array of strings each longer than its counterpart is longer. */
  lemma {:induction false} ArrayLonger(xs: seq<string>, ys: seq<string>)
    requires |xs| == |ys| > 0
    requires forall k :: 0 <= k < |xs| ==> |Quote(xs[k])| < |Quote(ys[k])|
    ensures |Array(xs)| < |Array(ys)|
  {
    ItemsLonger(xs, ys);
  }

  lemma {:induction false} ItemsLonger(xs: seq<string>, ys: seq<string>)
    requires |xs| == |ys| > 0
    requires forall k :: 0 <= k < |xs| ==> |Quote(xs[k])| < |Quote(ys[k])|
    decreases |xs|
    ensures |Items(xs)| < |Items(ys)|
  {
    if |xs| > 1 {
      ItemsLonger(xs[1..], ys[1..]);
    }
  }

  /** Replacing the first occurrence of `target` by the array `xs` leaves
      text that reads as that array from the occurrence on. */
  lemma ReplaceByArray(s: string, target: string, xs: seq<string>)
    requires Contains(s, target)
    ensures var i := IndexOf(s, target);
      var r := ReplaceFirst(s, target, Array(xs));
      i + |target| <= |s| && i <= |r| && r[..i] == s[..i] &&
      ReadArray(r[i..]) == Some(Read(xs, s[i + |target|..]))
  {
    var i := IndexOf(s, target);
    ReplaceFirstFrom(s, target, Array(xs));
    ReadArrayBack(xs, s[i + |target|..]);
  }
}
