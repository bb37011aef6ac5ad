/**
 * The string primitives the ranking engine is built from: lower-casing,
 * `trim`, substring containment (`includes`), splitting into word tokens
 * (`split(/\s+/)` followed by the length filter) and `join`.
 */
module Text {

  /** The ECMAScript WhiteSpace and LineTerminator code points: exactly what
      `String.prototype.trim` strips and what the regular expression `\s` matches. */
  predicate IsSpace(c: char) {
    || c == '\t' || c == '\n' || c == '\U{B}' || c == '\U{C}' || c == '\r' || c == ' '
    || c == '\U{A0}' || c == '\U{1680}' || ('\U{2000}' <= c <= '\U{200A}')
    || c == '\U{2028}' || c == '\U{2029}' || c == '\U{202F}' || c == '\U{205F}'
    || c == '\U{3000}' || c == '\U{FEFF}'
  }

  /** Lower-case mapping of one character: ASCII letters and the basic
      Cyrillic block (the corpus is Ukrainian), including U+0490 (Ghe with upturn). */
  function LowerChar(c: char): (r: char)
    ensures IsSpace(r) <==> IsSpace(c)
    ensures r == c || ('A' <= c <= 'Z') || ('\U{400}' <= c <= '\U{42F}') || c == '\U{490}'
  {
    if 'A' <= c <= 'Z' then (c as int + 32) as char
    else if '\U{410}' <= c <= '\U{42F}' then (c as int + 0x20) as char
    else if '\U{400}' <= c <= '\U{40F}' then (c as int + 0x50) as char
    else if c == '\U{490}' then '\U{491}'
    else c
  }

  /** `toLowerCase`, character by character. */
  function Lower(s: string): (r: string)
    ensures |r| == |s|
  {
    seq(|s|, i requires 0 <= i < |s| => LowerChar(s[i]))
  }

  /** Drops leading whitespace. */
  function TrimStart(s: string): (r: string)
    ensures |r| <= |s|
  {
    if s != [] && IsSpace(s[0]) then TrimStart(s[1..]) else s
  }

  /** Drops trailing whitespace. */
  function TrimEnd(s: string): (r: string)
    ensures |r| <= |s|
  {
    if s != [] && IsSpace(s[|s| - 1]) then TrimEnd(s[..|s| - 1]) else s
  }

  /** `trim`: the string without its leading and trailing whitespace. */
  function Trim(s: string): string {
    TrimEnd(TrimStart(s))
  }

  /** `text.includes(sub)`: `sub` occurs in `text` at some position. */
  predicate Contains(text: string, sub: string) {
    exists k | 0 <= k <= |text| - |sub| :: sub <= text[k..]
  }

  /** Pieces of `s` between single whitespace characters: `split` at every
      whitespace character. Runs of whitespace give empty pieces, which the
      length filter of `Tokens` removes, so `Tokens` is also the result of
      splitting at whitespace runs (`split(/\s+/)`). */
  function Pieces(s: string): (r: seq<string>)
    ensures |r| >= 1
    decreases |s|
  {
    if s == [] then [[]]
    else
      var rest := Pieces(s[1..]);
      if IsSpace(s[0]) then [[]] + rest
      else [[s[0]] + rest[0]] + rest[1..]
  }

  /** `filter((w) => w.length >= 2)`. */
  function KeepLong(ws: seq<string>): (r: seq<string>)
    ensures |r| <= |ws|
  {
    if ws == [] then []
    else if |ws[0]| >= 2 then [ws[0]] + KeepLong(ws[1..])
    else KeepLong(ws[1..])
  }

  /** `s.split(/\s+/).filter((w) => w.length >= 2)`. */
  function Tokens(s: string): seq<string> {
    KeepLong(Pieces(s))
  }

  /** `values.join(sep)`. */
  function Join(values: seq<string>, sep: string): string
    decreases |values|
  {
    if values == [] then ""
    else if |values| == 1 then values[0]
    else Join(values[..|values| - 1], sep) + sep + values[|values| - 1]
  }

  // ---- Properties ----

  /** `TrimStart` drops a whitespace prefix and stops at a non-space character. */
  lemma {:induction false} TrimStartShape(s: string)
    ensures var r := TrimStart(s);
      && r == s[|s| - |r|..]
      && (forall i :: 0 <= i < |s| - |r| ==> IsSpace(s[i]))
      && (r == [] || !IsSpace(r[0]))
    decreases |s|
  {
    if s != [] && IsSpace(s[0]) {
      TrimStartShape(s[1..]);
    }
  }

  /** `TrimEnd` drops a whitespace suffix and stops at a non-space character. */
  lemma {:induction false} TrimEndShape(s: string)
    ensures var r := TrimEnd(s);
      && r == s[..|r|]
      && (forall i :: |r| <= i < |s| ==> IsSpace(s[i]))
      && (r == [] || !IsSpace(r[|r| - 1]))
    decreases |s|
  {
    if s != [] && IsSpace(s[|s| - 1]) {
      TrimEndShape(s[..|s| - 1]);
    }
  }

  /** The filter keeps only words of the input, and only long ones. */
  lemma {:induction false} KeepLongWords(ws: seq<string>)
    ensures forall w :: w in KeepLong(ws) ==> w in ws && |w| >= 2
  {
    if ws != [] {
      KeepLongWords(ws[1..]);
    }
  }

  /** Every slice of a string is contained in it. */
  lemma ContainsSlice(s: string, i: nat, j: nat)
    requires i <= j <= |s|
    ensures Contains(s, s[i..j])
  {
    assert s[i..j] <= s[i..];
  }

  /** Lower-casing both sides preserves containment. */
  lemma ContainsLower(text: string, sub: string)
    requires Contains(text, sub)
    ensures Contains(Lower(text), Lower(sub))
  {
    var k :| 0 <= k <= |text| - |sub| && sub <= text[k..];
    assert Lower(sub) <= Lower(text)[k..];
  }

  /** The trimmed string is a contiguous part of the original, so the original contains it. */
  lemma ContainsTrim(s: string)
    ensures Contains(s, Trim(s))
  {
    var t := TrimStart(s);
    var k := |s| - |t|;
    var r := TrimEnd(t);
    TrimStartShape(s);
    TrimEndShape(t);
    assert t == s[k..];
    assert r == t[..|r|];
    assert s[k..k + |r|] <= s[k..];
    ContainsSlice(s, k, k + |r|);
    assert s[k..k + |r|] == r;
  }

  /** Trimming removes exactly the surrounding whitespace: what is left starts
      and ends with a non-space character, and trimming again changes nothing. */
  lemma TrimIsTrimmed(s: string)
    ensures var r := Trim(s); r == [] || (!IsSpace(r[0]) && !IsSpace(r[|r| - 1]))
    ensures Trim(Trim(s)) == Trim(s)
  {
    var t := TrimStart(s);
    var r := TrimEnd(t);
    TrimStartShape(s);
    TrimEndShape(t);
    if r != [] {
      assert r[0] == t[0];
    }
    assert TrimStart(r) == r;
    assert TrimEnd(r) == r;
  }

  /** Lower-casing does not change which characters are whitespace, so it
      commutes with trimming. */
  lemma {:induction false} LowerTrimStart(s: string)
    ensures Lower(TrimStart(s)) == TrimStart(Lower(s))
    decreases |s|
  {
    if s != [] && IsSpace(s[0]) {
      assert Lower(s)[1..] == Lower(s[1..]);
      LowerTrimStart(s[1..]);
    }
  }

  lemma {:induction false} LowerTrimEnd(s: string)
    ensures Lower(TrimEnd(s)) == TrimEnd(Lower(s))
    decreases |s|
  {
    if s != [] && IsSpace(s[|s| - 1]) {
      assert Lower(s)[..|s| - 1] == Lower(s[..|s| - 1]);
      LowerTrimEnd(s[..|s| - 1]);
    }
  }

  lemma LowerTrim(s: string)
    ensures Lower(Trim(s)) == Trim(Lower(s))
  {
    LowerTrimStart(s);
    LowerTrimEnd(TrimStart(s));
  }

  /** No piece holds a whitespace character. */
  lemma {:induction false} PiecesHaveNoSpace(s: string)
    ensures forall p, c :: p in Pieces(s) && c in p ==> !IsSpace(c)
    decreases |s|
  {
    if s != [] {
      PiecesHaveNoSpace(s[1..]);
    }
  }

  /** Every token is at least two characters long. */
  lemma TokensAreLong(s: string)
    ensures forall w :: w in Tokens(s) ==> |w| >= 2
  {
    KeepLongWords(Pieces(s));
  }

  /** Every token is at least two characters long and holds no whitespace. */
  lemma TokensAreWords(s: string)
    ensures forall w :: w in Tokens(s) ==> |w| >= 2 && forall c :: c in w ==> !IsSpace(c)
  {
    PiecesHaveNoSpace(s);
    KeepLongWords(Pieces(s));
  }

  /** Splitting distributes over a whitespace separator. */
  lemma {:induction false} PiecesSplit(a: string, sp: char, b: string)
    requires IsSpace(sp)
    ensures Pieces(a + [sp] + b) == Pieces(a) + Pieces(b)
    decreases |a|
  {
    if a == [] {
      assert a + [sp] + b == [sp] + b;
      assert ([sp] + b)[1..] == b;
    } else {
      assert (a + [sp] + b)[1..] == a[1..] + [sp] + b;
      PiecesSplit(a[1..], sp, b);
    }
  }

  lemma {:induction false} KeepLongAppend(x: seq<string>, y: seq<string>)
    ensures KeepLong(x + y) == KeepLong(x) + KeepLong(y)
    decreases |x|
  {
    if x != [] {
      assert (x + y)[1..] == x[1..] + y;
      KeepLongAppend(x[1..], y);
    } else {
      assert x + y == y;
    }
  }

  /** The tokens of two texts separated by whitespace are the tokens of the
      first followed by the tokens of the second. */
  lemma TokensSplit(a: string, sp: char, b: string)
    requires IsSpace(sp)
    ensures Tokens(a + [sp] + b) == Tokens(a) + Tokens(b)
  {
    PiecesSplit(a, sp, b);
    KeepLongAppend(Pieces(a), Pieces(b));
  }

  /** A single word of two or more characters is its own only token. */
  lemma {:induction false} PiecesOfWord(w: string)
    requires forall c :: c in w ==> !IsSpace(c)
    ensures Pieces(w) == [w]
    decreases |w|
  {
    if w != [] {
      assert forall c :: c in w[1..] ==> c in w;
      PiecesOfWord(w[1..]);
      assert [w[0]] + w[1..] == w;
    }
  }

  lemma TokensOfWord(w: string)
    requires |w| >= 2 && forall c :: c in w ==> !IsSpace(c)
    ensures Tokens(w) == [w]
  {
    PiecesOfWord(w);
  }

  /** A whitespace-free word shorter than two characters gives no token. */
  lemma ShortWordNoToken(w: string)
    requires |w| < 2 && forall k | 0 <= k < |w| :: !IsSpace(w[k])
    ensures Tokens(w) == []
  {
    PiecesOfWord(w);
  }

  /** Lower-casing twice is lower-casing once. */
  lemma LowerIdempotent(s: string)
    ensures Lower(Lower(s)) == Lower(s)
  {
  }
}
