/** String operations shared by the models: substring search, splitting, joining and
    trimming, with the round-trip laws the parsers and printers rest on. */
module Text {

  // Go's unicode.IsSpace.
  const WHITESPACE: set<char> := {
    '\t', '\n', '\U{0B}', '\U{0C}', '\r', ' ', '\U{85}', '\U{A0}', '\U{1680}',
    '\U{2000}', '\U{2001}', '\U{2002}', '\U{2003}', '\U{2004}', '\U{2005}', '\U{2006}',
    '\U{2007}', '\U{2008}', '\U{2009}', '\U{200A}', '\U{2028}', '\U{2029}', '\U{202F}',
    '\U{205F}', '\U{3000}'
  }

  /** `t` occurs in `s` as a contiguous block. */
  predicate Contains(s: string, t: string) {
    t <= s || (s != [] && Contains(s[1..], t))
  }

  /** No character of `s` is in `chars`. */
  predicate Free(s: string, chars: set<char>) {
    forall i :: 0 <= i < |s| ==> s[i] !in chars
  }

  /** The pieces of `s` between characters of `seps`, empty ones included. */
  function Split(s: string, seps: set<char>): (r: seq<string>)
    ensures |r| >= 1
  {
    if s == [] then [[]]
    else
      var rest := Split(s[1..], seps);
      if s[0] in seps then [[]] + rest else [[s[0]] + rest[0]] + rest[1..]
  }

  function Join(words: seq<string>, delimiter: string): string {
    if |words| == 0 then ""
    else if |words| == 1 then words[0]
    else words[0] + delimiter + Join(words[1..], delimiter)
  }

  function NonEmpty(words: seq<string>): seq<string> {
    if words == [] then []
    else (if words[0] == "" then [] else [words[0]]) + NonEmpty(words[1..])
  }

  /** The maximal runs of non-space characters, as Go's strings.Fields. */
  function Fields(s: string): seq<string> {
    NonEmpty(Split(s, WHITESPACE))
  }

  function TrimLeft(s: string): string {
    if s != [] && s[0] in WHITESPACE then TrimLeft(s[1..]) else s
  }

  function TrimRight(s: string): string {
    if s != [] && s[|s| - 1] in WHITESPACE then TrimRight(s[..|s| - 1]) else s
  }

  function TrimSpace(s: string): string {
    TrimRight(TrimLeft(s))
  }

  function LowerChar(c: char): char {
    if 'A' <= c <= 'Z' then (c as int + 32) as char else c
  }

  function Lower(s: string): (r: string)
    ensures |r| == |s| && forall i :: 0 <= i < |s| ==> r[i] == LowerChar(s[i])
  {
    seq(|s|, i requires 0 <= i < |s| => LowerChar(s[i]))
  }

  lemma {:induction false} ContainsMiddle(p: string, t: string, q: string)
    ensures Contains(p + t + q, t)
  {
    if p == [] {
      assert p + t + q == t + q;
    } else {
      ContainsMiddle(p[1..], t, q);
      assert (p + t + q)[1..] == p[1..] + t + q;
    }
  }

  lemma {:induction false} ContainsWitness(s: string, t: string) returns (p: string, q: string)
    requires Contains(s, t)
    ensures s == p + t + q
  {
    if t <= s {
      p, q := [], s[|t|..];
    } else {
      p, q := ContainsWitness(s[1..], t);
      p := [s[0]] + p;
    }
  }

  lemma {:induction false} ContainsTrans(s: string, t: string, u: string)
    requires Contains(s, t) && Contains(t, u)
    ensures Contains(s, u)
  {
    var p, q := ContainsWitness(s, t);
    var p', q' := ContainsWitness(t, u);
    ContainsMiddle(p + p', u, q' + q);
    assert s == (p + p') + u + (q' + q);
  }

  /** A piece free of separators survives in front of a separator. */
  lemma {:induction false} SplitWord(w: string, c: char, rest: string, seps: set<char>)
    requires Free(w, seps) && c in seps
    ensures Split(w + [c] + rest, seps) == [w] + Split(rest, seps)
  {
    var s := w + [c] + rest;
    if w == [] {
      assert s == [c] + rest && s[1..] == rest;
    } else {
      SplitWord(w[1..], c, rest, seps);
      assert s[1..] == w[1..] + [c] + rest && s[0] == w[0];
      assert [w[0]] + w[1..] == w;
    }
  }

  lemma {:induction false} SplitLast(w: string, seps: set<char>)
    requires Free(w, seps)
    ensures Split(w, seps) == [w]
  {
    if w != [] {
      SplitLast(w[1..], seps);
      assert [w[0]] + w[1..] == w;
    }
  }

  /** Splitting undoes joining. */
  lemma {:induction false} SplitJoin(words: seq<string>, c: char, seps: set<char>)
    requires |words| >= 1 && c in seps
    requires forall i :: 0 <= i < |words| ==> Free(words[i], seps)
    ensures Split(Join(words, [c]), seps) == words
  {
    hide Split, Free;
    if |words| == 1 {
      SplitLast(words[0], seps);
    } else {
      SplitJoin(words[1..], c, seps);
      SplitWord(words[0], c, Join(words[1..], [c]), seps);
    }
  }

  /** Joining undoes splitting at a single separator. */
  lemma {:induction false} JoinSplit(s: string, c: char)
    ensures Join(Split(s, {c}), [c]) == s
  {
    if s != [] {
      JoinSplit(s[1..], c);
      var rest := Split(s[1..], {c});
      if s[0] == c {
        assert ([[]] + rest)[1..] == rest;
      } else {
        var all := [[s[0]] + rest[0]] + rest[1..];
        assert all[1..] == rest[1..];
      }
    }
  }

  lemma JoinCons(w: string, rest: seq<string>, delimiter: string)
    requires rest != []
    ensures Join([w] + rest, delimiter) == w + delimiter + Join(rest, delimiter)
  {
    assert ([w] + rest)[1..] == rest;
  }

  lemma {:induction false} JoinSuffix(words: seq<string>, delimiter: string, k: nat)
    requires k < |words|
    ensures Contains(Join(words, delimiter), Join(words[k..], delimiter))
  {
    if k == 0 {
      assert words[0..] == words;
    } else {
      JoinSuffix(words[1..], delimiter, k - 1);
      assert words[1..][k - 1..] == words[k..];
      var tail := Join(words[1..], delimiter);
      ContainsMiddle(words[0] + delimiter, tail, "");
      assert words[0] + delimiter + tail == (words[0] + delimiter) + tail + "";
      ContainsTrans(Join(words, delimiter), tail, Join(words[k..], delimiter));
    }
  }

  /** The pieces of a split are free of separators and occur in the text. */
  lemma {:induction false} SplitPieces(s: string, seps: set<char>, i: nat)
    requires i < |Split(s, seps)|
    ensures Free(Split(s, seps)[i], seps)
    ensures Contains(s, Split(s, seps)[i])
    ensures i == 0 ==> Split(s, seps)[0] <= s
  {
    if s != [] {
      var rest := Split(s[1..], seps);
      if s[0] in seps {
        if i > 0 { SplitPieces(s[1..], seps, i - 1); }
      } else {
        SplitPieces(s[1..], seps, i);
      }
    }
  }

  lemma {:induction false} NonEmptyAll(words: seq<string>)
    requires forall i :: 0 <= i < |words| ==> words[i] != ""
    ensures NonEmpty(words) == words
  {
    if words != [] {
      NonEmptyAll(words[1..]);
    }
  }

  lemma {:induction false} NonEmptyMembers(words: seq<string>, w: string)
    ensures w in NonEmpty(words) <==> w in words && w != ""
  {
    if words != [] {
      NonEmptyMembers(words[1..], w);
    }
  }

  /** A field of a line is free of white space and occurs in the line. */
  lemma FieldOccurs(s: string, w: string)
    requires w in Fields(s)
    ensures w != "" && Free(w, WHITESPACE) && Contains(s, w)
  {
    var pieces := Split(s, WHITESPACE);
    NonEmptyMembers(pieces, w);
    var i :| 0 <= i < |pieces| && pieces[i] == w;
    SplitPieces(s, WHITESPACE, i);
  }

  /** Words joined by single spaces are read back as the same words. */
  lemma FieldsJoin(words: seq<string>)
    requires |words| >= 1
    requires forall i :: 0 <= i < |words| ==> words[i] != "" && Free(words[i], WHITESPACE)
    ensures Fields(Join(words, " ")) == words
  {
    SplitJoin(words, ' ', WHITESPACE);
    NonEmptyAll(words);
  }

  /** A line with no white space at either end is left alone by trimming. */
  lemma TrimNothing(s: string)
    requires s != [] ==> s[0] !in WHITESPACE && s[|s| - 1] !in WHITESPACE
    ensures TrimSpace(s) == s
  {
  }

  // ---------------------------------------------------------------------------
  // What the operations mean
  // ---------------------------------------------------------------------------

  /** White space by its code points. */
  lemma WhitespaceMeans(c: char)
    ensures c in WHITESPACE <==>
            var n := c as int;
            || 9 <= n <= 13 || n == 32 || n == 0x85 || n == 0xA0 || n == 0x1680 || 0x2000 <= n <= 0x200A
            || n == 0x2028 || n == 0x2029 || n == 0x202F || n == 0x205F || n == 0x3000
  {
  }

  /** `t` is the text of `s` between two of its positions. */
  ghost predicate Occurs(t: string, s: string) {
    exists i, j :: 0 <= i <= j <= |s| && s[i..j] == t
  }

  lemma ContainsOccurs(s: string, t: string)
    ensures Contains(s, t) <==> Occurs(t, s)
  {
    if Contains(s, t) {
      var p, q := ContainsWitness(s, t);
      assert s[|p|..|p| + |t|] == t;
    }
    if Occurs(t, s) {
      var i, j :| 0 <= i <= j <= |s| && s[i..j] == t;
      ContainsMiddle(s[..i], t, s[j..]);
      assert s == s[..i] + t + s[j..];
    }
  }

  /** Folding case turns the n-th capital ASCII letter into the n-th small one and changes
      nothing else. */
  lemma LowerAlphabet()
    ensures forall n: nat :: n < 26 ==> LowerChar(Capital(n)) == Small(n)
    ensures forall c :: LowerChar(c) != c ==> exists n: nat :: n < 26 && c == Capital(n)
  {
    forall c | LowerChar(c) != c ensures exists n: nat :: n < 26 && c == Capital(n) {
      var n: nat := c as int - 'A' as int;
      assert c == Capital(n);
    }
  }

  function Capital(n: nat): char
    requires n < 26
  {
    ('A' as int + n) as char
  }

  function Small(n: nat): char
    requires n < 26
  {
    ('a' as int + n) as char
  }

  ghost predicate AllSpace(s: string) {
    forall i :: 0 <= i < |s| ==> s[i] in WHITESPACE
  }

  lemma {:induction false} TrimLeftMeans(s: string) returns (a: string)
    ensures s == a + TrimLeft(s) && AllSpace(a)
    ensures TrimLeft(s) != "" ==> TrimLeft(s)[0] !in WHITESPACE
  {
    a := [];
    if s != [] && s[0] in WHITESPACE {
      a := TrimLeftMeans(s[1..]);
      a := [s[0]] + a;
    }
  }

  lemma {:induction false} TrimRightMeans(s: string) returns (b: string)
    ensures s == TrimRight(s) + b && AllSpace(b)
    ensures TrimRight(s) != "" ==> TrimRight(s)[|TrimRight(s)| - 1] !in WHITESPACE
  {
    b := [];
    if s != [] && s[|s| - 1] in WHITESPACE {
      b := TrimRightMeans(s[..|s| - 1]);
      b := b + [s[|s| - 1]];
    }
  }

  /** Trimming takes white space off both ends and leaves a text with none at its ends. */
  lemma TrimSpaceMeans(s: string) returns (a: string, b: string)
    ensures s == a + TrimSpace(s) + b && AllSpace(a) && AllSpace(b)
    ensures var t := TrimSpace(s); t != "" ==> t[0] !in WHITESPACE && t[|t| - 1] !in WHITESPACE
  {
    a := TrimLeftMeans(s);
    b := TrimRightMeans(TrimLeft(s));
  }

  /** A text with a separator is split at its first one. */
  lemma {:induction false} SplitFirst(s: string, c: char) returns (p: string, q: string)
    requires c in s
    ensures Free(p, {c}) && s == p + [c] + q && Split(s, {c}) == [p] + Split(q, {c})
  {
    if s[0] == c {
      p, q := [], s[1..];
      assert s == [] + [c] + s[1..];
    } else {
      p, q := SplitFirst(s[1..], c);
      p := [s[0]] + p;
      assert s == p + [c] + q;
      SplitWord(p, c, q, {c});
    }
  }

  /** The decimal digits of a number. */
  function Decimal(n: nat): (d: string)
    ensures d != "" && '0' <= d[0] <= '9'
    ensures n < 10 ==> |d| == 1
  {
    if n < 10 then [('0' as int + n) as char] else Decimal(n / 10) + [('0' as int + n % 10) as char]
  }
}
