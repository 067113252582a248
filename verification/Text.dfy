/** Whitespace as Python's `str.strip()` and `str.split()` see it. */
module Text {

  predicate IsSpace(c: char) {
    || c in {' ', '\t', '\n', '\r', '\U{0B}', '\U{0C}', '\U{1C}', '\U{1D}', '\U{1E}', '\U{1F}'}
    || c in {'\U{85}', '\U{A0}', '\U{1680}', '\U{2028}', '\U{2029}', '\U{202F}', '\U{205F}', '\U{3000}'}
    || '\U{2000}' <= c <= '\U{200A}'
  }

  predicate Trimmed(s: string) {
    s != "" ==> !IsSpace(s[0]) && !IsSpace(s[|s| - 1])
  }

  function StripLeft(s: string): string {
    if s != "" && IsSpace(s[0]) then StripLeft(s[1..]) else s
  }

  function StripRight(s: string): string {
    if s != "" && IsSpace(s[|s| - 1]) then StripRight(s[..|s| - 1]) else s
  }

  function Strip(s: string): string {
    StripRight(StripLeft(s))
  }

  predicate Blank(s: string) {
    forall c :: c in s ==> IsSpace(c)
  }

  /** Stripping keeps one stretch of the text, and drops nothing but the whitespace at its ends. */
  lemma StripIsAStretch(s: string)
    ensures Trimmed(Strip(s))
    ensures exists a, b :: 0 <= a <= b <= |s| && Strip(s) == s[a..b] && Blank(s[..a]) && Blank(s[b..])
    ensures Trimmed(s) ==> Strip(s) == s
  {
    var a := LeftStretch(s);
    var b := RightStretch(StripLeft(s));
    assert Strip(s) == s[a..][..b] == s[a..a + b];
    assert s[a..][b..] == s[a + b..];
  }

  lemma {:induction false} LeftStretch(s: string) returns (a: nat)
    ensures a <= |s| && StripLeft(s) == s[a..] && Blank(s[..a])
    ensures StripLeft(s) != "" ==> !IsSpace(StripLeft(s)[0])
  {
    if s != "" && IsSpace(s[0]) {
      var k := LeftStretch(s[1..]);
      assert s[1..][k..] == s[k + 1..] && s[..k + 1] == [s[0]] + s[1..][..k];
      a := k + 1;
    } else {
      a := 0;
    }
  }

  lemma {:induction false} RightStretch(s: string) returns (b: nat)
    ensures b <= |s| && StripRight(s) == s[..b] && Blank(s[b..])
    ensures StripRight(s) != "" ==> !IsSpace(StripRight(s)[b - 1])
  {
    if s != "" && IsSpace(s[|s| - 1]) {
      b := RightStretch(s[..|s| - 1]);
      assert s[..|s| - 1][..b] == s[..b] && s[b..] == s[..|s| - 1][b..] + [s[|s| - 1]];
    } else {
      b := |s|;
    }
  }

  // ---------------------------------------------------------------- split()

  function WordEnd(s: string): (n: nat)
    ensures n <= |s| && (s != "" && !IsSpace(s[0]) ==> n >= 1)
    ensures forall i :: 0 <= i < n ==> !IsSpace(s[i])
    ensures n < |s| ==> IsSpace(s[n])
  {
    if s == "" || IsSpace(s[0]) then 0 else 1 + WordEnd(s[1..])
  }

  /** `str.split()`: the maximal runs of non-space characters. */
  function Split(s: string): seq<string>
    decreases |s|
  {
    if s == "" then []
    else if IsSpace(s[0]) then Split(s[1..])
    else [s[..WordEnd(s)]] + Split(s[WordEnd(s)..])
  }

  function Solid(s: string): string {
    if s == "" then "" else (if IsSpace(s[0]) then "" else [s[0]]) + Solid(s[1..])
  }

  function Flat(words: seq<string>): string {
    if words == [] then "" else words[0] + Flat(words[1..])
  }

  /** The words are non-empty and hold no whitespace, and end to end they are the text without its whitespace. */
  lemma {:induction false} SplitLosesOnlySpace(s: string)
    ensures forall w :: w in Split(s) ==> w != "" && Solid(w) == w
    ensures Flat(Split(s)) == Solid(s)
    decreases |s|
  {
    if s != "" {
      if IsSpace(s[0]) {
        SplitLosesOnlySpace(s[1..]);
      } else {
        var n := WordEnd(s);
        SplitLosesOnlySpace(s[n..]);
        SolidPrefix(s, n);
      }
    }
  }

  lemma {:induction false} SolidPrefix(s: string, n: nat)
    requires n <= |s| && forall i :: 0 <= i < n ==> !IsSpace(s[i])
    ensures Solid(s) == s[..n] + Solid(s[n..]) && Solid(s[..n]) == s[..n]
  {
    if n > 0 {
      SolidPrefix(s[1..], n - 1);
      assert s[1..][n - 1..] == s[n..] && s[..n][1..] == s[1..][..n - 1] && s[..n] == [s[0]] + s[1..][..n - 1];
    }
  }

  /** Cutting before a whitespace character cuts no word. */
  lemma {:induction false} SplitBeforeSpace(a: string, b: string)
    requires b != "" ==> IsSpace(b[0])
    ensures Split(a + b) == Split(a) + Split(b)
    decreases |a|
  {
    if a == "" {
      assert a + b == b;
    } else if IsSpace(a[0]) {
      assert (a + b)[1..] == a[1..] + b;
      SplitBeforeSpace(a[1..], b);
    } else {
      var n := WordEnd(a);
      WordEndsAt(a + b, n);
      SplitBeforeSpace(a[n..], b);
      FirstWord(a, b);
    }
  }

  lemma FirstWord(a: string, b: string)
    requires a != "" && !IsSpace(a[0]) && WordEnd(a + b) == WordEnd(a)
    ensures Split(a + b) == [a[..WordEnd(a)]] + Split(a[WordEnd(a)..] + b)
  {
    var n := WordEnd(a);
    assert (a + b)[..n] == a[..n] && (a + b)[n..] == a[n..] + b && (a + b)[0] == a[0];
  }

  lemma {:induction false} WordEndsAt(s: string, n: nat)
    requires n <= |s| && (forall i :: 0 <= i < n ==> !IsSpace(s[i])) && (n < |s| ==> IsSpace(s[n]))
    ensures WordEnd(s) == n
  {
    if n > 0 {
      WordEndsAt(s[1..], n - 1);
    }
  }

  // ---------------------------------------------------------------- split(c) and c.join()

  /** `str.split(c)`: never empty. */
  function SplitOn(s: string, c: char): (parts: seq<string>)
    ensures |parts| >= 1
  {
    if s == "" then [""]
    else
      var rest := SplitOn(s[1..], c);
      if s[0] == c then [""] + rest else [[s[0]] + rest[0]] + rest[1..]
  }

  function JoinWith(parts: seq<string>, c: char): string {
    if parts == [] then ""
    else if |parts| == 1 then parts[0]
    else parts[0] + [c] + JoinWith(parts[1..], c)
  }

  lemma {:induction false} SplitOnPrefix(x: string, rest: string, c: char)
    requires c !in x
    ensures SplitOn(x + [c] + rest, c) == [x] + SplitOn(rest, c)
    ensures SplitOn(x, c) == [x]
  {
    if x == "" {
      assert (x + [c] + rest)[1..] == rest;
    } else {
      SplitOnPrefix(x[1..], rest, c);
      assert (x + [c] + rest)[1..] == x[1..] + [c] + rest;
      assert [x[0]] + x[1..] == x;
    }
  }

  /** Splitting at the separator undoes joining with it, for parts that do not hold it. */
  lemma {:induction false} SplitOnUndoesJoin(parts: seq<string>, c: char)
    requires parts != [] && forall x :: x in parts ==> c !in x
    ensures SplitOn(JoinWith(parts, c), c) == parts
  {
    assert parts[0] in parts;
    if |parts| == 1 {
      SplitOnPrefix(parts[0], "", c);
    } else {
      SplitOnUndoesJoin(parts[1..], c);
      SplitOnPrefix(parts[0], JoinWith(parts[1..], c), c);
    }
  }

  lemma {:induction false} JoinMore(front: seq<string>, last: string, c: char)
    requires front != []
    ensures JoinWith(front + [last], c) == JoinWith(front, c) + [c] + last
  {
    assert (front + [last])[1..] == front[1..] + [last];
    if |front| > 1 {
      JoinMore(front[1..], last, c);
    }
  }

  // ---------------------------------------------------------------- substrings

  predicate Contains(text: string, word: string) {
    exists i :: 0 <= i <= |text| - |word| && OccursAt(text, word, i)
  }

  predicate OccursAt(text: string, word: string, i: nat)
    requires i <= |text| - |word|
  {
    text[i..i + |word|] == word
  }
}
