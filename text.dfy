/**
 * The string operations of the .NET base library that the chat code relies on,
 * written out on `seq<char>`: `IndexOf(char)`, `StartsWith`, `TrimEnd('\0')`,
 * `Replace(pattern, "")`, `Split(c, 2)` and the "text before the first space" idiom.
 */
module Text {
  import opened Wrappers

  /** `s.IndexOf(c)`: the index of the first `c` in `s`, or -1 when there is none. */
  function IndexOf(s: string, c: char): (r: int)
    ensures -1 <= r < |s|
    ensures r == -1 <==> c !in s
    ensures 0 <= r ==> s[r] == c && c !in s[..r]
  {
    if s == [] then -1
    else if s[0] == c then 0
    else
      var k := IndexOf(s[1..], c);
      if k == -1 then -1
      else
        assert s[..k + 1] == [s[0]] + s[1..][..k];
        k + 1
  }

  /** The first `c` of `a + [c] + b` is the one right after `a` when `a` has none. */
  lemma IndexOfFirst(a: string, c: char, b: string)
    requires c !in a
    ensures IndexOf(a + [c] + b, c) == |a|
  {
    var s := a + [c] + b;
    assert s[|a|] == c;
    assert s[..|a|] == a;
  }

  /**
   * `s.StartsWith(prefix)`, compared character by character (the ordinal
   * comparison; .NET's string overload compares culturally, see README).
   */
  predicate StartsWith(s: string, prefix: string) {
    prefix <= s
  }

  /** A string is a prefix of itself followed by anything. */
  lemma PrefixOf(a: string, b: string)
    ensures a <= a + b
  {
    assert (a + b)[..|a|] == a;
  }

  /**
   * The command token: the text before the first space of `s`, or the whole of
   * `s` when it has no space (`s[..s.IndexOf(' ')]` guarded by `!= -1`).
   */
  function FirstWord(s: string): (r: string)
    ensures r <= s && ' ' !in r
    ensures r == s || s[|r|] == ' '
  {
    var i := IndexOf(s, ' ');
    if i == -1 then s else s[..i]
  }

  /** A word without spaces is the token of itself and of itself followed by a space and anything. */
  lemma FirstWordOf(word: string, rest: string)
    requires ' ' !in word
    ensures FirstWord(word) == word
    ensures FirstWord(word + " " + rest) == word
  {
    IndexOfFirst(word, ' ', rest);
    assert word + " " + rest == word + [' '] + rest;
    assert (word + " " + rest)[..|word|] == word;
  }

  /** A space-free word is the first word of `s` exactly when it is all of `s` or `s` continues with a space. */
  lemma FirstWordIs(s: string, w: string)
    requires ' ' !in w
    ensures FirstWord(s) == w <==> w == s || w + " " <= s
  {
    var f := FirstWord(s);
    if f != s {
      assert s[..|f| + 1] == f + " ";
    }
    if w == s {
      FirstWordOf(w, "");
    } else if w + " " <= s {
      assert s == w + " " + s[|w| + 1..];
      FirstWordOf(w, s[|w| + 1..]);
    }
  }

  /** The first word of `s` is among `words` exactly when some space-free word of them begins `s` as a whole word. */
  lemma TokenIn(s: string, words: seq<string>)
    ensures FirstWord(s) in words <==> exists w | w in words :: ' ' !in w && (w == s || w + " " <= s)
  {
    forall w | w in words && ' ' !in w && (w == s || w + " " <= s)
      ensures FirstWord(s) == w
    {
      FirstWordIs(s, w);
    }
    FirstWordIs(s, FirstWord(s));
  }

  /**
   * `s.Split(c, 2)` when it yields two segments: the text before the first `c`
   * and the text after it; None when `s` has no `c` (a one-segment split).
   */
  function SplitFirst(s: string, c: char): (r: Option<(string, string)>)
    ensures r.None? <==> c !in s
    ensures r.Some? ==> s == r.value.0 + [c] + r.value.1 && c !in r.value.0
  {
    var i := IndexOf(s, c);
    if i == -1 then None
    else
      assert s == s[..i] + [c] + s[i + 1..];
      Some((s[..i], s[i + 1..]))
  }

  /** Splitting a string built around its first `c` gives back its two parts. */
  lemma SplitFirstOf(a: string, c: char, b: string)
    requires c !in a
    ensures SplitFirst(a + [c] + b, c) == Some((a, b))
  {
    var s := a + [c] + b;
    IndexOfFirst(a, c, b);
    assert s[..|a|] == a;
    assert s[|a| + 1..] == b;
  }

  /** A string made of `n` NUL characters: the unused tail of a fixed-size receive buffer. */
  function Nuls(n: nat): (r: string)
    ensures |r| == n && forall i | 0 <= i < n :: r[i] == '\0'
  {
    seq(n, _ => '\0')
  }

  /** `s.TrimEnd('\0')`: `s` without its trailing NUL characters. */
  function TrimTrailingNul(s: string): (r: string)
    ensures r <= s
    ensures r == [] || r[|r| - 1] != '\0'
    ensures forall i | |r| <= i < |s| :: s[i] == '\0'
  {
    if s == [] || s[|s| - 1] != '\0' then s
    else TrimTrailingNul(s[..|s| - 1])
  }

  /** Trimming undoes zero padding of any payload that does not itself end in NUL. */
  lemma TrimUndoesPadding(s: string, n: nat)
    requires s == [] || s[|s| - 1] != '\0'
    ensures TrimTrailingNul(s + Nuls(n)) == s
  {
    var t := s + Nuls(n);
    assert s == t[..|s|];
    assert forall i | |s| <= i < |t| :: t[i] == '\0';
  }

  /** `pattern` occurs somewhere in `s`. */
  predicate Occurs(s: string, pattern: string) {
    exists i :: 0 <= i <= |s| && pattern <= s[i..]
  }

  /**
   * `s.Replace(pattern, "")`: one left-to-right scan that drops every
   * non-overlapping occurrence of `pattern`.
   */
  function RemoveAll(s: string, pattern: string): (r: string)
    requires pattern != []
    ensures |r| <= |s|
    ensures multiset(r) <= multiset(s)
    decreases |s|
  {
    if s == [] then []
    else if pattern <= s then
      assert s == s[..|pattern|] + s[|pattern|..];
      RemoveAll(s[|pattern|..], pattern)
    else
      assert s == [s[0]] + s[1..];
      [s[0]] + RemoveAll(s[1..], pattern)
  }

  /** A string in which the pattern does not occur passes through unchanged. */
  lemma {:induction false} RemoveAllAbsent(s: string, pattern: string)
    requires pattern != [] && !Occurs(s, pattern)
    ensures RemoveAll(s, pattern) == s
    decreases |s|
  {
    if s != [] {
      assert s[0..] == s;
      assert !(pattern <= s);
      forall i | 0 <= i <= |s[1..]| ensures !(pattern <= s[1..][i..]) {
        assert s[1..][i..] == s[i + 1..];
      }
      RemoveAllAbsent(s[1..], pattern);
    }
  }

  /**
   * A pattern whose first character does not recur inside it cannot straddle
   * the boundary between a string free of it and a trailing copy of it, so the
   * scan removes exactly that trailing copy.
   */
  lemma {:induction false} RemoveAllTrailing(s: string, pattern: string)
    requires pattern != [] && pattern[0] !in pattern[1..]
    requires !Occurs(s, pattern)
    ensures RemoveAll(s + pattern, pattern) == s
    decreases |s|
  {
    var t := s + pattern;
    if s == [] {
      assert t == pattern;
      assert t[|pattern|..] == [];
    } else {
      assert s[0..] == s;
      if |s| >= |pattern| {
        assert t[..|pattern|] == s[..|pattern|];
      } else {
        assert t[|s|] == pattern[0];
        assert pattern[|s|] in pattern[1..];
      }
      assert !(pattern <= t);
      forall i | 0 <= i <= |s[1..]| ensures !(pattern <= s[1..][i..]) {
        assert s[1..][i..] == s[i + 1..];
      }
      RemoveAllTrailing(s[1..], pattern);
      assert t[1..] == s[1..] + pattern;
    }
  }

  /** Framing `s` with the pattern on both sides and removing the pattern gives back `s`. */
  lemma RemoveAllFramed(s: string, pattern: string)
    requires pattern != [] && pattern[0] !in pattern[1..]
    requires !Occurs(s, pattern)
    ensures RemoveAll(pattern + s + pattern, pattern) == s
  {
    var t := pattern + s + pattern;
    assert pattern <= t;
    assert t[|pattern|..] == s + pattern;
    RemoveAllTrailing(s, pattern);
  }
}
