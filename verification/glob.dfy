/** Key-pattern matching as Redis `KEYS pattern` does it (glob style), used
    by cache invalidation. `*` matches any run of characters, `?` any one
    character, and a backslash makes the next character literal; every other
    character matches itself. Bracket classes (`[abc]`) are not modelled. */
module Glob {

  predicate IsPrefix(p: string, s: string) {
    |p| <= |s| && s[..|p|] == p
  }

  function Matches(pattern: string, key: string): (b: bool)
    ensures (forall i :: 0 <= i < |pattern| ==> !IsMeta(pattern[i])) ==> (b <==> key == pattern)
    decreases |pattern| + |key|
  {
    if |pattern| == 0 then |key| == 0
    else if pattern[0] == '*' then
      Matches(pattern[1..], key) || (|key| > 0 && Matches(pattern, key[1..]))
    else if pattern[0] == '?' then
      |key| > 0 && Matches(pattern[1..], key[1..])
    else if pattern[0] == '\\' && |pattern| >= 2 then
      |key| > 0 && key[0] == pattern[1] && Matches(pattern[2..], key[1..])
    else
      |key| > 0 && key[0] == pattern[0] && Matches(pattern[1..], key[1..])
  }

  /** Characters with a meaning in a Redis glob pattern. */
  predicate IsMeta(c: char) {
    c == '*' || c == '?' || c == '[' || c == ']' || c == '\\'
  }

  /** Backslash-escapes every meta character, so that the result matches
      exactly the string itself. */
  function Escape(s: string): (r: string)
    ensures |r| >= |s|
    ensures (forall i :: 0 <= i < |s| ==> !IsMeta(s[i])) ==> r == s
  {
    if |s| == 0 then []
    else (if IsMeta(s[0]) then ['\\', s[0]] else [s[0]]) + Escape(s[1..])
  }

  lemma {:induction false} StarMatchesEverything(key: string)
    ensures Matches("*", key)
  {
    if |key| > 0 {
      StarMatchesEverything(key[1..]);
    }
  }

  /** An escaped literal followed by `*` matches exactly the keys that start
      with that literal. */
  lemma {:induction false} EscapedPrefixMatches(s: string, key: string)
    ensures Matches(Escape(s) + "*", key) <==> IsPrefix(s, key)
  {
    if |s| == 0 {
      assert Escape(s) + "*" == "*";
      StarMatchesEverything(key);
    } else {
      var rest := Escape(s[1..]) + "*";
      var p := Escape(s) + "*";
      if IsMeta(s[0]) {
        assert p == ['\\', s[0]] + rest;
        assert p[2..] == rest;
      } else {
        assert p == [s[0]] + rest;
        assert p[1..] == rest;
      }
      if |key| > 0 {
        EscapedPrefixMatches(s[1..], key[1..]);
        assert IsPrefix(s, key) <==> key[0] == s[0] && IsPrefix(s[1..], key[1..]);
      }
    }
  }

  /** A pattern that starts with a meta-free literal consumes that literal
      from the key character for character. */
  lemma {:induction false} LiteralPrefixMatches(s: string, p: string, key: string)
    requires forall i :: 0 <= i < |s| ==> !IsMeta(s[i])
    ensures Matches(s + p, s + key) == Matches(p, key)
  {
    if |s| > 0 {
      assert (s + p)[0] == s[0] && (s + key)[0] == s[0];
      assert (s + p)[1..] == s[1..] + p;
      assert (s + key)[1..] == s[1..] + key;
      LiteralPrefixMatches(s[1..], p, key);
    } else {
      assert s + p == p && s + key == key;
    }
  }

  /** `EscapedPrefixMatches` for every key at once. */
  lemma EscapedPrefixMatchesAll(s: string)
    ensures forall key :: Matches(Escape(s) + "*", key) <==> IsPrefix(s, key)
  {
    forall key
      ensures Matches(Escape(s) + "*", key) <==> IsPrefix(s, key)
    {
      EscapedPrefixMatches(s, key);
    }
  }
}
