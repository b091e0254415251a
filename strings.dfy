/** String helpers with the meaning of Rust's `str` methods used by the commands:
    `starts_with`, `ends_with`, `contains`, `trim_start_matches` and `trim_end_matches`
    with a string pattern. */
module Strings {

  predicate StartsWith(s: string, p: string)
  {
    |p| <= |s| && s[..|p|] == p
  }

  predicate EndsWith(s: string, p: string)
  {
    |p| <= |s| && s[|s| - |p|..] == p
  }

  /** `sub` occurs in `s` starting at position `i`. */
  predicate OccursAt(s: string, sub: string, i: int)
  {
    0 <= i <= |s| - |sub| && s[i..i + |sub|] == sub
  }

  /** `sub` occurs in `s` at some position (the empty string occurs everywhere). */
  predicate Contains(s: string, sub: string)
  {
    exists i | 0 <= i <= |s| :: OccursAt(s, sub, i)
  }

  /** `k` copies of `p` one after the other. */
  function Repeat(p: string, k: nat): string
  {
    if k == 0 then [] else p + Repeat(p, k - 1)
  }

  /** Rust's `trim_start_matches`: removes `p` from the front as long as it matches;
      an empty pattern leaves the string as it is. */
  function TrimStartMatches(s: string, p: string): (r: string)
    ensures |r| <= |s| && r == s[|s| - |r|..]
    ensures |p| > 0 ==> !StartsWith(r, p)
    decreases |s|
  {
    if |p| > 0 && StartsWith(s, p) then TrimStartMatches(s[|p|..], p) else s
  }

  /** Rust's `trim_end_matches`: removes `p` from the back as long as it matches. */
  function TrimEndMatches(s: string, p: string): (r: string)
    ensures |r| <= |s| && r == s[..|r|]
    ensures |p| > 0 ==> !EndsWith(r, p)
    decreases |s|
  {
    if |p| > 0 && EndsWith(s, p) then TrimEndMatches(s[..|s| - |p|], p) else s
  }

  /** The chain `s.trim_start_matches(prefix).trim_end_matches(suffix)`. */
  function TrimMatches(s: string, prefix: string, suffix: string): (r: string)
    ensures |prefix| > 0 ==> !StartsWith(r, prefix)
    ensures |suffix| > 0 ==> !EndsWith(r, suffix)
  {
    var t := TrimStartMatches(s, prefix);
    var r := TrimEndMatches(t, suffix);
    assert StartsWith(r, prefix) ==> StartsWith(t, prefix) by {
      if StartsWith(r, prefix) { assert t[..|prefix|] == r[..|prefix|]; }
    }
    r
  }

  /** What `trim_start_matches` removed is a whole number of copies of the pattern. */
  lemma {:induction false} TrimStartMatchesStrips(s: string, p: string) returns (k: nat)
    ensures s == Repeat(p, k) + TrimStartMatches(s, p)
    decreases |s|
  {
    if |p| > 0 && StartsWith(s, p) {
      var rest := s[|p|..];
      var k' := TrimStartMatchesStrips(rest, p);
      k := k' + 1;
      SplitAfterPrefix(s, p);
      AppendAssoc(p, Repeat(p, k'), TrimStartMatches(rest, p));
    } else {
      k := 0;
    }
  }

  lemma SplitAfterPrefix(s: string, p: string)
    requires StartsWith(s, p)
    ensures s == p + s[|p|..]
  {
    assert s[..|p|] == p;
  }

  lemma SplitBeforeSuffix(s: string, p: string)
    requires EndsWith(s, p)
    ensures s == s[..|s| - |p|] + p
  {
    assert s[|s| - |p|..] == p;
  }

  lemma AppendAssoc(a: string, b: string, c: string)
    ensures a + (b + c) == (a + b) + c
  {
  }

  /** One step of `trim_start_matches` on a string that starts with the pattern. */
  lemma TrimStartMatchesStep(p: string, rest: string)
    requires |p| > 0
    ensures TrimStartMatches(p + rest, p) == TrimStartMatches(rest, p)
  {
    var s := p + rest;
    assert s[..|p|] == p && s[|p|..] == rest;
  }

  /** Conversely, stripping copies of `p` from the front down to a remainder that does
      not start with `p` is exactly what `trim_start_matches` returns. */
  lemma {:induction false} TrimStartMatchesOf(p: string, k: nat, x: string)
    requires |p| > 0 && !StartsWith(x, p)
    ensures TrimStartMatches(Repeat(p, k) + x, p) == x
  {
    if k > 0 {
      TrimStartMatchesOf(p, k - 1, x);
      TrimStartMatchesOfSucc(p, k - 1, x);
    } else {
      assert Repeat(p, k) + x == x;
    }
  }

  lemma TrimStartMatchesOfSucc(p: string, k: nat, x: string)
    requires |p| > 0 && TrimStartMatches(Repeat(p, k) + x, p) == x
    ensures TrimStartMatches(Repeat(p, k + 1) + x, p) == x
  {
    TrimStartMatchesStep(p, Repeat(p, k) + x);
    AppendAssoc(p, Repeat(p, k), x);
  }

  lemma {:induction false} RepeatSnoc(p: string, k: nat)
    ensures Repeat(p, k + 1) == Repeat(p, k) + p
  {
    if k > 0 {
      RepeatSnoc(p, k - 1);
    }
  }

  lemma AppendRepeatSnoc(x: string, p: string, k: nat)
    ensures x + Repeat(p, k + 1) == (x + Repeat(p, k)) + p
  {
    RepeatSnoc(p, k);
    AppendAssoc(x, Repeat(p, k), p);
  }

  /** What `trim_end_matches` removed is a whole number of copies of the pattern. */
  lemma {:induction false} TrimEndMatchesStrips(s: string, p: string) returns (k: nat)
    ensures s == TrimEndMatches(s, p) + Repeat(p, k)
    decreases |s|
  {
    if |p| > 0 && EndsWith(s, p) {
      var init := s[..|s| - |p|];
      var k' := TrimEndMatchesStrips(init, p);
      k := k' + 1;
      RepeatSnoc(p, k');
      SplitBeforeSuffix(s, p);
      AppendAssoc(TrimEndMatches(init, p), Repeat(p, k'), p);
    } else {
      k := 0;
    }
  }

  /** One step of `trim_end_matches` on a string that ends with the pattern. */
  lemma TrimEndMatchesStep(rest: string, p: string)
    requires |p| > 0
    ensures TrimEndMatches(rest + p, p) == TrimEndMatches(rest, p)
  {
    var s := rest + p;
    assert s[|s| - |p|..] == p && s[..|s| - |p|] == rest;
  }

  /** Conversely, removing copies of `p` from the back down to a remainder that does not
      end with `p` is exactly what `trim_end_matches` returns. */
  lemma {:induction false} TrimEndMatchesOf(x: string, p: string, k: nat)
    requires |p| > 0 && !EndsWith(x, p)
    ensures TrimEndMatches(x + Repeat(p, k), p) == x
  {
    if k > 0 {
      TrimEndMatchesOf(x, p, k - 1);
      TrimEndMatchesOfSucc(x, p, k - 1);
    } else {
      assert x + Repeat(p, k) == x;
    }
  }

  lemma TrimEndMatchesOfSucc(x: string, p: string, k: nat)
    requires |p| > 0 && TrimEndMatches(x + Repeat(p, k), p) == x
    ensures TrimEndMatches(x + Repeat(p, k + 1), p) == x
  {
    TrimEndMatchesStep(x + Repeat(p, k), p);
    AppendRepeatSnoc(x, p, k);
  }

  /** Wrapping `x` in one prefix and one suffix and trimming them again gives back `x`,
      provided neither trim can eat into `x`. */
  lemma TrimMatchesOfWrapped(prefix: string, x: string, suffix: string)
    requires |prefix| > 0 && |suffix| > 0
    requires !StartsWith(x + suffix, prefix) && !EndsWith(x, suffix)
    ensures TrimMatches(prefix + x + suffix, prefix, suffix) == x
  {
    assert Repeat(prefix, 1) == prefix;
    assert prefix + x + suffix == Repeat(prefix, 1) + (x + suffix);
    TrimStartMatchesOf(prefix, 1, x + suffix);
    assert Repeat(suffix, 1) == suffix;
    TrimEndMatchesOf(x, suffix, 1);
  }
}
