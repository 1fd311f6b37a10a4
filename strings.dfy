/** String and sequence helpers shared by the indexer model. */
module Strings {

  datatype Option<T> = None | Some(value: T)

  /** Index of the last occurrence of `c` in `s`, or -1 (Python's `str.rfind`). */
  function LastIndexOf(s: string, c: char): (r: int)
    ensures -1 <= r < |s|
  {
    if s == [] then -1
    else if s[|s| - 1] == c then |s| - 1
    else LastIndexOf(s[..|s| - 1], c)
  }

  /** `LastIndexOf` finds the last occurrence, and -1 exactly when there is none. */
  lemma {:induction false} LastIndexOfSpec(s: string, c: char)
    ensures var r := LastIndexOf(s, c);
      (r == -1 <==> c !in s) && (r >= 0 ==> s[r] == c && c !in s[r + 1..])
    decreases |s|
  {
    if s == [] {
    } else if s[|s| - 1] == c {
      assert s[|s| - 1..] == [c];
    } else {
      var init := s[..|s| - 1];
      var last := s[|s| - 1];
      LastIndexOfSpec(init, c);
      assert s == init + [last];
      assert LastIndexOf(s, c) == LastIndexOf(init, c);
      assert c in s <==> c in init;
      var r := LastIndexOf(init, c);
      if r >= 0 {
        assert s[r + 1..] == init[r + 1..] + [last];
      }
    }
  }

  /** In `p + [c] + rest` with no `c` in `rest`, the last `c` is the one after `p`. */
  lemma {:induction false} LastIndexOfBeforeSuffix(p: string, c: char, rest: string)
    requires c !in rest
    ensures LastIndexOf(p + [c] + rest, c) == |p|
    decreases |rest|
  {
    var s := p + [c] + rest;
    if rest != [] {
      var init := rest[..|rest| - 1];
      assert s[|s| - 1] == rest[|rest| - 1];
      assert s[..|s| - 1] == p + [c] + init;
      LastIndexOfBeforeSuffix(p, c, init);
    }
  }

  /** Index of the first occurrence of `c` in `s`, or -1 (Python's `str.find`). */
  function FirstIndexOf(s: string, c: char): (r: int)
    ensures -1 <= r < |s|
    ensures r == -1 <==> c !in s
    ensures r >= 0 ==> s[r] == c && c !in s[..r]
  {
    if s == [] then -1
    else if s[0] == c then 0
    else
      var r := FirstIndexOf(s[1..], c);
      assert s == [s[0]] + s[1..];
      if r == -1 then -1
      else
        assert s[..r + 1] == [s[0]] + s[1..][..r];
        r + 1
  }

  /** ASCII lower-casing of one character. */
  function LowerChar(c: char): char {
    if 'A' <= c <= 'Z' then (c as int + 32) as char else c
  }

  /** ASCII lower-casing of a string (the allowed extensions are all ASCII). */
  function Lower(s: string): string {
    if s == [] then [] else [LowerChar(s[0])] + Lower(s[1..])
  }

  /** Concatenation of a sequence of strings. */
  function Concat(ss: seq<string>): string {
    if ss == [] then [] else ss[0] + Concat(ss[1..])
  }
}
