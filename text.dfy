/** Small facts about strings (`seq<char>`) shared by the modules that scan text. */
module Text {
  import opened Wrappers

  /** `pat` occurs in `s` starting at index `i`. */
  predicate At(s: string, i: nat, pat: string)
  {
    i + |pat| <= |s| && s[i..i + |pat|] == pat
  }

  /** Rust's `str::starts_with` for a string pattern. */
  predicate StartsWith(s: string, prefix: string)
  {
    At(s, 0, prefix)
  }

  /** `pat` occurs somewhere in `s`. */
  ghost predicate Contains(s: string, pat: string)
  {
    exists i: nat :: At(s, i, pat)
  }

  /** The first index at or after `from` where `pat` occurs, if any (Rust's `str::find`). */
  function IndexOf(s: string, pat: string, from: nat): (r: Option<nat>)
    requires |pat| > 0
    ensures r.Some? ==> from <= r.value && At(s, r.value, pat)
    ensures r.Some? ==> forall j: nat :: from <= j < r.value ==> !At(s, j, pat)
    ensures r.None? ==> forall j: nat :: from <= j ==> !At(s, j, pat)
    decreases |s| - from
  {
    if from + |pat| > |s| then None
    else if At(s, from, pat) then Some(from)
    else IndexOf(s, pat, from + 1)
  }

  /** An occurrence that fits in the first `n` characters is one of the prefix. */
  lemma AtInPrefix(s: string, n: nat, pat: string)
    requires n <= |s|
    ensures forall j: nat :: j + |pat| <= n ==> (At(s[..n], j, pat) <==> At(s, j, pat))
  {
    forall j: nat | j + |pat| <= n ensures At(s[..n], j, pat) <==> At(s, j, pat) {
      assert s[..n][j..j + |pat|] == s[j..j + |pat|];
    }
  }

  /** The text of `s` before the first occurrence of `pat`, or all of `s` when `pat`
      does not occur: the first piece of Rust's `str::split(pat)`. */
  function PrefixBefore(s: string, pat: string): (r: string)
    requires |pat| > 0
    ensures r <= s
    ensures forall j: nat :: j + |pat| <= |r| ==> !At(r, j, pat)
    ensures forall j: nat :: j < |r| ==> !At(s, j, pat)
    ensures |r| < |s| ==> At(s, |r|, pat)
  {
    match IndexOf(s, pat, 0)
    case Some(i) =>
      AtInPrefix(s, i, pat);
      s[..i]
    case None =>
      s
  }

  /** Every character equal to `from` replaced by `to` (Rust's `str::replace` with one-character patterns). */
  function ReplaceChar(s: string, from: char, to: char): (r: string)
    ensures |r| == |s|
    ensures forall i :: 0 <= i < |s| ==> r[i] == if s[i] == from then to else s[i]
  {
    if s == [] then [] else [if s[0] == from then to else s[0]] + ReplaceChar(s[1..], from, to)
  }

  /** One mismatching character rules out an occurrence. */
  lemma NotAtByChar(s: string, i: nat, pat: string, k: nat)
    requires k < |pat|
    requires i + k < |s| ==> s[i + k] != pat[k]
    ensures !At(s, i, pat)
  {
    if i + |pat| <= |s| {
      assert s[i..i + |pat|][k] == s[i + k];
    }
  }

  /** The first occurrence is the one `IndexOf` finds. */
  lemma FirstOccurrence(s: string, pat: string, i: nat)
    requires |pat| > 0 && At(s, i, pat)
    requires forall j: nat :: j < i ==> !At(s, j, pat)
    ensures IndexOf(s, pat, 0) == Some(i)
  {
  }

  /** Without an occurrence `IndexOf` finds none. */
  lemma NoOccurrence(s: string, pat: string)
    requires |pat| > 0
    requires forall j: nat :: !At(s, j, pat)
    ensures IndexOf(s, pat, 0) == None
  {
  }

  /** Replacing a character works piece by piece. */
  lemma {:induction false} ReplaceCharConcat(a: string, b: string, from: char, to: char)
    ensures ReplaceChar(a + b, from, to) == ReplaceChar(a, from, to) + ReplaceChar(b, from, to)
    decreases |a|
  {
    if a == [] {
      assert a + b == b;
    } else {
      assert (a + b)[0] == a[0];
      assert (a + b)[1..] == a[1..] + b;
      ReplaceCharConcat(a[1..], b, from, to);
    }
  }

  /** A string without the character is left as it is. */
  lemma ReplaceCharAbsent(s: string, from: char, to: char)
    requires from !in s
    ensures ReplaceChar(s, from, to) == s
  {
    var r := ReplaceChar(s, from, to);
    forall i | 0 <= i < |s| ensures r[i] == s[i] {
      assert s[i] in s;
    }
  }
}
