/** The few JavaScript string built-ins the bridge relies on, over `seq<char>`. */
module JsString {

  /** `p` occurs in `s` starting at index `k`. */
  predicate OccursAt(s: string, p: string, k: nat)
  {
    k + |p| <= |s| && s[k..k + |p|] == p
  }

  /** `p` occurs somewhere in `s`. */
  ghost predicate Contains(s: string, p: string)
  {
    exists k: nat :: OccursAt(s, p, k)
  }

  /** `k` is the index of the leftmost occurrence of `p` in `s`. */
  ghost predicate FirstOccurrence(s: string, p: string, k: nat)
  {
    OccursAt(s, p, k) && forall j: nat :: j < k ==> !OccursAt(s, p, j)
  }

  /** `s.endsWith(suffix)`: `s` is some string followed by `suffix`. */
  predicate EndsWith(s: string, suffix: string): (b: bool)
    ensures b <==> exists pre: string :: s == pre + suffix
  {
    SuffixSplit(s, suffix);
    |suffix| <= |s| && s[|s| - |suffix|..] == suffix
  }

  /** The last `|suffix|` characters are `suffix` exactly when `s` splits as `pre + suffix`. */
  lemma SuffixSplit(s: string, suffix: string)
    ensures (|suffix| <= |s| && s[|s| - |suffix|..] == suffix) <==> exists pre: string :: s == pre + suffix
  {
    if |suffix| <= |s| && s[|s| - |suffix|..] == suffix {
      assert s == s[..|s| - |suffix|] + suffix;
    }
    forall pre: string | s == pre + suffix ensures |suffix| <= |s| && s[|s| - |suffix|..] == suffix {
      assert s[|pre|..] == suffix;
    }
  }

  /** `s.indexOf(p, from)` for `from <= |s|`: the leftmost occurrence at or after `from`, or -1. */
  function IndexOf(s: string, p: string, from: nat): (r: int)
    requires from <= |s|
    decreases |s| + 1 - from
    ensures r == -1 || (from <= r && OccursAt(s, p, r))
    ensures r == -1 ==> forall k: nat :: from <= k ==> !OccursAt(s, p, k)
    ensures r != -1 ==> forall k: nat :: from <= k < r ==> !OccursAt(s, p, k)
  {
    if from + |p| > |s| then -1
    else if s[from..from + |p|] == p then from
    else IndexOf(s, p, from + 1)
  }

  /** `s.replace(p, rep)` with a string pattern: only the leftmost occurrence is replaced. */
  function Replace(s: string, p: string, rep: string): (r: string)
    ensures !Contains(s, p) ==> r == s
    ensures forall k: nat :: FirstOccurrence(s, p, k) ==> r == s[..k] + rep + s[k + |p|..]
  {
    var k := IndexOf(s, p, 0);
    if k == -1 then s else s[..k] + rep + s[k + |p|..]
  }

  /** `ReplaceBeforePattern` at one given leftmost occurrence. */
  lemma ReplaceBeforeOccurrence(s: string, p: string, ins: string, k: nat)
    requires FirstOccurrence(s, p, k)
    ensures Replace(s, p, ins + p) == s[..k] + ins + s[k..]
  {
    var pre, post := s[..k], s[k + |p|..];
    assert Replace(s, p, ins + p) == pre + (ins + p) + post;
    assert s[k..] == p + post;
    SpliceAssociates(pre, ins, p, post);
  }

  lemma SpliceAssociates(pre: string, ins: string, p: string, post: string)
    ensures pre + (ins + p) + post == pre + ins + (p + post)
  {
  }

  /** Replacing the leftmost `p` by `ins + p` inserts `ins` just before that occurrence. */
  lemma ReplaceBeforePattern(s: string, p: string, ins: string)
    ensures forall k: nat :: FirstOccurrence(s, p, k) ==> Replace(s, p, ins + p) == s[..k] + ins + s[k..]
  {
    forall k: nat | FirstOccurrence(s, p, k) ensures Replace(s, p, ins + p) == s[..k] + ins + s[k..] {
      ReplaceBeforeOccurrence(s, p, ins, k);
    }
  }
}
