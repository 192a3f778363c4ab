/** Small facts about slices of sequences that agree on a part, used to
    carry "nothing else changed" through the array algorithms. */
module Slices {

  lemma SplitInTwo<T>(s: seq<T>, m: int)
    requires 0 <= m <= |s|
    ensures s == s[..m] + s[m..]
  {
  }

  lemma SplitInTwoAt<T>(s: seq<T>, lo: int, m: int, hi: int)
    requires 0 <= lo <= m <= hi <= |s|
    ensures s[lo..hi] == s[lo..m] + s[m..hi]
  {
  }

  /** Sequences that agree below `n` agree on every slice below `n`. */
  lemma AgreeBelow<T>(s: seq<T>, t: seq<T>, n: int, lo: int, hi: int)
    requires 0 <= lo <= hi <= n <= |s| && n <= |t|
    requires s[..n] == t[..n]
    ensures s[lo..hi] == t[lo..hi]
  {
    assert s[lo..hi] == s[..n][lo..hi] && t[lo..hi] == t[..n][lo..hi];
  }

  /** Sequences that agree from `n` on agree on every suffix starting at or after `n`. */
  lemma AgreeAbove<T>(s: seq<T>, t: seq<T>, n: int, lo: int)
    requires 0 <= n <= lo <= |s| == |t|
    requires s[n..] == t[n..]
    ensures s[lo..] == t[lo..]
  {
    assert s[lo..] == s[n..][lo - n..] && t[lo..] == t[n..][lo - n..];
  }

  /** The three parts of a concatenation. */
  lemma Parts<T>(s: seq<T>, p: seq<T>, x: seq<T>, q: seq<T>)
    requires s == p + x + q
    ensures s[..|p|] == p && s[|p|..|p| + |x|] == x && s[|p| + |x|..] == q
  {
  }
}
