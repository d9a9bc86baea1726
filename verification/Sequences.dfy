// Putting an element into a sequence and taking one out.
module Sequences {
  ghost function With<T>(t: seq<T>, k: int, x: T): seq<T> {
    if 0 <= k <= |t| then t[..k] + [x] + t[k..] else t
  }

  ghost function Without<T>(t: seq<T>, k: int): seq<T> {
    if 0 <= k < |t| then t[..k] + t[k + 1..] else t
  }

  lemma SplitAt<T>(t: seq<T>, a: int, p: int, b: int)
    requires 0 <= a <= p < b <= |t|
    ensures t[a..b] == t[a..p] + [t[p]] + t[p + 1..b]
  {
  }
}
