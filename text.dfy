/** Substring search, as Python's `in` on two strings. */
module Text {
  predicate OccursAt(s: string, part: string, k: nat) {
    k + |part| <= |s| && s[k..k + |part|] == part
  }

  predicate Contains(s: string, part: string) {
    exists k: nat :: k <= |s| && OccursAt(s, part, k)
  }
}
