/** Strings that a NUL ends in memory: the text itself holds none, and reading at its end gives one. */
module CStrings {

  ghost predicate IsText(s: string) {
    forall k :: 0 <= k < |s| ==> s[k] != '\0'
  }

  function At(s: string, i: nat): char {
    if i < |s| then s[i] else '\0'
  }
}
