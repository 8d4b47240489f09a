/** NUL-terminated buffers. */
module CStrings {
  /** A C string: one NUL, at the end. */
  ghost predicate IsCString(a: seq<char>)
  {
    |a| > 0 && a[|a|-1] == '\0' && forall i :: 0 <= i < |a| - 1 ==> a[i] != '\0'
  }

  function Text(a: seq<char>): string
    requires |a| > 0
  {
    a[..|a|-1]
  }

  predicate NoNul(s: string) {
    '\0' !in s
  }
}
