/** Character spans and the trailing-empty rule shared by the two uses of
    Java's `String.split` in the trie: on ':' for read names and on runs of
    letters and '^' for the MD tag. */
module JavaSplit {

  /** Length of the longest prefix of `s` whose characters are all in the class. */
  function Span(s: string, inClass: char -> bool): (n: nat)
    ensures n <= |s|
    ensures forall i :: 0 <= i < n ==> inClass(s[i])
    ensures n < |s| ==> !inClass(s[n])
  {
    if s == [] || !inClass(s[0]) then 0 else 1 + Span(s[1..], inClass)
  }

  /** The two ensures of Span determine it. */
  lemma {:induction false} SpanIs(s: string, inClass: char -> bool, n: nat)
    requires n <= |s|
    requires forall i :: 0 <= i < n ==> inClass(s[i])
    requires n < |s| ==> !inClass(s[n])
    ensures Span(s, inClass) == n
  {
    if n > 0 {
      SpanIs(s[1..], inClass, n - 1);
    }
  }

  /** `String.split` with its default limit removes the empty strings at the end
      of the list of fields. */
  function DropTrailingEmpty(xs: seq<string>): (r: seq<string>)
    ensures r <= xs
    ensures r == [] || r[|r| - 1] != ""
    ensures forall j :: |r| <= j < |xs| ==> xs[j] == ""
  {
    if xs == [] || xs[|xs| - 1] != "" then xs else DropTrailingEmpty(xs[..|xs| - 1])
  }

  /** A list that already ends in a non-empty field is left as it is. */
  lemma DropTrailingEmptyKeeps(xs: seq<string>)
    requires xs != [] && xs[|xs| - 1] != ""
    ensures DropTrailingEmpty(xs) == xs
  {
  }
}
