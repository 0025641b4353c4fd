/** What the core sees of the regex crate's matcher. Matching itself is not
    modelled: the result of `captures_iter` over a text is an input, one
    `Captures` per match, each the list of capture slots in index order with
    slot 0 the whole match and `None` for a group that did not take part. */
module RegexCrate {
  import opened RustStd

  type Captures = seq<Option<Range>>

  /** `captures.iter().skip(1)`: the slots of the real capture groups. */
  function GroupsOf(captures: Captures): (groups: seq<Option<Range>>)
    ensures captures == [] ==> groups == []
    ensures captures != [] ==> |groups| == |captures| - 1
  {
    if captures == [] then [] else captures[1..]
  }

  /** Group `j` of the real capture groups is capture slot `j + 1`. */
  lemma GroupsOfSkip(captures: Captures)
    ensures forall j :: 0 <= j < |GroupsOf(captures)| ==> GroupsOf(captures)[j] == captures[j + 1]
  {
  }
}
