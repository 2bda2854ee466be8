/** The tag index: the id each tag ref holds, to the tag's name. */
module TagIndex {
  import opened CommitGraph

  /** A tag: its name and the id its ref holds. For an annotated tag that is
      the id of the tag object, not of a commit: no commit has it as a parent,
      so the search never meets it and it never becomes a candidate. */
  datatype Tag = Tag(name: string, id: CommitId)

  /** Builds the index by writing every tag into the map in turn, so a later
      tag on the same id overwrites an earlier one. The order of `tags` is
      the repository's map iteration order, which is unspecified, so the
      contract does not say which of several names survives. */
  function CollectTags(tags: seq<Tag>): (index: map<CommitId, string>)
    ensures forall c :: c in index <==> exists i :: 0 <= i < |tags| && tags[i].id == c
    ensures forall c :: c in index ==> exists i :: 0 <= i < |tags| && tags[i] == Tag(index[c], c)
  {
    if |tags| == 0 then
      map[]
    else
      var last := tags[|tags| - 1];
      var index := CollectTags(tags[..|tags| - 1]);
      assert forall i :: 0 <= i < |tags| - 1 ==> tags[..|tags| - 1][i] == tags[i];
      index[last.id := last.name]
  }
}
