/** The groups view: the distinct `group` values of the stored contacts,
    without `null` and without the empty string. */
module Groups {

  import opened Wrappers

  /** `SELECT DISTINCT group` over the column in table order, keeping
      each value's first occurrence, then dropping the falsy ones. */
  function DistinctGroups(column: seq<Option<string>>): seq<string>
  {
    if column == [] then []
    else
      var earlier := DistinctGroups(column[..|column| - 1]);
      var g := column[|column| - 1];
      if g.Some? && g.value != [] && g.value !in earlier then earlier + [g.value] else earlier
  }

  predicate NoDuplicates(s: seq<string>) {
    forall i, j :: 0 <= i < j < |s| ==> s[i] != s[j]
  }

  /** Each non-empty group of the column is listed once, and nothing else is. */
  lemma {:induction false} DistinctGroupsCorrect(column: seq<Option<string>>)
    ensures NoDuplicates(DistinctGroups(column))
    ensures forall g :: g in DistinctGroups(column) <==> g != [] && Some(g) in column
  {
    if column != [] {
      var init := column[..|column| - 1];
      DistinctGroupsCorrect(init);
      assert column == init + [column[|column| - 1]];
    }
  }
}
