/** Two facts about finite sets of integers. */
module SetFacts {
  lemma Inhabited(ids: set<int>)
    requires ids != {}
    ensures exists id :: id in ids
  {
    if forall id :: id !in ids {
    }
  }

  lemma {:induction false} SubsetSize(small: set<int>, large: set<int>)
    requires small <= large
    ensures |small| <= |large|
  {
    if small != {} {
      Inhabited(small);
      var id :| id in small;
      SubsetSize(small - {id}, large - {id});
    }
  }
}
