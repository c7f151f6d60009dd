/**
 * The category menu shared by the course and blog indexes:
 * `['All', ...Array.from(new Set(items.map(x => x.category)))]`.
 */
module Catalogue {
  import opened Seqs

  /** The menu entry that selects every item. */
  const All := "All"

  /** `'All'` followed by the distinct categories, in order of first occurrence. */
  function CategoryMenu(cats: seq<string>): (r: seq<string>)
    ensures |r| >= 1 && r[0] == All
    ensures forall i :: 0 <= i < |cats| ==> cats[i] in r[1..]
    ensures forall j :: 1 <= j < |r| ==> r[j] in cats
    ensures Distinct(r[1..])
  {
    assert ([All] + Dedup(cats))[1..] == Dedup(cats);
    [All] + Dedup(cats)
  }

  /**
   * The menu of a list of items: `'All'`, then each item's category exactly once, and
   * nothing that is not some item's category.
   */
  function Menu<T>(items: seq<T>, category: T -> string): (r: seq<string>)
    ensures |r| >= 1 && r[0] == All
    ensures forall i :: 0 <= i < |items| ==> category(items[i]) in r[1..]
    ensures forall j :: 1 <= j < |r| ==> exists i :: 0 <= i < |items| && category(items[i]) == r[j]
    ensures Distinct(r[1..])
  {
    var cats := Map(category, items);
    var r := CategoryMenu(cats);
    assert forall j :: 1 <= j < |r| ==> exists i :: 0 <= i < |cats| && cats[i] == r[j];
    r
  }

  /** The menu lists the categories in the order they first appear. */
  lemma CategoryMenuOrder(cats: seq<string>)
    ensures var r := CategoryMenu(cats);
            forall i, j :: 1 <= i < j < |r| ==> FirstIndex(cats, r[i]) < FirstIndex(cats, r[j])
  {
    DedupFirstOccurrenceOrder(cats);
    var r := CategoryMenu(cats);
    forall i, j | 1 <= i < j < |r| ensures FirstIndex(cats, r[i]) < FirstIndex(cats, r[j]) {
      assert r[i] == Dedup(cats)[i - 1] && r[j] == Dedup(cats)[j - 1];
    }
  }
}
