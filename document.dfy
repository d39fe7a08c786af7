/** The result document: an ordered list of page records, and the page-major layout the
    assemblers produce. */
module Document {

  import opened Raster

  /** One page of a result document: the index of the page it was made from, the column it
      shows, its size in points, and the bitmap embedded in it. */
  datatype Page = Page(sourcePage: nat, column: nat, width: int, height: int, bitmap: Bitmap)

  /** The pages of every source page, source page after source page. */
  function Flatten(groups: seq<seq<Page>>): seq<Page> {
    if groups == [] then [] else Flatten(groups[..|groups| - 1]) + groups[|groups| - 1]
  }

  /** When every source page gives n pages, the document has |groups| * n pages and page
      j of source page i sits at position i * n + j. */
  lemma {:induction false} FlattenAt(groups: seq<seq<Page>>, n: nat, i: nat, j: nat)
    requires forall k :: 0 <= k < |groups| ==> |groups[k]| == n
    requires i < |groups| && j < n
    ensures |Flatten(groups)| == |groups| * n
    ensures i * n + j < |groups| * n && Flatten(groups)[i * n + j] == groups[i][j]
  {
    var m := |groups|;
    var front := groups[..m - 1];
    FlattenLength(front, n);
    assert |Flatten(groups)| == (m - 1) * n + n == m * n;
    if i < m - 1 {
      FlattenAt(front, n, i, j);
      assert i * n + j < (m - 1) * n;
    } else {
      assert i * n + j == (m - 1) * n + j;
    }
  }

  /** The document is empty exactly when no source page contributes a page. */
  lemma {:induction false} FlattenEmptyIff(groups: seq<seq<Page>>)
    ensures Flatten(groups) == [] <==> forall k :: 0 <= k < |groups| ==> groups[k] == []
  {
    if groups != [] {
      var front := groups[..|groups| - 1];
      FlattenEmptyIff(front);
      assert forall k :: 0 <= k < |front| ==> front[k] == groups[k];
    }
  }

  /** FlattenAt for a document already known to be the flattening of `groups`. */
  lemma DocumentAt(doc: seq<Page>, groups: seq<seq<Page>>, n: nat, i: nat, j: nat)
    requires doc == Flatten(groups)
    requires forall k :: 0 <= k < |groups| ==> |groups[k]| == n
    requires i < |groups| && j < n
    ensures |doc| == |groups| * n && i * n + j < |doc| && doc[i * n + j] == groups[i][j]
  {
    FlattenAt(groups, n, i, j);
  }

  /** A document of groups of n pages each has |groups| * n pages. */
  lemma {:induction false} FlattenLength(groups: seq<seq<Page>>, n: nat)
    requires forall k :: 0 <= k < |groups| ==> |groups[k]| == n
    ensures |Flatten(groups)| == |groups| * n
  {
    if groups != [] {
      FlattenLength(groups[..|groups| - 1], n);
      assert (|groups| - 1) * n + n == |groups| * n;
    }
  }
}
