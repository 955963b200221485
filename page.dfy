/**
 * The parsed page as the extractor holds it: a cheerio document (`$`) whose tree the extractor
 * edits in place. Each editing method walks the top-level nodes in document order and replaces
 * the tree by what the corresponding function of `Sanitize` or `Content` yields, and keeps the
 * guarantee proved about that function.
 */
module Page {
  import opened Dom
  import opened Sanitize
  import opened Content

  class Document {
    /** The top-level nodes of the document. */
    var nodes: seq<Node>

    /** `cheerio.load(html)` */
    constructor (lib: HtmlLib, html: string)
      ensures nodes == lib.parse(html)
    {
      nodes := lib.parse(html);
    }

    /** `.clone()`: a separate document holding the same nodes, so that its edits leave the
        original alone. */
    constructor Clone(f: seq<Node>)
      ensures nodes == f
    {
      nodes := f;
    }

    /** `$("p, div").each(... el.remove())`: the first pass of the sanitiser. */
    method RemoveEmptyBlocks()
      modifies this
      ensures nodes == PruneEmpty(old(nodes))
      ensures Every(nodes, NotEmptyBlock)
    {
      var f := nodes;
      var acc: seq<Node> := [];
      var i := 0;
      while i < |f|
        invariant 0 <= i <= |f|
        invariant acc == PruneEmpty(f[..i])
      {
        assert f[..i + 1][..i] == f[..i];
        acc := acc + PruneEmptyNode(f[i]);
        i := i + 1;
      }
      assert f[..|f|] == f;
      nodes := acc;
      PruneEmptyLeavesNoEmptyBlock(f);
    }

    /** `$(list).remove()`: every element matching the list leaves with its subtree. */
    method RemoveUnwanted(list: seq<Simple>)
      modifies this
      ensures nodes == RemoveMatching(old(nodes), list)
      ensures Every(nodes, n => NotMatchedBy(list, n))
    {
      var f := nodes;
      var acc: seq<Node> := [];
      var i := 0;
      while i < |f|
        invariant 0 <= i <= |f|
        invariant acc == RemoveMatching(f[..i], list)
      {
        assert f[..i + 1][..i] == f[..i];
        acc := acc + RemoveMatchingNode(f[i], list);
        i := i + 1;
      }
      assert f[..|f|] == f;
      nodes := acc;
      RemoveMatchingLeavesNone(f, list);
    }

    /** `$("*").each(... removeAttr ...)`: the third pass of the sanitiser. */
    method StripAttributes()
      modifies this
      ensures nodes == StripForest(old(nodes))
    {
      var f := nodes;
      var acc: seq<Node> := [];
      var i := 0;
      while i < |f|
        invariant 0 <= i <= |f|
        invariant acc == StripForest(f[..i])
      {
        assert f[..i + 1][..i] == f[..i];
        acc := acc + [StripNode(f[i])];
        i := i + 1;
      }
      assert f[..|f|] == f;
      nodes := acc;
    }

    /** `$(sel).find(noise).remove()`: the noise below every match of `sel` leaves the
        document (`NoiseRemovedLeavesNone`). */
    method RemoveNoiseWithin(sel: Simple, noise: seq<Simple>)
      modifies this
      ensures nodes == NoiseRemoved(old(nodes), sel, noise, false)
    {
      var f := nodes;
      var acc: seq<Node> := [];
      var i := 0;
      while i < |f|
        invariant 0 <= i <= |f|
        invariant acc == NoiseRemoved(f[..i], sel, noise, false)
      {
        assert f[..i + 1][..i] == f[..i];
        acc := acc + NoiseRemovedNode(f[i], sel, noise, false);
        i := i + 1;
      }
      assert f[..|f|] == f;
      nodes := acc;
    }
  }
}
