/**
 * A stand-in for the `SourceNode` of the `source-map` library.  The node tree
 * is flattened into an append-only log of fragments, and the registered source
 * contents into a map from source name to text.
 */
module SourceNodes {
  import opened Wrappers

  /**
   * One chunk of generated text that starts at (line, column) of `source`
   * (`new SourceNode(line, column, source, chunk)`); a fragment whose source is
   * None carries no mapping.
   */
  datatype Fragment = Fragment(line: int, column: int, source: Option<string>, text: string)

  /** The generated text of a sequence of fragments: their texts, in order. */
  function Texts(fs: seq<Fragment>): string
  {
    if fs == [] then [] else fs[0].text + Texts(fs[1..])
  }

  lemma {:induction false} TextsAppend(a: seq<Fragment>, b: seq<Fragment>)
    ensures Texts(a + b) == Texts(a) + Texts(b)
  {
    if a != [] {
      assert (a + b)[1..] == a[1..] + b;
      TextsAppend(a[1..], b);
    } else {
      assert a + b == b;
    }
  }

  /** Fragment k's text stands in the generated text right after the texts of the fragments before it. */
  lemma TextsAt(fs: seq<Fragment>, k: nat)
    requires k < |fs|
    ensures Texts(fs) == Texts(fs[..k]) + fs[k].text + Texts(fs[k + 1..])
  {
    assert fs == fs[..k] + fs[k..];
    TextsAppend(fs[..k], fs[k..]);
    assert fs[k..][1..] == fs[k + 1..];
  }

  /** The generated text ends with the text of the last fragment. */
  lemma TextsLast(fs: seq<Fragment>)
    ensures fs == [] ==> Texts(fs) == []
    ensures fs != [] ==> Texts(fs) == Texts(fs[..|fs| - 1]) + fs[|fs| - 1].text
  {
    if fs != [] {
      TextsAt(fs, |fs| - 1);
      assert fs[|fs|..] == [];
    }
  }

  /**
   * A mapping the source map can hold: lines count from 1 and columns from 0,
   * as `Position` counts them.
   */
  predicate WellPlaced(f: Fragment)
  {
    f.line >= 1 && f.column >= 0
  }

  predicate AllWellPlaced(fs: seq<Fragment>)
  {
    forall k :: 0 <= k < |fs| ==> WellPlaced(fs[k])
  }

  lemma WellPlacedAppend(a: seq<Fragment>, b: seq<Fragment>)
    ensures AllWellPlaced(a + b) <==> AllWellPlaced(a) && AllWellPlaced(b)
  {
    if AllWellPlaced(a) && AllWellPlaced(b) {
      forall k | 0 <= k < |a + b|
        ensures WellPlaced((a + b)[k])
      {
        if k < |a| { assert (a + b)[k] == a[k]; } else { assert (a + b)[k] == b[k - |a|]; }
      }
    }
    if AllWellPlaced(a + b) {
      assert forall k :: 0 <= k < |a| ==> a[k] == (a + b)[k];
      assert forall k :: 0 <= k < |b| ==> b[k] == (a + b)[|a| + k];
    }
  }

  class SourceNode {
    var fragments: seq<Fragment>
    var sourceContents: map<string, string>

    constructor ()
      ensures fragments == [] && sourceContents == map[]
    {
      fragments := [];
      sourceContents := map[];
    }

    /** `node.add(child)`: the child's fragments are appended after the existing ones. */
    method Add(child: seq<Fragment>)
      modifies this
      ensures fragments == old(fragments) + child
      ensures sourceContents == old(sourceContents)
    {
      fragments := fragments + child;
    }

    /** `node.setSourceContent(name, content)`: a later registration of the same name wins. */
    method SetSourceContent(name: string, content: string)
      modifies this
      ensures sourceContents == old(sourceContents)[name := content]
      ensures fragments == old(fragments)
    {
      sourceContents := sourceContents[name := content];
    }

    /**
     * The generated code of `toStringWithSourceMap`: the concatenated fragment
     * texts, each fragment's text at the offset where the ones before it end,
     * and nothing after the last one.
     */
    function Code(): (r: string)
      reads this
      ensures forall k :: 0 <= k < |fragments| ==> Texts(fragments[..k]) + fragments[k].text <= r
      ensures fragments == [] ==> r == []
      ensures fragments != [] ==> r == Texts(fragments[..|fragments| - 1]) + fragments[|fragments| - 1].text
    {
      forall k | 0 <= k < |fragments|
        ensures Texts(fragments[..k]) + fragments[k].text <= Texts(fragments)
      {
        TextsAt(fragments, k);
      }
      TextsLast(fragments);
      Texts(fragments)
    }
  }
}
