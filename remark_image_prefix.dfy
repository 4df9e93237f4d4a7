/**
 * The remark plugin of src/lib/remark-image-prefix.ts: one pass over the
 * Markdown syntax tree that puts the site's base path in front of every
 * root-relative image URL, both of Markdown image nodes (`url`) and of HTML
 * `<img>` elements (`properties.src`). The pass writes the nodes in place; the
 * tree is an array holding each of its nodes once, in the order `visit` reaches
 * them, and `children` are indices into it.
 */
module ImagePrefix {
  import opened Wrappers
  import opened Strings

  /** The fields of a node the plugin reads or writes; `None` is an absent field. */
  datatype MdNode = MdNode(kind: string, url: Option<string>, tagName: Option<string>,
                           properties: Option<map<string, string>>, children: seq<nat>)

  /** `u?.startsWith('/')` */
  predicate RootRelative(u: Option<string>) {
    u.Some? && StartsWith(u.value, "/")
  }

  /** `properties?.src` */
  function Src(n: MdNode): Option<string> {
    if n.properties.Some? && "src" in n.properties.value then Some(n.properties.value["src"]) else None
  }

  /** A Markdown image with a root-relative `url`. */
  predicate ImageRule(n: MdNode) {
    n.kind == "image" && RootRelative(n.url)
  }

  /** An `<img>` element with a root-relative `src`. */
  predicate ImgRule(n: MdNode) {
    n.kind == "element" && n.tagName == Some("img") && RootRelative(Src(n))
  }

  /** What the visitor does to one node: its two `if`s in order. */
  function Rewrite(n: MdNode, basePath: string): MdNode {
    var n1 := if ImageRule(n) then n.(url := Some(basePath + n.url.value)) else n;
    if ImgRule(n1) then n1.(properties := Some(n1.properties.value["src" := basePath + Src(n1).value])) else n1
  }

  /** The transformer `(tree) => visit(tree, …)`: every node is visited once. */
  method RemarkImagePrefix(tree: array<MdNode>, basePath: string)
    modifies tree
    ensures forall i :: 0 <= i < tree.Length ==> tree[i] == Rewrite(old(tree[i]), basePath)
  {
    var i := 0;
    while i < tree.Length
      invariant 0 <= i <= tree.Length
      invariant forall j :: 0 <= j < i ==> tree[j] == Rewrite(old(tree[j]), basePath)
      invariant forall j :: i <= j < tree.Length ==> tree[j] == old(tree[j])
    {
      var node := tree[i];
      if node.kind == "image" && node.url.Some? && StartsWith(node.url.value, "/") {
        node := node.(url := Some(basePath + node.url.value));
      }
      if node.kind == "element" && node.tagName == Some("img") && node.properties.Some?
         && "src" in node.properties.value && StartsWith(node.properties.value["src"], "/")
      {
        node := node.(properties := Some(node.properties.value["src" := basePath + node.properties.value["src"]]));
      }
      tree[i] := node;
      i := i + 1;
    }
  }

  // ---- properties of one visit ----

  /** A root-relative Markdown image gets the base path in front of its URL, once. */
  lemma ImageNodePrefixed(n: MdNode, basePath: string)
    requires n.kind == "image" && RootRelative(n.url)
    ensures Rewrite(n, basePath) == n.(url := Some(basePath + n.url.value))
  {
    var n1 := n.(url := Some(basePath + n.url.value));
    assert !ImgRule(n1);
  }

  /** A root-relative `<img>` gets the base path in front of its `src`, once, and keeps its other properties. */
  lemma ImgElementPrefixed(n: MdNode, basePath: string)
    requires n.kind == "element" && n.tagName == Some("img") && RootRelative(Src(n))
    ensures Rewrite(n, basePath) == n.(properties := Some(n.properties.value["src" := basePath + Src(n).value]))
  {
    assert !ImageRule(n);
  }

  /** Every other node, including those whose URL is absent, relative or external, is left as it is. */
  lemma OtherNodesUnchanged(n: MdNode, basePath: string)
    requires !ImageRule(n) && !ImgRule(n)
    ensures Rewrite(n, basePath) == n
  {
  }

  /**
   * A visit writes only `url` and `properties.src`: the kind, the tag, the
   * children and every other property stay, and no field appears or vanishes.
   */
  lemma RewriteFrame(n: MdNode, basePath: string)
    ensures var r := Rewrite(n, basePath);
            && r.kind == n.kind && r.tagName == n.tagName && r.children == n.children
            && r.url.Some? == n.url.Some?
            && (r.url != n.url ==> ImageRule(n))
            && r.properties.Some? == n.properties.Some?
            && (r.properties.Some? ==>
                  r.properties.value.Keys == n.properties.value.Keys
                  && forall k :: k in n.properties.value && k != "src" ==> r.properties.value[k] == n.properties.value[k])
            && (r.properties != n.properties ==> ImgRule(n))
  {
    if ImageRule(n) {
      ImageNodePrefixed(n, basePath);
    } else if ImgRule(n) {
      ImgElementPrefixed(n, basePath);
    }
  }

  /** With an empty base path a visit changes nothing. */
  lemma EmptyBasePath(n: MdNode)
    ensures Rewrite(n, "") == n
  {
    if ImageRule(n) {
      ImageNodePrefixed(n, "");
      assert "" + n.url.value == n.url.value;
    } else if ImgRule(n) {
      ImgElementPrefixed(n, "");
      assert "" + Src(n).value == Src(n).value;
      assert n.properties.value["src" := Src(n).value] == n.properties.value;
    }
  }

  /**
   * The pass is not idempotent: when the base path itself starts with `/`, a
   * second pass prefixes the URL again, so each node must be visited exactly once.
   */
  lemma SecondPassPrefixesAgain(n: MdNode, basePath: string)
    requires n.kind == "image" && RootRelative(n.url) && StartsWith(basePath, "/")
    ensures Rewrite(Rewrite(n, basePath), basePath).url == Some(basePath + basePath + n.url.value)
  {
    ImageNodePrefixed(n, basePath);
    var n1 := Rewrite(n, basePath);
    assert (basePath + n.url.value)[..1] == basePath[..1];
    ImageNodePrefixed(n1, basePath);
    assert basePath + (basePath + n.url.value) == basePath + basePath + n.url.value;
  }

  // ---- the whole pass ----

  /** After the pass, the tree has the same nodes and edges, and a node changed only by its own rule. */
  lemma PassShape(before: seq<MdNode>, after: seq<MdNode>, basePath: string)
    requires |after| == |before| && forall i :: 0 <= i < |before| ==> after[i] == Rewrite(before[i], basePath)
    ensures forall i :: 0 <= i < |before| ==>
              after[i].kind == before[i].kind && after[i].children == before[i].children
              && (after[i] != before[i] ==> ImageRule(before[i]) || ImgRule(before[i]))
  {
    forall i | 0 <= i < |before|
      ensures after[i].kind == before[i].kind && after[i].children == before[i].children
      ensures after[i] != before[i] ==> ImageRule(before[i]) || ImgRule(before[i])
    {
      RewriteFrame(before[i], basePath);
      if !ImageRule(before[i]) && !ImgRule(before[i]) {
        OtherNodesUnchanged(before[i], basePath);
      }
    }
  }
}
