/**
 * The heading/paragraph collector of js/main.js (`tagCollect` and its inner
 * `collect`): a depth-first, pre-order walk over a tree of tagged elements that
 * appends every `P` element to `paragraphs` and every `H1`..`H6` element to
 * `headings`, visiting the children of every element whatever its tag.
 *
 * The specification is the pre-order flattening of the tree (`Preorder`)
 * filtered by tag class (`Pick`); the imperative collector is proved equal to
 * it, and the lemmas below state what that filter means: exactly the matching
 * elements, each as often as it occurs, in document order.
 */
module TagCollect {

  /** An element of the document: its tag name and its ordered children. */
  datatype Node = Node(tag: string, children: seq<Node>)

  /** The three ways `collect` can treat an element. */
  datatype Kind = Paragraph | Heading | Other

  /** The heading test: only the first two characters are looked at, an 'H'
      followed by a digit from '1' to '6'; a tag shorter than two never matches. */
  predicate IsHeadingTag(tag: string): (b: bool)
    ensures b <==> |tag| >= 2 && tag[..2] in ["H1", "H2", "H3", "H4", "H5", "H6"]
  {
    if |tag| < 2 then false
    else
      assert tag[..2] == [tag[0], tag[1]];
      tag[0] == 'H' && '1' <= tag[1] <= '6'
  }

  /** The classification `collect` applies: `P` first, the heading test only
      for the elements that are not `P`. */
  function Classify(tag: string): (k: Kind)
    ensures k == Paragraph <==> tag == "P"
    ensures k == Heading <==> IsHeadingTag(tag)
  {
    if tag == "P" then Paragraph
    else if IsHeadingTag(tag) then Heading
    else Other
  }

  /** Only the first two characters decide a heading: tags that agree on them
      agree on the test, and a tag of one character is never a heading. */
  lemma HeadingTestFirstTwo(t: string, u: string)
    ensures |t| >= 2 && |u| >= 2 && t[..2] == u[..2] ==> IsHeadingTag(t) == IsHeadingTag(u)
    ensures |t| < 2 ==> Classify(t) != Heading
  {
    if |t| >= 2 && |u| >= 2 && t[..2] == u[..2] {
      assert t[0] == t[..2][0] == u[0] && t[1] == t[..2][1] == u[1];
    }
  }

  // ---------------------------------------------------------------------------
  // Specification: pre-order flattening and filtering by kind
  // ---------------------------------------------------------------------------

  /** The elements of the tree rooted at `n`, each before its descendants and
      every subtree before the subtrees of its later siblings. */
  function Preorder(n: Node): seq<Node>
    decreases n, 1
  {
    [n] + PreorderAll(n.children)
  }

  /** The pre-order flattenings of a list of sibling trees, one after another. */
  function PreorderAll(ns: seq<Node>): seq<Node>
    decreases ns, 0
  {
    if ns == [] then [] else Preorder(ns[0]) + PreorderAll(ns[1..])
  }

  /** The number of elements in the tree rooted at `n`. */
  function NodeCount(n: Node): nat
    decreases n, 1
  {
    1 + NodeCountAll(n.children)
  }

  function NodeCountAll(ns: seq<Node>): nat
    decreases ns, 0
  {
    if ns == [] then 0 else NodeCount(ns[0]) + NodeCountAll(ns[1..])
  }

  /** `x` is `n` itself or an element somewhere below it. */
  ghost predicate Within(x: Node, n: Node)
    decreases n, 1
  {
    x == n || WithinAll(x, n.children)
  }

  ghost predicate WithinAll(x: Node, ns: seq<Node>)
    decreases ns, 0
  {
    ns != [] && (Within(x, ns[0]) || WithinAll(x, ns[1..]))
  }

  /** The elements of `s` of kind `k`, in the order of `s`. */
  function Pick(s: seq<Node>, k: Kind): seq<Node> {
    if s == [] then []
    else (if Classify(s[0].tag) == k then [s[0]] else []) + Pick(s[1..], k)
  }

  /** What `tagCollect(root)` returns in its `headings` field. */
  function Headings(root: Node): seq<Node> {
    Pick(Preorder(root), Heading)
  }

  /** What `tagCollect(root)` returns in its `paragraphs` field. */
  function Paragraphs(root: Node): seq<Node> {
    Pick(Preorder(root), Paragraph)
  }

  // ---------------------------------------------------------------------------
  // Lemmas about the specification
  // ---------------------------------------------------------------------------

  /** The filter keeps exactly the entries of kind `k`. */
  lemma {:induction false} PickMembers(s: seq<Node>, k: Kind, x: Node)
    ensures x in Pick(s, k) <==> x in s && Classify(x.tag) == k
  {
    if s != [] {
      PickMembers(s[1..], k, x);
      assert s == [s[0]] + s[1..];
    }
  }

  /** Filtering distributes over concatenation: it keeps the relative order. */
  lemma {:induction false} PickAppend(a: seq<Node>, b: seq<Node>, k: Kind)
    ensures Pick(a + b, k) == Pick(a, k) + Pick(b, k)
  {
    if a == [] {
      assert a + b == b;
    } else {
      var head := if Classify(a[0].tag) == k then [a[0]] else [];
      assert (a + b)[0] == a[0];
      assert (a + b)[1..] == a[1..] + b;
      assert Pick(a + b, k) == head + Pick(a[1..] + b, k);
      PickAppend(a[1..], b, k);
      AppendAssoc(head, Pick(a[1..], k), Pick(b, k));
    }
  }

  /** Flattening a list of siblings distributes over concatenation. */
  lemma {:induction false} PreorderAllAppend(a: seq<Node>, b: seq<Node>)
    ensures PreorderAll(a + b) == PreorderAll(a) + PreorderAll(b)
  {
    if a == [] {
      assert a + b == b;
    } else {
      assert (a + b)[0] == a[0];
      assert (a + b)[1..] == a[1..] + b;
      PreorderAllAppend(a[1..], b);
    }
  }

  /** One more sibling at the end adds its whole subtree at the end. */
  lemma PreorderAllSnoc(ns: seq<Node>, i: nat)
    requires i < |ns|
    ensures PreorderAll(ns[..i + 1]) == PreorderAll(ns[..i]) + Preorder(ns[i])
  {
    assert ns[..i + 1] == ns[..i] + [ns[i]];
    PreorderAllAppend(ns[..i], [ns[i]]);
    assert PreorderAll([ns[i]]) == Preorder(ns[i]) + PreorderAll([]);
  }

  /** The lists of the first i+1 siblings extend those of the first i by the
      (i+1)-th sibling's lists. */
  lemma PickPrefixSnoc(ns: seq<Node>, i: nat, k: Kind)
    requires i < |ns|
    ensures Pick(PreorderAll(ns[..i + 1]), k) == Pick(PreorderAll(ns[..i]), k) + Pick(Preorder(ns[i]), k)
  {
    PreorderAllSnoc(ns, i);
    PickAppend(PreorderAll(ns[..i]), Preorder(ns[i]), k);
  }

  /** The flattening holds exactly one entry per element of the tree. */
  lemma {:induction false} PreorderLength(n: Node)
    ensures |Preorder(n)| == NodeCount(n)
    decreases n, 1
  {
    PreorderAllLength(n.children);
  }

  lemma {:induction false} PreorderAllLength(ns: seq<Node>)
    ensures |PreorderAll(ns)| == NodeCountAll(ns)
    decreases ns, 0
  {
    if ns != [] {
      PreorderLength(ns[0]);
      PreorderAllLength(ns[1..]);
    }
  }

  /** The flattening contains exactly the elements of the tree. */
  lemma {:induction false} PreorderMembers(x: Node, n: Node)
    ensures x in Preorder(n) <==> Within(x, n)
    decreases n, 1
  {
    PreorderAllMembers(x, n.children);
  }

  lemma {:induction false} PreorderAllMembers(x: Node, ns: seq<Node>)
    ensures x in PreorderAll(ns) <==> WithinAll(x, ns)
    decreases ns, 0
  {
    if ns != [] {
      PreorderMembers(x, ns[0]);
      PreorderAllMembers(x, ns[1..]);
    }
  }

  /** Every entry of `s` lands in exactly one of the three lists: counted with
      multiplicity, paragraphs, headings and unclassified elements make up `s`. */
  lemma {:induction false} PickPartition(s: seq<Node>)
    ensures multiset(Pick(s, Paragraph)) + multiset(Pick(s, Heading)) + multiset(Pick(s, Other))
            == multiset(s)
    ensures |Pick(s, Paragraph)| + |Pick(s, Heading)| + |Pick(s, Other)| == |s|
  {
    if s != [] {
      PickPartition(s[1..]);
      assert s == [s[0]] + s[1..];
    }
  }

  /** A tree's lists are the root's own entry followed by its children's lists. */
  lemma PickPreorder(n: Node, k: Kind)
    ensures Pick(Preorder(n), k)
            == (if Classify(n.tag) == k then [n] else []) + Pick(PreorderAll(n.children), k)
  {
    PickAppend([n], PreorderAll(n.children), k);
    assert Pick([n], k) == (if Classify(n.tag) == k then [n] else []) + Pick([], k);
  }

  lemma AppendAssoc(x: seq<Node>, y: seq<Node>, z: seq<Node>)
    ensures x + (y + z) == x + y + z
  {
  }

  /** The lists below a list of siblings, split around its i-th sibling. */
  lemma PickAllAt(cs: seq<Node>, i: nat, k: Kind)
    requires i < |cs|
    ensures Pick(PreorderAll(cs), k)
            == Pick(PreorderAll(cs[..i]), k) + Pick(Preorder(cs[i]), k) + Pick(PreorderAll(cs[i + 1..]), k)
  {
    assert cs == cs[..i] + ([cs[i]] + cs[i + 1..]);
    PreorderAllAppend(cs[..i], [cs[i]] + cs[i + 1..]);
    PreorderAllAppend([cs[i]], cs[i + 1..]);
    assert PreorderAll([cs[i]]) == Preorder(cs[i]) + PreorderAll([]);
    PickAppend(PreorderAll(cs[..i]), Preorder(cs[i]) + PreorderAll(cs[i + 1..]), k);
    PickAppend(Preorder(cs[i]), PreorderAll(cs[i + 1..]), k);
  }

  /** `PickAllAt` on the siblings after the i-th, split around the j-th. */
  lemma PickAllAtLater(cs: seq<Node>, i: nat, j: nat, k: Kind)
    requires i < j < |cs|
    ensures Pick(PreorderAll(cs[i + 1..]), k)
            == Pick(PreorderAll(cs[i + 1..j]), k) + Pick(Preorder(cs[j]), k) + Pick(PreorderAll(cs[j + 1..]), k)
  {
    var later := cs[i + 1..];
    assert later[..j - i - 1] == cs[i + 1..j];
    assert later[j - i - 1] == cs[j];
    assert later[j - i..] == cs[j + 1..];
    PickAllAt(later, j - i - 1, k);
  }

  /** Document order among siblings: everything collected below the i-th of
      a list of siblings comes before everything collected below a later j-th,
      with the siblings in between collected in between. */
  lemma SiblingOrder(cs: seq<Node>, k: Kind, i: nat, j: nat)
    requires i < j < |cs|
    ensures Pick(PreorderAll(cs), k)
            == Pick(PreorderAll(cs[..i]), k)
               + Pick(Preorder(cs[i]), k)
               + Pick(PreorderAll(cs[i + 1..j]), k)
               + Pick(Preorder(cs[j]), k)
               + Pick(PreorderAll(cs[j + 1..]), k)
  {
    var later := cs[i + 1..];
    var a, b := Pick(PreorderAll(cs[..i]), k), Pick(Preorder(cs[i]), k);
    var c, d, e := Pick(PreorderAll(cs[i + 1..j]), k), Pick(Preorder(cs[j]), k), Pick(PreorderAll(cs[j + 1..]), k);
    assert Pick(PreorderAll(later), k) == c + d + e by {
      PickAllAtLater(cs, i, j, k);
    }
    assert Pick(PreorderAll(cs), k) == a + b + Pick(PreorderAll(later), k) by {
      PickAllAt(cs, i, k);
    }
    assert a + b + (c + d + e) == a + b + c + d + e by {
      AppendAssoc(a + b, c + d, e);
      AppendAssoc(a + b, c, d);
    }
  }

  /** The two lists together hold at most one entry per element of the tree,
      never share an element, and hold exactly the matching elements. */
  lemma CollectedMeaning(root: Node)
    ensures |Headings(root)| + |Paragraphs(root)| <= NodeCount(root)
    ensures forall x :: x in Paragraphs(root) <==> Within(x, root) && x.tag == "P"
    ensures forall x :: x in Headings(root) <==> Within(x, root) && x.tag != "P" && IsHeadingTag(x.tag)
    ensures forall x :: !(x in Headings(root) && x in Paragraphs(root))
  {
    PickPartition(Preorder(root));
    PreorderLength(root);
    forall x
      ensures x in Paragraphs(root) <==> Within(x, root) && x.tag == "P"
      ensures x in Headings(root) <==> Within(x, root) && x.tag != "P" && IsHeadingTag(x.tag)
    {
      PreorderMembers(x, root);
      PickMembers(Preorder(root), Heading, x);
      PickMembers(Preorder(root), Paragraph, x);
    }
  }

  /** A tree without `P` or `H1`..`H6` elements yields two empty lists. */
  lemma NoMatchNoneCollected(root: Node)
    requires forall x :: Within(x, root) ==> Classify(x.tag) == Other
    ensures Headings(root) == [] && Paragraphs(root) == []
  {
    var h, p := Headings(root), Paragraphs(root);
    if h != [] {
      PickMembers(Preorder(root), Heading, h[0]);
      PreorderMembers(h[0], root);
      assert false;
    }
    if p != [] {
      PickMembers(Preorder(root), Paragraph, p[0]);
      PreorderMembers(p[0], root);
      assert false;
    }
  }

  /** A root with a `P`, an `H2` and another `P` below it, in that order. */
  lemma SiblingsExample()
    ensures var p1, h2, p3 := Node("P", []), Node("H2", []), Node("P", []);
      var root := Node("BODY", [p1, h2, p3]);
      Paragraphs(root) == [p1, p3] && Headings(root) == [h2]
  {
    var p1, h2, p3 := Node("P", []), Node("H2", []), Node("P", []);
    var root := Node("BODY", [p1, h2, p3]);
    assert Preorder(p1) == [p1] && Preorder(h2) == [h2] && Preorder(p3) == [p3];
    assert [p1, h2, p3][1..] == [h2, p3] && [h2, p3][1..] == [p3];
    assert PreorderAll([p3]) == [p3];
    assert PreorderAll([h2, p3]) == [h2, p3];
    assert PreorderAll([p1, h2, p3]) == [p1, h2, p3];
    var s := Preorder(root);
    assert s == [root, p1, h2, p3];
    assert s[1..] == [p1, h2, p3] && s[2..] == [h2, p3] && s[3..] == [p3] && s[4..] == [];
    assert Classify("BODY") == Other && Classify("H2") == Heading;
    assert Pick(s[3..], Paragraph) == [p3] && Pick(s[3..], Heading) == [];
    assert Pick(s[2..], Paragraph) == [p3] && Pick(s[2..], Heading) == [h2];
    assert Pick(s[1..], Paragraph) == [p1, p3] && Pick(s[1..], Heading) == [h2];
  }

  // ---------------------------------------------------------------------------
  // The imperative collector
  // ---------------------------------------------------------------------------

  /** The two arrays that `collect` pushes into, as fields of one object: the
      closure's shared state. */
  class Collector {
    var headings: seq<Node>
    var paragraphs: seq<Node>

    constructor ()
      ensures headings == [] && paragraphs == []
    {
      headings := [];
      paragraphs := [];
    }

    /** `collect(n)`: classify `n`, then visit its children in order. Each call
        appends exactly the matching elements of `n`'s subtree, in pre-order. */
    method Collect(n: Node)
      modifies this
      ensures headings == old(headings) + Pick(Preorder(n), Heading)
      ensures paragraphs == old(paragraphs) + Pick(Preorder(n), Paragraph)
      decreases n, 1
    {
      if n.tag == "P" {
        paragraphs := paragraphs + [n];
      } else if IsHeadingTag(n.tag) {
        headings := headings + [n];
      }
      PickPreorder(n, Heading);
      PickPreorder(n, Paragraph);
      CollectChildren(n.children);
      AppendAssoc(old(headings), if Classify(n.tag) == Heading then [n] else [],
                  Pick(PreorderAll(n.children), Heading));
      AppendAssoc(old(paragraphs), if Classify(n.tag) == Paragraph then [n] else [],
                  Pick(PreorderAll(n.children), Paragraph));
    }

    /** The `forEach` over a list of children: `collect` on each, in order. */
    method CollectChildren(cs: seq<Node>)
      modifies this
      ensures headings == old(headings) + Pick(PreorderAll(cs), Heading)
      ensures paragraphs == old(paragraphs) + Pick(PreorderAll(cs), Paragraph)
      decreases cs, 0
    {
      ghost var h0, p0 := headings, paragraphs;
      var i := 0;
      while i < |cs|
        invariant 0 <= i <= |cs|
        invariant headings == h0 + Pick(PreorderAll(cs[..i]), Heading)
        invariant paragraphs == p0 + Pick(PreorderAll(cs[..i]), Paragraph)
      {
        ghost var hs, ps := Pick(PreorderAll(cs[..i]), Heading), Pick(PreorderAll(cs[..i]), Paragraph);
        Collect(cs[i]);
        PickPrefixSnoc(cs, i, Heading);
        PickPrefixSnoc(cs, i, Paragraph);
        AppendAssoc(h0, hs, Pick(Preorder(cs[i]), Heading));
        AppendAssoc(p0, ps, Pick(Preorder(cs[i]), Paragraph));
        i := i + 1;
      }
      assert cs[..i] == cs;
    }
  }

  /** `tagCollect(root)`: run `collect` from the root with two empty lists and
      return them. */
  method TagCollect(root: Node) returns (headings: seq<Node>, paragraphs: seq<Node>)
    ensures headings == Headings(root) && paragraphs == Paragraphs(root)
    ensures forall x :: x in paragraphs <==> Within(x, root) && x.tag == "P"
    ensures forall x :: x in headings <==> Within(x, root) && x.tag != "P" && IsHeadingTag(x.tag)
    ensures |headings| + |paragraphs| <= NodeCount(root)
  {
    var c := new Collector();
    c.Collect(root);
    headings, paragraphs := c.headings, c.paragraphs;
    CollectedMeaning(root);
  }
}
