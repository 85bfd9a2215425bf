/** The marketplace's category tree, its flattening into a list of category
    descriptors, and the resolution of a user's category name or link against
    that list. */
module Catalogue {
  import opened Wrappers
  import opened Strings

  /** A category as it appears in the catalogue JSON: each of the four descriptor
      keys may be missing, and so may the list of sub-categories (`childs`). */
  datatype Node = Node(
    name: Option<string>,
    url: Option<string>,
    shard: Option<string>,
    query: Option<string>,
    childs: Children)

  datatype Children = NoChilds | Childs(nodes: seq<Node>)

  /** One entry of the flattened catalogue. */
  datatype Descriptor = Descriptor(name: string, url: string, shard: string, query: string)

  /** What a successful lookup hands to the collector: name, shard and query. */
  datatype CategoryData = CategoryData(name: string, shard: string, query: string)

  /** The node has all four descriptor keys. */
  predicate Complete(n: Node)
  {
    n.name.Some? && n.url.Some? && n.shard.Some? && n.query.Some?
  }

  function DescriptorOf(n: Node): Descriptor
    requires Complete(n)
  {
    Descriptor(n.name.value, n.url.value, n.shard.value, n.query.value)
  }

  function Kids(n: Node): seq<Node>
  {
    match n.childs
    case NoChilds => []
    case Childs(nodes) => nodes
  }

  /** The descriptors the catalogue walk emits for a forest, in walk order. A node
      lacking a descriptor key emits nothing and its sub-categories are not
      visited. */
  function Flatten(forest: seq<Node>): seq<Descriptor>
    decreases forest
  {
    if forest == [] then [] else FlattenNode(forest[0]) + Flatten(forest[1..])
  }

  function FlattenNode(n: Node): seq<Descriptor>
    decreases n
  {
    if !Complete(n) then []
    else
      [DescriptorOf(n)] +
      match n.childs
      case NoChilds => []
      case Childs(nodes) => Flatten(nodes)
  }

  /** Number of nodes of a forest, counting every level. */
  function ForestSize(forest: seq<Node>): nat
    decreases forest
  {
    if forest == [] then 0 else NodeSize(forest[0]) + ForestSize(forest[1..])
  }

  function NodeSize(n: Node): nat
    decreases n
  {
    1 + match n.childs
        case NoChilds => 0
        case Childs(nodes) => ForestSize(nodes)
  }

  /** Every node of the forest, at every level, has all four descriptor keys. */
  predicate WellFormed(forest: seq<Node>)
    decreases forest
  {
    forall i :: 0 <= i < |forest| ==> WellFormedNode(forest[i])
  }

  predicate WellFormedNode(n: Node)
    decreases n
  {
    Complete(n) &&
    match n.childs
    case NoChilds => true
    case Childs(nodes) => WellFormed(nodes)
  }

  /** The walk of two forests side by side is the walk of the first followed by
      the walk of the second: sibling subtrees keep their input order. */
  lemma {:induction false} FlattenAppend(a: seq<Node>, b: seq<Node>)
    ensures Flatten(a + b) == Flatten(a) + Flatten(b)
  {
    if a != [] {
      assert (a + b)[0] == a[0];
      assert (a + b)[1..] == a[1..] + b;
      FlattenAppend(a[1..], b);
    } else {
      assert a + b == b;
    }
  }

  lemma {:induction false} ForestSizeAppend(a: seq<Node>, b: seq<Node>)
    ensures ForestSize(a + b) == ForestSize(a) + ForestSize(b)
  {
    if a != [] {
      assert (a + b)[0] == a[0];
      assert (a + b)[1..] == a[1..] + b;
      ForestSizeAppend(a[1..], b);
    } else {
      assert a + b == b;
    }
  }

  lemma Around(forest: seq<Node>, i: nat)
    requires i < |forest|
    ensures forest == forest[..i] + [forest[i]] + forest[i + 1..]
  {
  }

  /** The sub-categories of a node are strictly smaller than the forest it sits in. */
  lemma KidsSmaller(forest: seq<Node>, i: nat)
    requires i < |forest|
    ensures ForestSize(Kids(forest[i])) < ForestSize(forest)
  {
    Around(forest, i);
    ForestSizeAppend(forest[..i] + [forest[i]], forest[i + 1..]);
    ForestSizeAppend(forest[..i], [forest[i]]);
  }

  /** The walk of one more node of a forest. */
  lemma FlattenStep(forest: seq<Node>, i: nat)
    requires i < |forest|
    ensures Flatten(forest[..i + 1]) == Flatten(forest[..i]) + FlattenNode(forest[i])
  {
    assert forest[..i + 1] == forest[..i] + [forest[i]];
    FlattenAppend(forest[..i], [forest[i]]);
    assert [forest[i]][1..] == [];
  }

  /** Pre-order: a complete node's descriptor comes right after everything emitted
      for its earlier siblings, immediately followed by the descriptors of its own
      sub-categories, and only then by those of its later siblings. */
  lemma PreOrderAt(forest: seq<Node>, i: nat)
    requires i < |forest| && Complete(forest[i])
    ensures Flatten(forest) ==
      Flatten(forest[..i]) + [DescriptorOf(forest[i])] + Flatten(Kids(forest[i])) + Flatten(forest[i + 1..])
  {
    Around(forest, i);
    FlattenAppend(forest[..i] + [forest[i]], forest[i + 1..]);
    FlattenAppend(forest[..i], [forest[i]]);
    assert [forest[i]][1..] == [];
    assert Flatten([forest[i]]) == FlattenNode(forest[i]);
    assert FlattenNode(forest[i]) == [DescriptorOf(forest[i])] + Flatten(Kids(forest[i]));
    AppendAssoc(Flatten(forest[..i]), [DescriptorOf(forest[i])], Flatten(Kids(forest[i])));
  }

  /** A node missing any descriptor key drops out with its whole subtree: the
      walk is that of its siblings alone, whatever its sub-categories are. */
  lemma IncompleteDropsSubtree(forest: seq<Node>, i: nat)
    requires i < |forest| && !Complete(forest[i])
    ensures Flatten(forest) == Flatten(forest[..i]) + Flatten(forest[i + 1..])
  {
    Around(forest, i);
    FlattenAppend(forest[..i] + [forest[i]], forest[i + 1..]);
    FlattenAppend(forest[..i], [forest[i]]);
    assert [forest[i]][1..] == [];
    assert Flatten([forest[i]]) == [];
  }

  /** The walk emits at most one descriptor per node, and exactly one per node if
      and only if every node of the tree is complete. */
  lemma {:induction false} FlattenCount(forest: seq<Node>)
    ensures |Flatten(forest)| <= ForestSize(forest)
    ensures |Flatten(forest)| == ForestSize(forest) <==> WellFormed(forest)
    decreases forest
  {
    if forest != [] {
      FlattenNodeCount(forest[0]);
      FlattenCount(forest[1..]);
      if WellFormed(forest) {
        assert WellFormedNode(forest[0]);
        assert WellFormed(forest[1..]) by {
          forall i | 0 <= i < |forest[1..]| ensures WellFormedNode(forest[1..][i]) {
            assert forest[1..][i] == forest[i + 1];
          }
        }
      }
      if WellFormedNode(forest[0]) && WellFormed(forest[1..]) {
        forall i | 0 <= i < |forest| ensures WellFormedNode(forest[i]) {
          if i > 0 { assert forest[i] == forest[1..][i - 1]; }
        }
      }
    }
  }

  lemma {:induction false} FlattenNodeCount(n: Node)
    ensures |FlattenNode(n)| <= NodeSize(n)
    ensures |FlattenNode(n)| == NodeSize(n) <==> WellFormedNode(n)
    decreases n
  {
    match n.childs
    case NoChilds =>
    case Childs(nodes) => FlattenCount(nodes);
  }

  // ----- category resolution -----

  /** The site prefix that a pasted category link starts with. */
  const SiteUrl: string := "https://www.wildberries.ru"

  /** The category path of a user's input: the text after the last occurrence of
      the site prefix, or the input unchanged when the prefix does not occur. */
  function StripSiteUrl(input: string): (path: string)
    ensures EndsWith(input, path) && !Contains(path, SiteUrl)
    ensures !Contains(input, SiteUrl) ==> path == input
    ensures Contains(input, SiteUrl) ==> EndsWith(input[..|input| - |path|], SiteUrl)
  {
    LastPieceAfterLast(input, SiteUrl);
    LastPiece(input, SiteUrl)
  }

  /** A full link is reduced to the path that follows the site prefix. */
  lemma StripFullUrl(path: string)
    requires !Contains(path, SiteUrl)
    ensures StripSiteUrl(SiteUrl + path) == path
  {
    LastPieceAfterPrefix(SiteUrl, path);
  }

  /** A catalogue entry answers the input when its url equals the input's
      category path, or its name equals the raw input. */
  predicate Matches(d: Descriptor, input: string)
  {
    StripSiteUrl(input) == d.url || input == d.name
  }

  predicate IsFirstMatch(catalogue: seq<Descriptor>, input: string, i: int)
  {
    0 <= i < |catalogue| && Matches(catalogue[i], input) &&
    forall j :: 0 <= j < i ==> !Matches(catalogue[j], input)
  }

  /** The name, shard and query of an entry. */
  function DataOf(d: Descriptor): CategoryData
  {
    CategoryData(d.name, d.shard, d.query)
  }

  /** A first match among the entries after a first entry that does not match is
      the first match of the whole catalogue, one place further on. */
  lemma FirstMatchShifts(catalogue: seq<Descriptor>, input: string, i: int)
    requires catalogue != [] && !Matches(catalogue[0], input)
    requires IsFirstMatch(catalogue[1..], input, i)
    ensures IsFirstMatch(catalogue, input, i + 1) && catalogue[i + 1] == catalogue[1..][i]
  {
    var rest := catalogue[1..];
    forall j | 0 <= j < i + 1 ensures !Matches(catalogue[j], input) {
      if j > 0 {
        assert catalogue[j] == rest[j - 1];
      }
    }
  }

  /** No entry matches when the first does not and none after it does. */
  lemma NoMatchShifts(catalogue: seq<Descriptor>, input: string)
    requires catalogue != [] && !Matches(catalogue[0], input)
    requires forall i :: 0 <= i < |catalogue[1..]| ==> !Matches(catalogue[1..][i], input)
    ensures forall i :: 0 <= i < |catalogue| ==> !Matches(catalogue[i], input)
  {
    var rest := catalogue[1..];
    forall i | 0 <= i < |catalogue| ensures !Matches(catalogue[i], input) {
      if i > 0 {
        assert catalogue[i] == rest[i - 1];
      }
    }
  }

  /** The category data of the first entry, in catalogue order, that answers the
      input; `None` when no entry does. */
  function ExtractCategoryData(catalogue: seq<Descriptor>, input: string): (r: Option<CategoryData>)
    ensures r.None? <==> forall i :: 0 <= i < |catalogue| ==> !Matches(catalogue[i], input)
    ensures r.Some? ==> exists i :: IsFirstMatch(catalogue, input, i) && r.value == DataOf(catalogue[i])
  {
    if catalogue == [] then None
    else if Matches(catalogue[0], input) then
      assert IsFirstMatch(catalogue, input, 0);
      Some(DataOf(catalogue[0]))
    else
      var r := ExtractCategoryData(catalogue[1..], input);
      if r.Some? then
        var i :| IsFirstMatch(catalogue[1..], input, i) && r.value == DataOf(catalogue[1..][i]);
        FirstMatchShifts(catalogue, input, i);
        r
      else
        NoMatchShifts(catalogue, input);
        r
  }

  /** Earlier entries win: a match in the first part of a catalogue hides every
      match after it, and without one the answer is that of the rest. */
  lemma {:induction false} FirstPartWins(a: seq<Descriptor>, b: seq<Descriptor>, input: string)
    ensures ExtractCategoryData(a + b, input) ==
      if ExtractCategoryData(a, input).Some? then ExtractCategoryData(a, input)
      else ExtractCategoryData(b, input)
  {
    if a == [] {
      assert a + b == b;
    } else {
      assert (a + b)[0] == a[0];
      assert (a + b)[1..] == a[1..] + b;
      FirstPartWins(a[1..], b, input);
    }
  }
}
