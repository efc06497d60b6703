/** The listing use case (ListModelPartsUseCase): open the locator, read the
    model, and flatten the tree depth first into indented lines, sorting the
    parts and then the child assemblies of every node by name. */
module Listing {
  import opened Text
  import opened Seqs
  import opened Domain
  import opened Sorting
  import opened Ports

  const AssemblyLabel: string := "Assembly: "
  const PartLabel: string := "  Part: "
  const OpenFailure: string := "ERROR: failed to open locator"

  function PartName(p: Part): string { p.name }

  function AssemblyName(a: Assembly): string { a.name }

  /** Two spaces per level of depth. */
  function Indent(depth: nat): string {
    Spaces(2 * depth)
  }

  /** The heading of an assembly at the given depth. */
  function AssemblyLine(depth: nat, name: string): string {
    Indent(depth) + AssemblyLabel + name
  }

  /** One line per part name, one level deeper than the owning assembly. */
  function PartLines(depth: nat, names: seq<string>): (r: seq<string>)
    ensures |r| == |names|
  {
    seq(|names|, i requires 0 <= i < |names| => Indent(depth) + PartLabel + names[i])
  }

  /** A run of spaces is a prefix of any string that starts with at least
      that many spaces. */
  lemma SpacesPrefix(n: nat, x: string)
    requires n <= |x| && forall i | 0 <= i < n :: x[i] == ' '
    ensures Spaces(n) <= x
  {
    assert Spaces(n) == x[..n];
  }

  /** The children of a node, sorted, are still its children. */
  lemma SortedChildren(a: Assembly)
    ensures forall k | k in Sort(AssemblyName, a.children) :: k in a.children
  {
    var children := Sort(AssemblyName, a.children);
    forall k | k in children ensures k in a.children {
      assert k in multiset(children);
    }
  }

  /** `collectLines`: the node's heading, its parts in name order, then the
      blocks of its children in name order. */
  function CollectLines(a: Assembly, depth: nat): (r: seq<string>)
    ensures |r| >= 1 && r[0] == AssemblyLine(depth, a.name)
    decreases a, 1
  {
    SortedChildren(a);
    [AssemblyLine(depth, a.name)]
      + PartLines(depth, Keys(PartName, Sort(PartName, a.parts)))
      + CollectBlocks(Sort(AssemblyName, a.children), depth + 1, a)
  }

  /** The blocks of a run of children, one after the other. */
  function CollectBlocks(kids: seq<Assembly>, depth: nat, ghost parent: Assembly): (r: seq<string>)
    requires forall k | k in kids :: k in parent.children
    decreases parent, 0, |kids|
  {
    if kids == [] then []
    else
      assert kids[0] in kids;
      assert kids[0] in parent.children;
      CollectLines(kids[0], depth) + CollectBlocks(kids[1..], depth, parent)
  }

  /** Every line starts with `p`. */
  predicate AllStartWith(p: string, ls: seq<string>) {
    forall i | 0 <= i < |ls| :: p <= ls[i]
  }

  lemma AllStartWithConcat(p: string, xs: seq<string>, ys: seq<string>)
    requires AllStartWith(p, xs) && AllStartWith(p, ys)
    ensures AllStartWith(p, xs + ys)
  {
    forall i | 0 <= i < |xs + ys| ensures p <= (xs + ys)[i] {
      if i >= |xs| { assert (xs + ys)[i] == ys[i - |xs|]; }
    }
  }

  lemma HeadAndTailStartWith(p: string, ls: seq<string>)
    requires |ls| >= 1 && p <= ls[0] && AllStartWith(p, ls[1..])
    ensures AllStartWith(p, ls)
  {
    forall i | 1 <= i < |ls| ensures p <= ls[i] {
      assert ls[i] == ls[1..][i - 1];
    }
  }

  /** A line indented one level deeper is indented at least as deep. */
  lemma DeeperIsIndented(depth: nat, ls: seq<string>)
    requires AllStartWith(Indent(depth + 1), ls)
    ensures AllStartWith(Indent(depth), ls)
  {
    forall i | 0 <= i < |ls| ensures Indent(depth) <= ls[i] {
      SpacesPrefix(2 * depth, ls[i]);
    }
  }

  lemma HeadingIndented(depth: nat, name: string)
    ensures Indent(depth) <= AssemblyLine(depth, name)
  {
    assert AssemblyLine(depth, name) == Indent(depth) + (AssemblyLabel + name);
  }

  lemma PartLinesIndented(depth: nat, names: seq<string>)
    ensures AllStartWith(Indent(depth + 1), PartLines(depth, names))
  {
    var r := PartLines(depth, names);
    forall i | 0 <= i < |r| ensures Indent(depth + 1) <= r[i] {
      assert r[i] == Indent(depth) + PartLabel + names[i];
      SpacesPrefix(2 * (depth + 1), r[i]);
    }
  }

  /** Every line of a node's block is indented at least as deep as the node,
      and every line after its heading one level deeper. */
  lemma {:induction false} Indented(a: Assembly, depth: nat)
    ensures AllStartWith(Indent(depth), CollectLines(a, depth))
    ensures AllStartWith(Indent(depth + 1), CollectLines(a, depth)[1..])
    decreases a, 1
  {
    SortedChildren(a);
    var r := CollectLines(a, depth);
    var partLines := PartLines(depth, Keys(PartName, Sort(PartName, a.parts)));
    var blocks := CollectBlocks(Sort(AssemblyName, a.children), depth + 1, a);
    PartLinesIndented(depth, Keys(PartName, Sort(PartName, a.parts)));
    BlocksIndented(Sort(AssemblyName, a.children), depth + 1, a);
    AllStartWithConcat(Indent(depth + 1), partLines, blocks);
    TailOfCons(AssemblyLine(depth, a.name), partLines, blocks);
    DeeperIsIndented(depth, partLines + blocks);
    HeadingIndented(depth, a.name);
    HeadAndTailStartWith(Indent(depth), r);
  }

  lemma {:induction false} BlocksIndented(kids: seq<Assembly>, depth: nat, parent: Assembly)
    requires forall k | k in kids :: k in parent.children
    ensures AllStartWith(Indent(depth), CollectBlocks(kids, depth, parent))
    decreases parent, 0, |kids|
  {
    if kids != [] {
      assert kids[0] in kids;
      Indented(kids[0], depth);
      BlocksIndented(kids[1..], depth, parent);
      AllStartWithConcat(Indent(depth), CollectLines(kids[0], depth), CollectBlocks(kids[1..], depth, parent));
    }
  }

  /** Sorting children does not change how many assemblies and parts they
      hold. */
  lemma {:induction false} InsertCounts(x: Assembly, s: seq<Assembly>)
    ensures CountAssembliesIn(Insert(AssemblyName, x, s)) == CountAssemblies(x) + CountAssembliesIn(s)
    ensures CountPartsIn(Insert(AssemblyName, x, s)) == CountParts(x) + CountPartsIn(s)
    decreases |s|
  {
    var r := Insert(AssemblyName, x, s);
    if s == [] || LessEq(x.name, s[0].name) {
      assert r[1..] == s;
    } else {
      InsertCounts(x, s[1..]);
      assert r[1..] == Insert(AssemblyName, x, s[1..]);
    }
  }

  lemma {:induction false} SortCounts(s: seq<Assembly>)
    ensures CountAssembliesIn(Sort(AssemblyName, s)) == CountAssembliesIn(s)
    ensures CountPartsIn(Sort(AssemblyName, s)) == CountPartsIn(s)
    decreases |s|
  {
    if s != [] {
      SortCounts(s[1..]);
      InsertCounts(s[0], Sort(AssemblyName, s[1..]));
    }
  }

  /** One line per assembly and one per part: nothing is dropped or
      repeated. */
  lemma {:induction false} LineCount(a: Assembly, depth: nat)
    ensures |CollectLines(a, depth)| == CountAssemblies(a) + CountParts(a)
    decreases a, 1
  {
    SortedChildren(a);
    BlocksLineCount(Sort(AssemblyName, a.children), depth + 1, a);
    SortCounts(a.children);
  }

  lemma {:induction false} BlocksLineCount(kids: seq<Assembly>, depth: nat, parent: Assembly)
    requires forall k | k in kids :: k in parent.children
    ensures |CollectBlocks(kids, depth, parent)| == CountAssembliesIn(kids) + CountPartsIn(kids)
    decreases parent, 0, |kids|
  {
    if kids != [] {
      assert kids[0] in kids;
      LineCount(kids[0], depth);
      BlocksLineCount(kids[1..], depth, parent);
    }
  }

  /** The part lines of a node come right after its heading, hold exactly the
      names of its parts, and are in nondecreasing order. */
  lemma PartLinesSorted(a: Assembly, depth: nat)
    ensures |a.parts| < |CollectLines(a, depth)|
    ensures var lines := CollectLines(a, depth)[1..1 + |a.parts|];
      && SortedStrings(lines)
      && multiset(lines) == multiset(PartLines(depth, Keys(PartName, a.parts)))
  {
    LineCount(a, depth);
    var parts := Sort(PartName, a.parts);
    var names := Keys(PartName, parts);
    var r := CollectLines(a, depth);
    var lines := r[1..1 + |a.parts|];
    assert lines == PartLines(depth, names);
    var prefix := Indent(depth) + PartLabel;
    forall i, j | 0 <= i < j < |lines| ensures LessEq(lines[i], lines[j]) {
      assert lines[i] == prefix + names[i] && lines[j] == prefix + names[j];
      LessCommonPrefix(prefix, names[i], names[j]);
    }
    PartLinesPermutation(depth, names, Keys(PartName, a.parts));
  }

  /** The lines of several blocks, one block after the other. */
  function Concat(blocks: seq<seq<string>>): seq<string> {
    if blocks == [] then [] else blocks[0] + Concat(blocks[1..])
  }

  /** The block of each assembly, in the given order. */
  function Blocks(kids: seq<Assembly>, depth: nat): (r: seq<seq<string>>)
    ensures |r| == |kids|
  {
    seq(|kids|, i requires 0 <= i < |kids| => CollectLines(kids[i], depth))
  }

  lemma {:induction false} BlocksAreConcat(kids: seq<Assembly>, depth: nat, parent: Assembly)
    requires forall k | k in kids :: k in parent.children
    ensures CollectBlocks(kids, depth, parent) == Concat(Blocks(kids, depth))
    decreases |kids|
  {
    if kids != [] {
      BlocksAreConcat(kids[1..], depth, parent);
      assert Blocks(kids, depth)[1..] == Blocks(kids[1..], depth);
    }
  }

  /** After the heading and the part lines come the children's whole blocks,
      one after the other, every child exactly once, in nondecreasing name
      order. */
  lemma ChildBlocksInOrder(a: Assembly, depth: nat)
    ensures 1 + |a.parts| <= |CollectLines(a, depth)|
    ensures var kids := Sort(AssemblyName, a.children);
      && SortedBy(AssemblyName, kids)
      && multiset(kids) == multiset(a.children)
      && CollectLines(a, depth)[1 + |a.parts|..] == Concat(Blocks(kids, depth + 1))
  {
    SortedChildren(a);
    var kids := Sort(AssemblyName, a.children);
    var head := [AssemblyLine(depth, a.name)];
    var partLines := PartLines(depth, Keys(PartName, Sort(PartName, a.parts)));
    var blocks := CollectBlocks(kids, depth + 1, a);
    assert CollectLines(a, depth) == head + partLines + blocks;
    assert (head + partLines + blocks)[1 + |a.parts|..] == blocks;
    BlocksAreConcat(kids, depth + 1, a);
  }

  /** Part lines of the same names, in any order, form the same multiset. */
  lemma {:induction false} PartLinesPermutation(depth: nat, xs: seq<string>, ys: seq<string>)
    requires multiset(xs) == multiset(ys)
    ensures multiset(PartLines(depth, xs)) == multiset(PartLines(depth, ys))
  {
    var f := (s: string) => Indent(depth) + PartLabel + s;
    KeysOfPermutation(f, xs, ys);
    KeysAsLines(depth, xs);
    KeysAsLines(depth, ys);
  }

  lemma {:induction false} KeysAsLines(depth: nat, xs: seq<string>)
    ensures Keys((s: string) => Indent(depth) + PartLabel + s, xs) == PartLines(depth, xs)
    decreases |xs|
  {
    var f := (s: string) => Indent(depth) + PartLabel + s;
    if xs != [] {
      KeysAsLines(depth, xs[1..]);
      assert PartLines(depth, xs) == [f(xs[0])] + PartLines(depth, xs[1..]);
    }
  }

  /** `b` is `a` with the parts and the children of any of its nodes put in
      another order. Children are matched by name, so two siblings that share
      a name must themselves be interchangeable; when sibling names are
      distinct this is exactly reordering (see PermutationIsReordering). */
  ghost predicate Reordered(a: Assembly, b: Assembly)
    decreases a
  {
    && a.name == b.name
    && multiset(Keys(PartName, a.parts)) == multiset(Keys(PartName, b.parts))
    && multiset(Keys(AssemblyName, a.children)) == multiset(Keys(AssemblyName, b.children))
    && (forall x, y | x in a.children && y in b.children && x.name == y.name :: Reordered(x, y))
  }

  /** The listing does not depend on the order in which the reader inserted
      parts and children at any level. */
  lemma {:induction false} ListingIgnoresOrder(a: Assembly, b: Assembly, depth: nat)
    requires Reordered(a, b)
    ensures CollectLines(a, depth) == CollectLines(b, depth)
    decreases a, 1
  {
    var pa, pb := Sort(PartName, a.parts), Sort(PartName, b.parts);
    SortedUnique(Keys(PartName, pa), Keys(PartName, pb));
    var ca, cb := Sort(AssemblyName, a.children), Sort(AssemblyName, b.children);
    SortedUnique(Keys(AssemblyName, ca), Keys(AssemblyName, cb));
    SortedChildren(a);
    SortedChildren(b);
    BlocksIgnoreOrder(ca, cb, depth + 1, a, b);
  }

  lemma {:induction false} BlocksIgnoreOrder(xs: seq<Assembly>, ys: seq<Assembly>, depth: nat, pa: Assembly, pb: Assembly)
    requires forall k | k in xs :: k in pa.children
    requires forall k | k in ys :: k in pb.children
    requires Keys(AssemblyName, xs) == Keys(AssemblyName, ys)
    requires forall x, y | x in pa.children && y in pb.children && x.name == y.name :: Reordered(x, y)
    ensures CollectBlocks(xs, depth, pa) == CollectBlocks(ys, depth, pb)
    decreases pa, 0, |xs|
  {
    if xs != [] {
      KeysIndex(AssemblyName, xs, 0);
      KeysIndex(AssemblyName, ys, 0);
      assert Keys(AssemblyName, xs)[1..] == Keys(AssemblyName, xs[1..]);
      assert Keys(AssemblyName, ys)[1..] == Keys(AssemblyName, ys[1..]);
      assert xs[0] in xs && ys[0] in ys;
      ListingIgnoresOrder(xs[0], ys[0], depth);
      BlocksIgnoreOrder(xs[1..], ys[1..], depth, pa, pb);
    }
  }

  /** No two children of any node share a name. */
  ghost predicate DistinctSiblings(a: Assembly)
    decreases a
  {
    && (forall i, j | 0 <= i < j < |a.children| :: a.children[i].name != a.children[j].name)
    && (forall c | c in a.children :: DistinctSiblings(c))
  }

  lemma {:induction false} ReorderedReflexive(a: Assembly)
    requires DistinctSiblings(a)
    ensures Reordered(a, a)
    decreases a
  {
    forall x, y | x in a.children && y in a.children && x.name == y.name
      ensures Reordered(x, y)
    {
      var i :| 0 <= i < |a.children| && a.children[i] == x;
      var j :| 0 <= j < |a.children| && a.children[j] == y;
      assert i == j;
      ReorderedReflexive(x);
    }
  }

  /** Putting the parts and the children of a node in any other order is a
      reordering, as long as sibling names are distinct everywhere below it
      (std::sort is not stable, so same-named siblings could swap places). */
  lemma PermutationIsReordering(a: Assembly, b: Assembly)
    requires a.name == b.name
    requires multiset(a.parts) == multiset(b.parts)
    requires multiset(a.children) == multiset(b.children)
    requires DistinctSiblings(a)
    ensures Reordered(a, b)
  {
    KeysOfPermutation(PartName, a.parts, b.parts);
    KeysOfPermutation(AssemblyName, a.children, b.children);
    forall x, y | x in a.children && y in b.children && x.name == y.name
      ensures Reordered(x, y)
    {
      assert y in multiset(b.children);
      var i :| 0 <= i < |a.children| && a.children[i] == x;
      var j :| 0 <= j < |a.children| && a.children[j] == y;
      assert i == j;
      ReorderedReflexive(x);
    }
  }

  /** A top-level heading never reads as the failure line. */
  lemma HeadingIsNotFailure(name: string)
    ensures AssemblyLine(0, name) != OpenFailure
  {
    assert AssemblyLine(0, name)[0] == 'A';
  }

  /** Whether the data source produced a readable stream. */
  predicate Opened(s: Option<Stream>) {
    s.Some? && s.value.good
  }

  /** `list`: log the attempt, open the locator, and either report the
      failure in a single line (without reading anything) or list the tree
      the reader builds from the stream. The log is append-only. */
  function List(source: string -> Option<Stream>, reader: string -> Model, locator: string, log: seq<LogEntry>)
    : (r: (seq<string>, seq<LogEntry>))
    ensures |r.0| >= 1
    ensures |r.1| > |log| && r.1[..|log|] == log
    ensures r.1[|log|] == LogEntry(Info, "Opening locator: " + locator)
    ensures r.0 == [OpenFailure] <==> !Opened(source(locator))
    ensures !Opened(source(locator)) ==>
      r.1 == log + [LogEntry(Info, "Opening locator: " + locator), LogEntry(Error, "Failed to open locator: " + locator)]
    ensures Opened(source(locator)) ==>
      && r.1 == log + [LogEntry(Info, "Opening locator: " + locator)]
      && r.0[0] == AssemblyLabel + reader(source(locator).value.content).root.name
      && |r.0| == CountAssemblies(reader(source(locator).value.content).root)
                + CountParts(reader(source(locator).value.content).root)
  {
    var log' := log + [LogEntry(Info, "Opening locator: " + locator)];
    var stream := source(locator);
    if !Opened(stream) then
      (["ERROR: failed to open locator"], log' + [LogEntry(Error, "Failed to open locator: " + locator)])
    else
      var model := reader(stream.value.content);
      var lines := CollectLines(model.root, 0);
      LineCount(model.root, 0);
      HeadingIsNotFailure(model.root.name);
      (lines, log')
  }
}
