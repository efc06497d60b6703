/** The canonical assembly tree every reader produces.

    Children and parts are held by value, so an assembly is a finite tree:
    no sub-assembly is shared or cyclic, and attaching a child attaches a
    snapshot that later edits of the reader's working state cannot reach. */
module Domain {

  /** Identifiers.hpp is not part of this model: identifiers are strings, and
      a default-constructed identifier is the empty string. No reader assigns
      one. */
  type AssemblyId = string
  type PartId = string

  const NoId: string := ""

  /** A leaf: an identifier and a display name (any string, possibly empty). */
  datatype Part = Part(id: PartId, name: string)

  /** A node: name, ordered child assemblies and ordered parts. */
  datatype Assembly = Assembly(id: AssemblyId, name: string, children: seq<Assembly>, parts: seq<Part>)

  /** One read's result: a single root. */
  datatype Model = Model(root: Assembly)

  /** A fresh assembly with the given name and nothing under it. */
  function Scope(name: string): (a: Assembly)
    ensures a.name == name && a.children == [] && a.parts == []
  {
    Assembly(NoId, name, [], [])
  }

  /** A default-constructed Assembly: empty name, no children, no parts. */
  const DefaultAssembly: Assembly := Scope("")

  /** `parent` with `child` appended as its last child. */
  function Attach(parent: Assembly, child: Assembly): (r: Assembly)
    ensures r.name == parent.name && r.parts == parent.parts
    ensures r.children == parent.children + [child]
  {
    parent.(children := parent.children + [child])
  }

  /** Number of assemblies in the tree, the node itself included. */
  function CountAssemblies(a: Assembly): nat {
    1 + CountAssembliesIn(a.children)
  }

  function CountAssembliesIn(cs: seq<Assembly>): nat {
    if cs == [] then 0 else CountAssemblies(cs[0]) + CountAssembliesIn(cs[1..])
  }

  /** Number of parts anywhere in the tree. */
  function CountParts(a: Assembly): nat {
    |a.parts| + CountPartsIn(a.children)
  }

  function CountPartsIn(cs: seq<Assembly>): nat {
    if cs == [] then 0 else CountParts(cs[0]) + CountPartsIn(cs[1..])
  }

  lemma {:induction false} CountsAppend(xs: seq<Assembly>, ys: seq<Assembly>)
    ensures CountAssembliesIn(xs + ys) == CountAssembliesIn(xs) + CountAssembliesIn(ys)
    ensures CountPartsIn(xs + ys) == CountPartsIn(xs) + CountPartsIn(ys)
    decreases |xs|
  {
    if xs != [] {
      assert (xs + ys)[1..] == xs[1..] + ys;
      CountsAppend(xs[1..], ys);
    } else {
      assert xs + ys == ys;
    }
  }

  lemma CountsSingleton(x: Assembly)
    ensures CountAssembliesIn([x]) == CountAssemblies(x)
    ensures CountPartsIn([x]) == CountParts(x)
  {
    assert [x][1..] == [];
  }

  /** Counts over a sequence split off its last element. */
  lemma CountsSnoc(xs: seq<Assembly>, x: Assembly)
    ensures CountAssembliesIn(xs + [x]) == CountAssembliesIn(xs) + CountAssemblies(x)
    ensures CountPartsIn(xs + [x]) == CountPartsIn(xs) + CountParts(x)
  {
    CountsAppend(xs, [x]);
    CountsSingleton(x);
  }

  /** Attaching a child adds the child's whole subtree to the parent's counts. */
  lemma AttachCounts(parent: Assembly, child: Assembly)
    ensures CountAssemblies(Attach(parent, child)) == CountAssemblies(parent) + CountAssemblies(child)
    ensures CountParts(Attach(parent, child)) == CountParts(parent) + CountParts(child)
  {
    CountsSnoc(parent.children, child);
  }
}
