/** Concrete inputs from the repository's tests, worked through the model. */
module Scenarios {
  import opened Text
  import opened Domain
  import opened Ports
  import Formatter
  import TaggedReader
  import DataSource
  import Listing
  import Seqs
  import Sorting

  /** A tag line: the tag, one space, the name. */
  function Tagged(tag: string, name: string): string {
    tag + " " + name
  }

  lemma TaggedTrimmed(tag: string, name: string)
    requires tag != "" && Trimmed(tag) && name != "" && Trimmed(name)
    ensures Trimmed(Tagged(tag, name))
  {
    var line := Tagged(tag, name);
    assert line[0] == tag[0];
    assert line[|line| - 1] == name[|name| - 1];
  }

  lemma TrimTrimmed(line: string)
    requires Trimmed(line)
    ensures Trim(line) == line
  {
    TrimOfPadded("", line, "");
    assert "" + line + "" == line;
  }

  lemma TrimSpaced(name: string)
    requires Trimmed(name)
    ensures Trim(" " + name) == name
  {
    TrimOfPadded(" ", name, "");
    assert " " + name + "" == " " + name;
  }

  lemma ClassifyAssembly(name: string)
    requires name != "" && Trimmed(name)
    ensures TaggedReader.Classify(Tagged(TaggedReader.AssemblyTag, name)) == TaggedReader.OpenScope(name)
  {
    var line := Tagged(TaggedReader.AssemblyTag, name);
    TaggedTrimmed(TaggedReader.AssemblyTag, name);
    TrimTrimmed(line);
    assert line[..|TaggedReader.AssemblyTag|] == TaggedReader.AssemblyTag;
    assert line[|TaggedReader.AssemblyTag|..] == " " + name;
    TrimSpaced(name);
  }

  lemma ClassifyPart(name: string)
    requires name != "" && Trimmed(name)
    ensures TaggedReader.Classify(Tagged(TaggedReader.PartTag, name)) == TaggedReader.AddPart(name)
  {
    var line := Tagged(TaggedReader.PartTag, name);
    TaggedTrimmed(TaggedReader.PartTag, name);
    TrimTrimmed(line);
    assert line[..|TaggedReader.PartTag|] == TaggedReader.PartTag;
    assert line[|TaggedReader.PartTag|..] == " " + name;
    TrimSpaced(name);
    assert !(TaggedReader.AssemblyTag <= line) by {
      assert line[0] == 'P';
    }
  }

  /** An assembly with the given parts and no children. */
  function Leaf(name: string, p1: string, p2: string): Assembly {
    Assembly(NoId, name, [], [Part(NoId, p1), Part(NoId, p2)])
  }

  /** The lines of one closed assembly block with two parts. */
  function Block(name: string, p1: string, p2: string): seq<string> {
    [Tagged(TaggedReader.AssemblyTag, name)]
      + ([Tagged(TaggedReader.PartTag, p1)] + ([Tagged(TaggedReader.PartTag, p2)] + [TaggedReader.EndTag]))
  }

  /** One line of each kind, read in front of the rest of the input. */
  lemma RunOpen(stack: seq<Assembly>, l: string, name: string, rest: seq<string>)
    requires |stack| >= 1
    requires TaggedReader.Classify(l) == TaggedReader.OpenScope(name)
    ensures TaggedReader.Run(stack, [l] + rest) == TaggedReader.Run(stack + [Scope(name)], rest)
  {
    assert ([l] + rest)[1..] == rest;
  }

  lemma RunAdd(stack: seq<Assembly>, top: Assembly, l: string, p: string, rest: seq<string>)
    requires TaggedReader.Classify(l) == TaggedReader.AddPart(p)
    ensures TaggedReader.Run(stack + [top], [l] + rest)
      == TaggedReader.Run(stack + [top.(parts := top.parts + [Part(NoId, p)])], rest)
  {
    assert ([l] + rest)[1..] == rest;
    var s := stack + [top];
    assert s[..|s| - 1] == stack;
  }

  lemma RunClose(stack: seq<Assembly>, top: Assembly, l: string)
    requires |stack| >= 1
    requires TaggedReader.Classify(l) == TaggedReader.CloseScope
    ensures TaggedReader.Run(stack + [top], [l])
      == stack[..|stack| - 1] + [Attach(stack[|stack| - 1], top)]
  {
    RunOne(stack + [top], l);
    ClosePushed(stack, top);
  }

  lemma RunOne(stack: seq<Assembly>, l: string)
    requires |stack| >= 1
    ensures TaggedReader.Run(stack, [l]) == TaggedReader.Step(stack, l)
  {
    assert [l][1..] == [];
  }

  lemma ClosePushed(stack: seq<Assembly>, top: Assembly)
    requires |stack| >= 1
    ensures TaggedReader.CloseTop(stack + [top]) == stack[..|stack| - 1] + [Attach(stack[|stack| - 1], top)]
  {
    Seqs.PushPrefix(stack, top);
  }


  lemma LeafParts(name: string, p1: string, p2: string)
    ensures var a0 := Scope(name);
      var a1 := a0.(parts := a0.parts + [Part(NoId, p1)]);
      a1.(parts := a1.parts + [Part(NoId, p2)]) == Leaf(name, p1, p2)
  {
  }

  /** Reading a closed block attaches it, parts in order, to the innermost
      open scope. */
  lemma BlockRun(stack: seq<Assembly>, name: string, p1: string, p2: string)
    requires |stack| >= 1
    requires name != "" && Trimmed(name) && p1 != "" && Trimmed(p1) && p2 != "" && Trimmed(p2)
    ensures TaggedReader.Run(stack, Block(name, p1, p2))
      == stack[..|stack| - 1] + [Attach(stack[|stack| - 1], Leaf(name, p1, p2))]
  {
    ClassifyAssembly(name);
    ClassifyPart(p1);
    ClassifyPart(p2);
    TaggedReader.EndTagCloses();
    ReadBlock(stack, Tagged(TaggedReader.AssemblyTag, name), Tagged(TaggedReader.PartTag, p1),
      Tagged(TaggedReader.PartTag, p2), TaggedReader.EndTag, name, p1, p2);
  }

  lemma ReadBlock(stack: seq<Assembly>, l0: string, l1: string, l2: string, l3: string,
                  name: string, p1: string, p2: string)
    requires |stack| >= 1
    requires TaggedReader.Classify(l0) == TaggedReader.OpenScope(name)
    requires TaggedReader.Classify(l1) == TaggedReader.AddPart(p1)
    requires TaggedReader.Classify(l2) == TaggedReader.AddPart(p2)
    requires TaggedReader.Classify(l3) == TaggedReader.CloseScope
    ensures TaggedReader.Run(stack, [l0] + ([l1] + ([l2] + [l3])))
      == stack[..|stack| - 1] + [Attach(stack[|stack| - 1], Leaf(name, p1, p2))]
  {
    var a0 := Scope(name);
    var a1 := a0.(parts := a0.parts + [Part(NoId, p1)]);
    var a2 := a1.(parts := a1.parts + [Part(NoId, p2)]);
    LeafParts(name, p1, p2);
    RunOpen(stack, l0, name, [l1] + ([l2] + [l3]));
    RunAdd(stack, a0, l1, p1, [l2] + [l3]);
    RunAdd(stack, a1, l2, p2, [l3]);
    RunClose(stack, a2, l3);
  }

  /** Content ending in a line feed is read as the lines it terminates. */
  lemma TerminatedLines(lines: seq<string>)
    requires |lines| >= 1 && forall k | 0 <= k < |lines| :: '\n' !in lines[k]
    ensures TaggedReader.GetLines(Formatter.JoinLines(lines) + "\n") == lines
  {
    var content := Formatter.JoinLines(lines) + "\n";
    assert content[..|content| - 1] == Formatter.JoinLines(lines);
    Formatter.SplitJoin(lines);
  }

  /** The use-case test's input: a block B with parts B2, B1, then a block A
      with parts A2, A1, every line ended by a line feed. */
  const BALines: seq<string> := Block("B", "B2", "B1") + Block("A", "A2", "A1")

  function BAContent(): string {
    Formatter.JoinLines(BALines) + "\n"
  }

  /** No line of a block holds a line feed. */
  lemma BlockLines(name: string, p1: string, p2: string)
    requires '\n' !in name && '\n' !in p1 && '\n' !in p2
    ensures |Block(name, p1, p2)| == 4
    ensures forall k | 0 <= k < 4 :: '\n' !in Block(name, p1, p2)[k]
  {
    var b := Block(name, p1, p2);
    assert b[0] == TaggedReader.AssemblyTag + " " + name;
    assert b[1] == TaggedReader.PartTag + " " + p1;
    assert b[2] == TaggedReader.PartTag + " " + p2;
    assert b[3] == TaggedReader.EndTag;
  }

  lemma BALinesRead()
    ensures TaggedReader.GetLines(BAContent()) == BALines
  {
    BlockLines("B", "B2", "B1");
    BlockLines("A", "A2", "A1");
    forall k | 0 <= k < |BALines| ensures '\n' !in BALines[k] {
      if k >= 4 {
        assert BALines[k] == Block("A", "A2", "A1")[k - 4];
      }
    }
    TerminatedLines(BALines);
  }

  /** A block read with only the root open becomes the root's last child. */
  lemma BlockUnderRoot(root: Assembly, name: string, p1: string, p2: string)
    requires name != "" && Trimmed(name) && p1 != "" && Trimmed(p1) && p2 != "" && Trimmed(p2)
    ensures TaggedReader.Run([root], Block(name, p1, p2)) == [Attach(root, Leaf(name, p1, p2))]
  {
    BlockRun([root], name, p1, p2);
    assert [root][..0] == [];
  }

  /** A one-character name other than whitespace is trimmed. */
  lemma ShortNames()
    ensures Trimmed("A") && Trimmed("B")
    ensures Trimmed("A1") && Trimmed("A2") && Trimmed("B1") && Trimmed("B2")
  {
  }

  lemma BAFirstBlock()
    ensures TaggedReader.Run(TaggedReader.Start, Block("B", "B2", "B1"))
      == [Attach(Scope("Root"), Leaf("B", "B2", "B1"))]
  {
    ShortNames();
    BlockUnderRoot(Scope("Root"), "B", "B2", "B1");
  }

  lemma BASecondBlock()
    ensures TaggedReader.Run([Attach(Scope("Root"), Leaf("B", "B2", "B1"))], Block("A", "A2", "A1"))
      == [Attach(Attach(Scope("Root"), Leaf("B", "B2", "B1")), Leaf("A", "A2", "A1"))]
  {
    ShortNames();
    BlockUnderRoot(Attach(Scope("Root"), Leaf("B", "B2", "B1")), "A", "A2", "A1");
  }

  /** Reading both blocks from the start leaves only the root open, holding
      B then A. */
  lemma BARun()
    ensures TaggedReader.Run(TaggedReader.Start, BALines) == [BARoot]
  {
    BAFirstBlock();
    BASecondBlock();
    TaggedReader.RunAppend(TaggedReader.Start, Block("B", "B2", "B1"), Block("A", "A2", "A1"));
  }

  /** The tree read from the use-case test's input. */
  const BARoot: Assembly := Attach(Attach(Scope("Root"), Leaf("B", "B2", "B1")), Leaf("A", "A2", "A1"))

  /** The reader keeps insertion order: Root holds B then A, each with its
      parts as written. */
  lemma BAReadScenario()
    ensures TaggedReader.Read(BAContent()).root == BARoot
    ensures BARoot == Assembly(NoId, "Root", [Leaf("B", "B2", "B1"), Leaf("A", "A2", "A1")], [])
  {
    AttachTwo("Root", Leaf("B", "B2", "B1"), Leaf("A", "A2", "A1"));
    BALinesRead();
    BARun();
    CloseOne(BARoot);
    ReadSteps(BAContent(), BALines, [BARoot]);
  }

  /** Two children attached in turn to a fresh scope. */
  lemma AttachTwo(name: string, x: Assembly, y: Assembly)
    ensures Attach(Attach(Scope(name), x), y) == Assembly(NoId, name, [x, y], [])
  {
    var a := Attach(Scope(name), x);
    assert a.children == [x];
    assert a.children + [y] == [x, y];
  }

  /** Two scopes left open at the end of input nest innermost first:
      Root{A{B}}, not Root{A, B}. */
  lemma OpenScopesNest()
    ensures var root := TaggedReader.CloseAll([Scope("Root"), Scope("A"), Scope("B")]);
      && |root.children| == 1 && root.children[0].name == "A"
      && root.children[0].children == [Scope("B")]
  {
    TaggedReader.CloseAllNests([Scope("Root"), Scope("A"), Scope("B")]);
    assert [Scope("Root"), Scope("A"), Scope("B")][1..] == [Scope("A"), Scope("B")];
    assert [Scope("A"), Scope("B")][1..] == [Scope("B")];
  }

  /** Only the root open: closing gives the root. */
  lemma CloseOne(root: Assembly)
    ensures TaggedReader.CloseAll([root]) == root
  {
  }

  lemma ReadSteps(content: string, lines: seq<string>, stack: seq<Assembly>)
    requires TaggedReader.GetLines(content) == lines
    requires TaggedReader.Run(TaggedReader.Start, lines) == stack
    ensures TaggedReader.Read(content).root == TaggedReader.CloseAll(stack)
  {
  }


  lemma SortOne<T>(key: T -> string, y: T)
    ensures Sorting.Sort(key, [y]) == [y]
  {
    assert [y][1..] == [];
  }

  lemma InsertAfter<T>(key: T -> string, x: T, y: T)
    requires !LessEq(key(x), key(y))
    ensures Sorting.Insert(key, x, [y]) == [y, x]
  {
    assert [y][1..] == [];
  }

  /** Two elements out of key order come out of the sort swapped. */
  lemma SortTwo<T>(key: T -> string, x: T, y: T)
    requires Less(key(y), key(x))
    ensures Sorting.Sort(key, [x, y]) == [y, x]
  {
    LessAsymmetric(key(y), key(x));
    LessIrreflexive(key(x));
    SortOne(key, y);
    InsertAfter(key, x, y);
    assert [x, y][1..] == [y];
  }

  /** A leaf lists its heading and then its two parts, in name order. */
  lemma LeafLines(name: string, p1: string, p2: string, depth: nat)
    requires Less(p2, p1)
    ensures Listing.CollectLines(Leaf(name, p1, p2), depth)
      == [Listing.AssemblyLine(depth, name),
          Listing.Indent(depth) + Listing.PartLabel + p2,
          Listing.Indent(depth) + Listing.PartLabel + p1]
  {
    SortTwo(Listing.PartName, Part(NoId, p1), Part(NoId, p2));
    KeysTwo(Listing.PartName, Part(NoId, p2), Part(NoId, p1));
    NoBlocks(Leaf(name, p1, p2), depth + 1);
    Regroup3(Listing.AssemblyLine(depth, name), Listing.PartLines(depth, [p2, p1]));
  }

  lemma KeysTwo<T>(key: T -> string, a: T, b: T)
    ensures Sorting.Keys(key, [a, b]) == [key(a), key(b)]
  {
    assert [a, b][1..] == [b] && [b][1..] == [];
  }

  lemma Regroup3<T>(h: T, ls: seq<T>)
    requires |ls| == 2
    ensures [h] + ls + [] == [h, ls[0], ls[1]]
  {
  }

  /** A childless assembly has no blocks under it. */
  lemma NoBlocks(a: Assembly, depth: nat)
    requires a.children == []
    ensures Sorting.Sort(Listing.AssemblyName, a.children) == []
    ensures Listing.CollectBlocks([], depth, a) == []
  {
  }


  /** The blocks of two siblings, one after the other. */
  lemma TwoBlocks(y: Assembly, x: Assembly, depth: nat, parent: Assembly)
    requires y in parent.children && x in parent.children
    ensures Listing.CollectBlocks([y, x], depth, parent)
      == Listing.CollectLines(y, depth) + Listing.CollectLines(x, depth)
  {
    assert [y, x][1..] == [x];
    OneBlock(x, depth, parent);
  }

  lemma OneBlock(x: Assembly, depth: nat, parent: Assembly)
    requires x in parent.children
    ensures Listing.CollectBlocks([x], depth, parent) == Listing.CollectLines(x, depth)
  {
    assert [x][1..] == [];
    assert Listing.CollectLines(x, depth) + [] == Listing.CollectLines(x, depth);
  }


  lemma Regroup<T>(h: seq<T>, a: seq<T>, b: seq<T>)
    ensures h + [] + (a + b) == h + a + b
  {
  }

  /** A root with two childless children out of name order lists its
      heading, then the second child's block, then the first's. */
  lemma RootLines(root: Assembly, x: Assembly, y: Assembly)
    requires root.children == [x, y] && root.parts == []
    requires Less(y.name, x.name)
    ensures Listing.CollectLines(root, 0)
      == [Listing.AssemblyLine(0, root.name)] + Listing.CollectLines(y, 1) + Listing.CollectLines(x, 1)
  {
    SortTwo(Listing.AssemblyName, x, y);
    assert Sorting.Sort(Listing.PartName, root.parts) == [];
    assert Listing.PartLines(0, Sorting.Keys(Listing.PartName, [])) == [];
    TwoBlocks(y, x, 1, root);
    assert Listing.CollectLines(root, 0)
      == [Listing.AssemblyLine(0, root.name)] + [] + Listing.CollectBlocks([y, x], 1, root);
    Regroup([Listing.AssemblyLine(0, root.name)], Listing.CollectLines(y, 1), Listing.CollectLines(x, 1));
  }

  lemma IndentLiterals()
    ensures Listing.Indent(0) == "" && Listing.Indent(1) == "  "
  {
  }

  lemma BARootShape()
    ensures BARoot.children == [Leaf("B", "B2", "B1"), Leaf("A", "A2", "A1")] && BARoot.parts == []
    ensures BARoot.name == "Root"
  {
  }

  lemma NameOrder()
    ensures Less("A", "B") && Less("A1", "A2") && Less("B1", "B2")
  {
    assert Less("1", "2");
  }

  /** The lines of a leaf at depth one, spelled out. */
  lemma LeafLiterals(name: string, p1: string, p2: string)
    requires Less(p2, p1)
    ensures Listing.CollectLines(Leaf(name, p1, p2), 1)
      == ["  Assembly: " + name, "    Part: " + p2, "    Part: " + p1]
  {
    LeafLines(name, p1, p2, 1);
    IndentLiterals();
    LabelLiterals();
  }

  lemma LabelLiterals()
    ensures "  " + Listing.AssemblyLabel == "  Assembly: "
    ensures "  " + Listing.PartLabel == "    Part: "
    ensures "" + Listing.AssemblyLabel + "Root" == "Assembly: Root"
  {
  }

  lemma BALiterals()
    ensures "  Assembly: " + "A" == "  Assembly: A" && "    Part: " + "A1" == "    Part: A1"
    ensures "    Part: " + "A2" == "    Part: A2"
    ensures "  Assembly: " + "B" == "  Assembly: B" && "    Part: " + "B1" == "    Part: B1"
    ensures "    Part: " + "B2" == "    Part: B2"
  {
  }

  lemma SevenLines<T>(a: T, b: T, c: T, d: T, e: T, f: T, g: T)
    ensures [a] + [b, c, d] + [e, f, g] == [a, b, c, d, e, f, g]
  {
  }

  /** The listing sorts children and parts by name at every level. */
  lemma BAListing()
    ensures Listing.CollectLines(BARoot, 0)
      == ["Assembly: Root", "  Assembly: A", "    Part: A1", "    Part: A2",
          "  Assembly: B", "    Part: B1", "    Part: B2"]
  {
    BARootShape();
    NameOrder();
    IndentLiterals();
    RootLines(BARoot, Leaf("B", "B2", "B1"), Leaf("A", "A2", "A1"));
    LabelLiterals();
    assert Listing.AssemblyLine(0, "Root") == "Assembly: Root";
    LeafLiterals("A", "A2", "A1");
    LeafLiterals("B", "B2", "B1");
    BALiterals();
    SevenLines("Assembly: Root", "  Assembly: A", "    Part: A1", "    Part: A2",
      "  Assembly: B", "    Part: B1", "    Part: B2");
  }

  /** The in-memory source of the use-case test. */
  function TestStore(): DataSource.Store {
    DataSource.Register(DataSource.Empty, "mem:test", BAContent())
  }

  function TestSource(): string -> Option<Stream> {
    (l: string) => DataSource.Open(TestStore(), l)
  }

  /** A locator that opens lists the tree the reader makes of its content. */
  lemma ListOpened(source: string -> Option<Stream>, reader: string -> Model, locator: string,
                   content: string, root: Assembly)
    requires source(locator) == Some(Stream(content, true))
    requires reader(content).root == root
    ensures Listing.List(source, reader, locator, [])
      == (Listing.CollectLines(root, 0), [LogEntry(Info, "Opening locator: " + locator)])
  {
  }

  lemma TestSourceOpens()
    ensures TestSource()("mem:test") == Some(Stream(BAContent(), true))
  {
  }

  lemma LocatorLiterals()
    ensures "Opening locator: " + "mem:test" == "Opening locator: mem:test"
    ensures "Opening locator: " + "mem:missing" == "Opening locator: mem:missing"
    ensures "Failed to open locator: " + "mem:missing" == "Failed to open locator: mem:missing"
  {
  }

  /** The use-case test: the listing of the registered content, and only the
      opening notice in the log. */
  lemma ListScenario()
    ensures Listing.List(TestSource(), TaggedReader.Read, "mem:test", [])
      == (["Assembly: Root", "  Assembly: A", "    Part: A1", "    Part: A2",
           "  Assembly: B", "    Part: B1", "    Part: B2"],
          [LogEntry(Info, "Opening locator: mem:test")])
  {
    BAReadScenario();
    assert TaggedReader.Read(BAContent()).root == BARoot;
    TestSourceOpens();
    ListOpened(TestSource(), TaggedReader.Read, "mem:test", BAContent(), BARoot);
    BAListing();
    LocatorLiterals();
  }

  /** The missing-locator test: one error line, and the failure in the log
      after the opening notice. */
  lemma MissingLocatorScenario()
    ensures Listing.List(TestSource(), TaggedReader.Read, "mem:missing", [])
      == (["ERROR: failed to open locator"],
          [LogEntry(Info, "Opening locator: mem:missing"), LogEntry(Error, "Failed to open locator: mem:missing")])
  {
    assert "mem:missing" != "mem:test" by { assert "mem:missing"[4] != "mem:test"[4]; }
    assert DataSource.Open(DataSource.Empty, "mem:missing") == None;
    assert TestSource()("mem:missing") == None;
    LocatorLiterals();
  }

  /** Registered empty content lists the bare root. */
  lemma EmptyContentScenario()
    ensures Listing.List((l: string) => DataSource.Open(DataSource.Register(DataSource.Empty, "mem:empty", ""), l),
                         TaggedReader.Read, "mem:empty", []).0
      == ["Assembly: Root"]
  {
    var source := (l: string) => DataSource.Open(DataSource.Register(DataSource.Empty, "mem:empty", ""), l);
    assert source("mem:empty") == Some(Stream("", true));
    assert TaggedReader.Read("").root == Scope("Root");
    ListOpened(source, TaggedReader.Read, "mem:empty", "", Scope("Root"));
    BareListing("Root");
    LabelLiterals();
  }

  /** An assembly with nothing under it lists as its heading alone. */
  lemma BareListing(name: string)
    ensures Listing.CollectLines(Scope(name), 0) == [Listing.AssemblyLine(0, name)]
  {
    assert Sorting.Sort(Listing.PartName, []) == [];
    assert Sorting.Sort(Listing.AssemblyName, []) == [];
    assert Listing.PartLines(0, Sorting.Keys(Listing.PartName, [])) == [];
  }
}
