/** The structured-record reader on concrete documents: the reader test's
    three documents, and two that show the less obvious outcomes. */
module JsonScenarios {
  import opened Domain
  import opened Ports
  import opened JsonReader

  // ---------------------------------------------------------------------
  // Root / Engine / Piston

  const RootRec: Record := map["id" := Str("root"), "name" := Str("Root"), "parent_id" := Null]
  const EngineRec: Record := map["id" := Str("engine"), "name" := Str("Engine"), "parent_id" := Str("root")]
  const PistonRec: Record := map["id" := Str("piston"), "name" := Str("Piston"), "assembly_id" := Str("engine")]

  const EngineDoc: Document := Parsed(Some([RootRec, EngineRec]), Some([PistonRec]))

  const Engine: Assembly := Assembly(NoId, "Engine", [], [Part(NoId, "Piston")])

  const Collected: AssemblyMap := map["root" := Scope("Root"), "engine" := Scope("Engine")]
  const WithParts: AssemblyMap := map["root" := Scope("Root"), "engine" := Engine]
  const EngineParents: ParentMap := [("engine", "root")]

  lemma RecordFields()
    ensures Stored(RootRec) && IsStr(RootRec, "id") && IsStr(RootRec, "name") && !HasParent(RootRec)
    ensures RootRec["id"].s == "root" && RootRec["name"].s == "Root"
    ensures Stored(EngineRec) && IsStr(EngineRec, "id") && IsStr(EngineRec, "name") && HasParent(EngineRec)
    ensures IsStr(EngineRec, "parent_id")
    ensures EngineRec["id"].s == "engine" && EngineRec["name"].s == "Engine" && EngineRec["parent_id"].s == "root"
    ensures Placed(PistonRec) && IsStr(PistonRec, "name") && IsStr(PistonRec, "assembly_id")
    ensures PistonRec["name"].s == "Piston" && PistonRec["assembly_id"].s == "engine"
  {
  }

  lemma FirstLoop()
    ensures CollectAssemblies([RootRec, EngineRec]) == Some(Collected)
  {
    RecordFields();
    assert [RootRec, EngineRec][..1] == [RootRec];
    assert [RootRec][..0] == [];
    assert CollectAssemblies([RootRec]) == Some(map["root" := Scope("Root")]);
  }

  lemma SecondLoop()
    ensures AttachParts(Collected, [PistonRec]) == Some(WithParts)
  {
    RecordFields();
    assert [PistonRec][..0] == [];
    assert "engine" in Collected;
    assert Scope("Engine").(parts := Scope("Engine").parts + [Part(NoId, "Piston")]) == Engine;
    assert Collected["engine" := Engine] == WithParts;
  }

  lemma ThirdLoop()
    ensures Link([RootRec, EngineRec], WithParts) == Some((Scope("Root"), EngineParents))
  {
    RecordFields();
    assert [RootRec, EngineRec][..1] == [RootRec];
    assert [RootRec][..0] == [];
    assert Link([RootRec], WithParts) == Some((Scope("Root"), []));
    assert Put([], "engine", "root") == EngineParents;
  }

  lemma EngineResolves()
    ensures Resolve(EngineDoc) == Some(Resolved(WithParts, Scope("Root"), EngineParents))
  {
    FirstLoop();
    SecondLoop();
    ThirdLoop();
  }

  lemma EngineWalk()
    ensures Walk(WithParts, EngineParents, EngineParents, WalkStart, |EngineParents| + 1) == Some([Engine])
  {
    var pm := EngineParents;
    assert pm[1..] == [];
    assert "root" != "engine";
    assert Walk(WithParts, pm, [], "engine", 1) == Some([]);
    assert Walk(WithParts, pm, pm, "engine", 1) == Some([]);
    assert Walk(WithParts, pm, [], "root", 2) == Some([]);
    assert Lookup(WithParts, "engine") == Engine;
    assert Engine.(children := Engine.children + []) == Engine;
    assert [Engine] + [] == [Engine];
    assert pm[0].1 == WalkStart && pm[0].0 == "engine";
    assert |pm| + 1 == 2;
  }

  /** The reader test's first document: Root holds Engine, which holds
      Piston. */
  lemma EngineScenario()
    ensures ReadJson(EngineDoc) == Finished(Model(Assembly(NoId, "Root", [Engine], [])))
  {
    EngineResolves();
    EngineWalk();
  }

  // ---------------------------------------------------------------------
  // Failure and emptiness

  /** `{ invalid json }` does not parse: a bare "Root". */
  lemma InvalidScenario()
    ensures ReadJson(Unparsable) == Finished(Model(Assembly(NoId, "Root", [], [])))
  {
  }

  /** `{}` has neither collection: a bare "Root". */
  lemma EmptyObjectScenario()
    ensures ReadJson(Parsed(None, None)) == Finished(Model(Assembly(NoId, "Root", [], [])))
  {
    assert Resolve(Parsed(None, None)) == Some(Resolved(map[], Scope("Root"), []));
  }

  /** A name that is not a string is a type error: a bare "Root", whatever
      else the document holds. */
  lemma NumericNameScenario()
    ensures ReadJson(Parsed(Some([map["id" := Str("root"), "name" := Other]]), None))
      == Finished(Model(Assembly(NoId, "Root", [], [])))
  {
    var r: Record := map["id" := Str("root"), "name" := Other];
    assert Stored(r) && !IsStr(r, "name");
    assert [r][0] == r;
  }

  // ---------------------------------------------------------------------
  // Cycles and nameless ids

  const SelfRec: Record := map["id" := Str("root"), "parent_id" := Str("root")]

  /** An id that names itself as its parent below "root" sends buildTree
      into endless recursion. */
  lemma SelfParentScenario()
    ensures ReadJson(Parsed(Some([SelfRec]), None)).Diverges?
  {
    var doc := Parsed(Some([SelfRec]), None);
    assert "id" in SelfRec && IsStr(SelfRec, "id") && HasParent(SelfRec) && IsStr(SelfRec, "parent_id");
    assert [SelfRec][..0] == [];
    assert !Stored(SelfRec);
    assert CollectAssemblies([SelfRec]) == Some(map[]);
    assert Link([SelfRec], map[]) == Some((Scope("Root"), [("root", "root")]));
    assert Resolve(doc) == Some(Resolved(map[], Scope("Root"), [("root", "root")]));
    var st := Resolve(doc).value;
    SelfParentDiverges(st.assemblies, st.parents, |st.parents| + 1);
  }

  const NamelessRec: Record := map["id" := Str("x"), "parent_id" := Str("root")]

  const NamelessParents: ParentMap := [("x", "root")]

  lemma NamelessResolves()
    ensures Resolve(Parsed(Some([NamelessRec]), None)) == Some(Resolved(map[], Scope("Root"), NamelessParents))
  {
    assert !Stored(NamelessRec) && "id" in NamelessRec && IsStr(NamelessRec, "id");
    assert HasParent(NamelessRec) && IsStr(NamelessRec, "parent_id");
    assert [NamelessRec][..0] == [];
    assert CollectAssemblies([NamelessRec]) == Some(map[]);
    assert Link([NamelessRec], map[]) == Some((Scope("Root"), NamelessParents));
  }

  lemma NamelessWalk()
    ensures Walk(map[], NamelessParents, NamelessParents, WalkStart, |NamelessParents| + 1) == Some([DefaultAssembly])
  {
    var pm := NamelessParents;
    assert pm[1..] == [];
    assert "root" != "x";
    assert Walk(map[], pm, [], "x", 1) == Some([]);
    assert Walk(map[], pm, pm, "x", 1) == Some([]);
    assert Walk(map[], pm, [], WalkStart, 2) == Some([]);
    assert DefaultAssembly.(children := DefaultAssembly.children + []) == DefaultAssembly;
    assert [DefaultAssembly] + [] == [DefaultAssembly];
    assert pm[0].1 == WalkStart && pm[0].0 == "x";
  }

  /** A child id without a stored assembly still appears, as a default
      assembly with an empty name. */
  lemma NamelessChildScenario()
    ensures ReadJson(Parsed(Some([NamelessRec]), None))
      == Finished(Model(Assembly(NoId, "Root", [Assembly(NoId, "", [], [])], [])))
  {
    NamelessResolves();
    NamelessWalk();
  }
}
