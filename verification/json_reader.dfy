/** The structured-record reader (JsonCadModelReaderAdapter), from the parsed
    document on. JSON syntax is not modelled: the input is the document the
    parser produced, or the fact that parsing failed.

    A record is an object's fields. A field can be absent (the key is not in
    the map), null, a string, or anything else; an array element that is not
    an object has no fields at all. Converting a field that is not a string
    to a string raises a type error, which the reader catches like a parse
    error and answers with a bare "Root". */
module JsonReader {
  import opened Text
  import opened Domain
  import opened Ports

  datatype Value = Null | Str(s: string) | Other

  type Record = map<string, Value>

  /** A collection is None when the key is absent, when its value is not an
      array, or when the document itself is not an object. */
  datatype Document =
    | Unparsable
    | Parsed(assemblies: Option<seq<Record>>, parts: Option<seq<Record>>)

  /** The reader either returns a model or recurses without end. */
  datatype Outcome = Finished(model: Model) | Diverges

  const RootName: string := "Root"
  const WalkStart: string := "root"

  /** What every failure returns: a root named "Root" and nothing under it. */
  const BareModel: Model := Model(Scope(RootName))

  /** The records of a collection; a missing one has none. */
  function Records(c: Option<seq<Record>>): seq<Record> {
    if c.Some? then c.value else []
  }

  /** Whether a field is present and holds a string. */
  predicate IsStr(r: Record, key: string) {
    key in r && r[key].Str?
  }

  // ---------------------------------------------------------------------
  // Loop 1: the assembly map

  type AssemblyMap = map<string, Assembly>

  /** `assemblyMap[id]`: the stored entry, or a default assembly (empty name,
      no children, no parts) for an id that has none. */
  function Lookup(m: AssemblyMap, id: string): (a: Assembly)
    ensures id in m ==> a == m[id]
    ensures id !in m ==> a == DefaultAssembly
  {
    if id in m then m[id] else DefaultAssembly
  }

  /** The first loop takes a record only when it has both an id and a name. */
  predicate Stored(r: Record) {
    "id" in r && "name" in r
  }

  /** The assembly map after the first loop: one fresh assembly per stored
      record, a later record overwriting an earlier one with the same id.
      None when a stored record's id or name is not a string. */
  function CollectAssemblies(recs: seq<Record>): (m: Option<AssemblyMap>)
    ensures m.Some? <==> forall i | 0 <= i < |recs| && Stored(recs[i]) :: IsStr(recs[i], "id") && IsStr(recs[i], "name")
    decreases |recs|
  {
    if recs == [] then Some(map[])
    else
      var init, r := recs[..|recs| - 1], recs[|recs| - 1];
      var prior := CollectAssemblies(init);
      assert forall i | 0 <= i < |init| :: init[i] == recs[i];
      if prior.None? then None
      else if !Stored(r) then prior
      else if !IsStr(r, "name") || !IsStr(r, "id") then None
      else Some(prior.value[r["id"].s := Scope(r["name"].s)])
  }

  /** Record `i` is a stored record for `id`. */
  predicate StoredAs(recs: seq<Record>, i: int, id: string)
    requires 0 <= i < |recs|
  {
    Stored(recs[i]) && recs[i]["id"] == Str(id)
  }

  /** The map holds an entry for exactly the ids of stored records. */
  lemma {:induction false} CollectedIds(recs: seq<Record>, id: string)
    requires CollectAssemblies(recs).Some?
    ensures id in CollectAssemblies(recs).value <==> exists i | 0 <= i < |recs| :: StoredAs(recs, i, id)
    decreases |recs|
  {
    if recs != [] {
      var init := recs[..|recs| - 1];
      assert forall i | 0 <= i < |init| :: init[i] == recs[i];
      CollectedIds(init, id);
      if !StoredAs(recs, |recs| - 1, id) {
        if exists i | 0 <= i < |recs| :: StoredAs(recs, i, id) {
          var i :| 0 <= i < |recs| && StoredAs(recs, i, id);
          assert StoredAs(init, i, id);
        }
        if exists i | 0 <= i < |init| :: StoredAs(init, i, id) {
          var i :| 0 <= i < |init| && StoredAs(init, i, id);
          assert StoredAs(recs, i, id);
        }
      }
    }
  }

  /** The entry for an id is a fresh assembly named by the last stored
      record for that id: later records overwrite earlier ones. */
  lemma {:induction false} CollectedEntry(recs: seq<Record>, id: string, i: nat)
    requires CollectAssemblies(recs).Some?
    requires i < |recs| && StoredAs(recs, i, id)
    requires forall j | i < j < |recs| :: !StoredAs(recs, j, id)
    ensures id in CollectAssemblies(recs).value
    ensures CollectAssemblies(recs).value[id] == Scope(recs[i]["name"].s)
    decreases |recs|
  {
    if i < |recs| - 1 {
      var init := recs[..|recs| - 1];
      assert forall k | 0 <= k < |init| :: init[k] == recs[k];
      assert !StoredAs(recs, |recs| - 1, id);
      forall j | i < j < |init| ensures !StoredAs(init, j, id) {
        assert !StoredAs(recs, j, id);
      }
      CollectedEntry(init, id, i);
    }
  }

  // ---------------------------------------------------------------------
  // Loop 2: attaching parts

  /** The second loop takes a part record only when it has an id, a name and
      an assembly id. The part's own id is never read. */
  predicate Placed(r: Record) {
    "id" in r && "name" in r && "assembly_id" in r
  }

  /** The map after the second loop: each placed part, in document order,
      appended to the parts of the assembly it names, when the map has that
      assembly. None when a placed record's name or assembly id is not a
      string. No id is added or removed. */
  function AttachParts(m: AssemblyMap, recs: seq<Record>): (r: Option<AssemblyMap>)
    ensures r.Some? <==>
      forall i | 0 <= i < |recs| && Placed(recs[i]) :: IsStr(recs[i], "name") && IsStr(recs[i], "assembly_id")
    ensures r.Some? ==> r.value.Keys == m.Keys
    decreases |recs|
  {
    if recs == [] then Some(m)
    else
      var init, p := recs[..|recs| - 1], recs[|recs| - 1];
      var prior := AttachParts(m, init);
      assert forall i | 0 <= i < |init| :: init[i] == recs[i];
      if prior.None? then None
      else if !Placed(p) then prior
      else if !IsStr(p, "name") || !IsStr(p, "assembly_id") then None
      else
        var mm, aid := prior.value, p["assembly_id"].s;
        if aid in mm then Some(mm[aid := mm[aid].(parts := mm[aid].parts + [Part(NoId, p["name"].s)])])
        else prior
  }

  /** The parts the records assign to `id`, in document order. */
  function PartsFor(recs: seq<Record>, id: string): seq<Part>
    decreases |recs|
  {
    if recs == [] then []
    else
      var p := recs[|recs| - 1];
      PartsFor(recs[..|recs| - 1], id)
        + (if Placed(p) && p["assembly_id"] == Str(id) && IsStr(p, "name") then [Part(NoId, p["name"].s)] else [])
  }

  /** Every assembly of the map gets exactly the parts assigned to its id, in
      document order, after the ones it had; parts naming an id the map does
      not hold are dropped. */
  lemma {:induction false} AttachedParts(m: AssemblyMap, recs: seq<Record>, id: string)
    requires AttachParts(m, recs).Some?
    requires id in m
    ensures AttachParts(m, recs).value[id] == m[id].(parts := m[id].parts + PartsFor(recs, id))
    decreases |recs|
  {
    if recs == [] {
      assert m[id].parts + [] == m[id].parts;
    } else {
      var init := recs[..|recs| - 1];
      assert forall i | 0 <= i < |init| :: init[i] == recs[i];
      AttachedParts(m, init, id);
    }
  }

  // ---------------------------------------------------------------------
  // Loop 3: root selection and the parent map

  /** A record names a parent when `parent_id` is present and not null. */
  predicate HasParent(r: Record) {
    "parent_id" in r && r["parent_id"] != Null
  }

  /** `std::map<std::string, std::string>` as an association list kept in
      strictly increasing key order, which is also its iteration order. */
  type ParentMap = seq<(string, string)>

  predicate KeySorted(pm: ParentMap) {
    forall i, j | 0 <= i < j < |pm| :: Less(pm[i].0, pm[j].0)
  }

  /** Every key of `pm` is above `k`. */
  predicate Above(k: string, pm: ParentMap) {
    forall e | e in pm :: Less(k, e.0)
  }

  lemma KeySortedCons(e: (string, string), pm: ParentMap)
    ensures KeySorted([e] + pm) <==> Above(e.0, pm) && KeySorted(pm)
  {
    var t := [e] + pm;
    if Above(e.0, pm) && KeySorted(pm) {
      forall i, j | 0 <= i < j < |t| ensures Less(t[i].0, t[j].0) {
        if i == 0 {
          assert t[j] == pm[j - 1];
        } else {
          assert t[i] == pm[i - 1] && t[j] == pm[j - 1];
        }
      }
    }
    if KeySorted(t) {
      forall x | x in pm ensures Less(e.0, x.0) {
        var j :| 0 <= j < |pm| && pm[j] == x;
        assert t[0] == e && t[j + 1] == x;
        assert Less(t[0].0, t[j + 1].0);
      }
      forall i, j | 0 <= i < j < |pm| ensures Less(pm[i].0, pm[j].0) {
        assert t[i + 1] == pm[i] && t[j + 1] == pm[j];
      }
    }
  }

  /** The value stored for a key. */
  function Find(pm: ParentMap, k: string): Option<string> {
    if pm == [] then None
    else if pm[0].0 == k then Some(pm[0].1)
    else Find(pm[1..], k)
  }

  /** `parentMap[k] = v`: the key now maps to `v`, every other key keeps its
      value, and the keys stay in order. */
  function Put(pm: ParentMap, k: string, v: string): (r: ParentMap)
    requires KeySorted(pm)
    ensures KeySorted(r)
    ensures Find(r, k) == Some(v)
    ensures forall k' | k' != k :: Find(r, k') == Find(pm, k')
    ensures forall e | e in r :: e == (k, v) || e in pm
    decreases |pm|
  {
    if pm == [] then [(k, v)]
    else if pm[0].0 == k then
      KeySortedCons(pm[0], pm[1..]);
      assert pm == [pm[0]] + pm[1..];
      KeySortedCons((k, v), pm[1..]);
      [(k, v)] + pm[1..]
    else if Less(k, pm[0].0) then
      KeySortedCons(pm[0], pm[1..]);
      assert pm == [pm[0]] + pm[1..];
      forall e | e in pm ensures Less(k, e.0) {
        if e != pm[0] {
          LessTransitive(k, pm[0].0, e.0);
        }
      }
      KeySortedCons((k, v), pm);
      [(k, v)] + pm
    else
      KeySortedCons(pm[0], pm[1..]);
      assert pm == [pm[0]] + pm[1..];
      var rest := Put(pm[1..], k, v);
      LessTotal(k, pm[0].0);
      KeySortedCons(pm[0], rest);
      [pm[0]] + rest
  }

  /** In a sorted map, Find returns the value of the one entry with the key. */
  lemma {:induction false} FindEntry(pm: ParentMap, k: string, v: string)
    requires KeySorted(pm)
    ensures Find(pm, k) == Some(v) <==> (k, v) in pm
    decreases |pm|
  {
    if pm != [] {
      KeySortedCons(pm[0], pm[1..]);
      assert pm == [pm[0]] + pm[1..];
      FindEntry(pm[1..], k, v);
      if pm[0].0 == k && (k, v) in pm[1..] {
        LessIrreflexive(k);
      }
    }
  }

  /** The root and the parent map after the third loop. A record with an id
      and a parent enters the parent map; a record with an id and no parent
      (absent or null) makes the map's entry for that id the root, or a
      default assembly when the map has none. None when such an id, or a
      parent that is not null, is not a string. */
  function Link(recs: seq<Record>, m: AssemblyMap): (r: Option<(Assembly, ParentMap)>)
    ensures r.Some? <==>
      forall i | 0 <= i < |recs| && "id" in recs[i] ::
        IsStr(recs[i], "id") && (HasParent(recs[i]) ==> IsStr(recs[i], "parent_id"))
    ensures r.Some? ==> KeySorted(r.value.1)
    decreases |recs|
  {
    if recs == [] then Some((Scope(RootName), []))
    else
      var init, a := recs[..|recs| - 1], recs[|recs| - 1];
      var prior := Link(init, m);
      assert forall i | 0 <= i < |init| :: init[i] == recs[i];
      if prior.None? then None
      else if "id" !in a then prior
      else if !IsStr(a, "id") then None
      else if HasParent(a) then
        if !IsStr(a, "parent_id") then None
        else Some((prior.value.0, Put(prior.value.1, a["id"].s, a["parent_id"].s)))
      else Some((Lookup(m, a["id"].s), prior.value.1))
  }

  /** Record `i` has an id and no parent. */
  predicate Parentless(recs: seq<Record>, i: int)
    requires 0 <= i < |recs|
  {
    "id" in recs[i] && !HasParent(recs[i])
  }

  /** Without a parentless record the root stays a bare "Root". */
  lemma {:induction false} RootDefault(recs: seq<Record>, m: AssemblyMap)
    requires Link(recs, m).Some?
    requires forall i | 0 <= i < |recs| :: !Parentless(recs, i)
    ensures Link(recs, m).value.0 == Scope(RootName)
    decreases |recs|
  {
    if recs != [] {
      var init := recs[..|recs| - 1];
      assert forall i | 0 <= i < |init| :: init[i] == recs[i];
      forall i | 0 <= i < |init| ensures !Parentless(init, i) {
        assert !Parentless(recs, i);
      }
      assert !Parentless(recs, |recs| - 1);
      RootDefault(init, m);
    }
  }

  /** The last parentless record wins the root slot. */
  lemma {:induction false} RootIsLastParentless(recs: seq<Record>, m: AssemblyMap, i: nat)
    requires Link(recs, m).Some?
    requires i < |recs| && Parentless(recs, i)
    requires forall j | i < j < |recs| :: !Parentless(recs, j)
    ensures IsStr(recs[i], "id")
    ensures Link(recs, m).value.0 == Lookup(m, recs[i]["id"].s)
    decreases |recs|
  {
    if i < |recs| - 1 {
      var init := recs[..|recs| - 1];
      assert forall k | 0 <= k < |init| :: init[k] == recs[k];
      assert !Parentless(recs, |recs| - 1);
      forall j | i < j < |init| ensures !Parentless(init, j) {
        assert !Parentless(recs, j);
      }
      RootIsLastParentless(init, m, i);
    }
  }

  /** Record `i` gives `id` a parent. */
  predicate LinksId(recs: seq<Record>, i: int, id: string)
    requires 0 <= i < |recs|
  {
    "id" in recs[i] && recs[i]["id"] == Str(id) && HasParent(recs[i])
  }

  /** An id has a parent exactly when some record gives it one. */
  lemma {:induction false} ParentIds(recs: seq<Record>, m: AssemblyMap, id: string)
    requires Link(recs, m).Some?
    ensures Find(Link(recs, m).value.1, id).Some? <==> exists i | 0 <= i < |recs| :: LinksId(recs, i, id)
    decreases |recs|
  {
    if recs != [] {
      var init := recs[..|recs| - 1];
      assert forall i | 0 <= i < |init| :: init[i] == recs[i];
      ParentIds(init, m, id);
      if !LinksId(recs, |recs| - 1, id) {
        if exists i | 0 <= i < |recs| :: LinksId(recs, i, id) {
          var i :| 0 <= i < |recs| && LinksId(recs, i, id);
          assert LinksId(init, i, id);
        }
        if exists i | 0 <= i < |init| :: LinksId(init, i, id) {
          var i :| 0 <= i < |init| && LinksId(init, i, id);
          assert LinksId(recs, i, id);
        }
      }
    }
  }

  /** The parent of an id is the one its last linking record names. */
  lemma {:induction false} ParentIsLastLink(recs: seq<Record>, m: AssemblyMap, id: string, i: nat)
    requires Link(recs, m).Some?
    requires i < |recs| && LinksId(recs, i, id)
    requires forall j | i < j < |recs| :: !LinksId(recs, j, id)
    ensures IsStr(recs[i], "parent_id")
    ensures Find(Link(recs, m).value.1, id) == Some(recs[i]["parent_id"].s)
    decreases |recs|
  {
    if i < |recs| - 1 {
      var init := recs[..|recs| - 1];
      assert forall k | 0 <= k < |init| :: init[k] == recs[k];
      assert !LinksId(recs, |recs| - 1, id);
      forall j | i < j < |init| ensures !LinksId(init, j, id) {
        assert !LinksId(recs, j, id);
      }
      ParentIsLastLink(init, m, id, i);
    }
  }

  // ---------------------------------------------------------------------
  // buildTree

  /** The ids `entries` gives `parentId` as their parent, in entry order. */
  function ChildIds(entries: ParentMap, parentId: string): (ids: seq<string>)
    ensures forall c :: c in ids <==> (c, parentId) in entries
    decreases |entries|
  {
    if entries == [] then []
    else (if entries[0].1 == parentId then [entries[0].0] else []) + ChildIds(entries[1..], parentId)
  }

  /** Strictly increasing. */
  predicate Ascending(ids: seq<string>) {
    forall i, j | 0 <= i < j < |ids| :: Less(ids[i], ids[j])
  }

  /** Siblings come in increasing id order, because the map is iterated in
      key order, and they are exactly the ids whose parent is `parentId`. */
  lemma {:induction false} ChildIdsAscending(pm: ParentMap, parentId: string)
    requires KeySorted(pm)
    ensures Ascending(ChildIds(pm, parentId))
    ensures forall c :: c in ChildIds(pm, parentId) <==> Find(pm, c) == Some(parentId)
    decreases |pm|
  {
    forall c ensures c in ChildIds(pm, parentId) <==> Find(pm, c) == Some(parentId) {
      FindEntry(pm, c, parentId);
    }
    if pm != [] {
      KeySortedCons(pm[0], pm[1..]);
      assert pm == [pm[0]] + pm[1..];
      ChildIdsAscending(pm[1..], parentId);
      var rest := ChildIds(pm[1..], parentId);
      if pm[0].1 == parentId {
        var ids := [pm[0].0] + rest;
        forall i, j | 0 <= i < j < |ids| ensures Less(ids[i], ids[j]) {
          if i == 0 {
            assert ids[j] == rest[j - 1];
            assert (ids[j], parentId) in pm[1..];
          } else {
            assert ids[i] == rest[i - 1] && ids[j] == rest[j - 1];
          }
        }
      } else {
        assert ChildIds(pm, parentId) == rest;
      }
    }
  }

  /** buildTree(parent, parentId) with a bound on the depth of recursion: the
      children it appends, one per entry of `entries` whose parent is
      `parentId`, each the map's assembly for the child id with its own
      children built the same way. None when the bound is reached, which
      stands for a recursion that never ends (see FuelSuffices). */
  function Walk(m: AssemblyMap, pm: ParentMap, entries: ParentMap, parentId: string, fuel: nat)
    : (r: Option<seq<Assembly>>)
    ensures r.Some? ==> |r.value| == |ChildIds(entries, parentId)|
    decreases fuel, |entries|
  {
    if entries == [] then Some([])
    else
      var rest := Walk(m, pm, entries[1..], parentId, fuel);
      var childId := entries[0].0;
      if entries[0].1 != parentId then rest
      else if fuel == 0 then None
      else
        var grand := Walk(m, pm, pm, childId, fuel - 1);
        if grand.None? || rest.None? then None
        else
          var child := Lookup(m, childId);
          Some([child.(children := child.children + grand.value)] + rest.value)
  }

  /** Each child is the map's assembly for its id (a default one when the
      map has none), its name and parts unchanged. */
  lemma {:induction false} WalkChildren(m: AssemblyMap, pm: ParentMap, entries: ParentMap, parentId: string, fuel: nat)
    requires Walk(m, pm, entries, parentId, fuel).Some?
    ensures var kids, ids := Walk(m, pm, entries, parentId, fuel).value, ChildIds(entries, parentId);
      forall i | 0 <= i < |kids| ::
        kids[i].name == Lookup(m, ids[i]).name && kids[i].parts == Lookup(m, ids[i]).parts
    decreases |entries|
  {
    if entries != [] {
      var kids, ids := Walk(m, pm, entries, parentId, fuel).value, ChildIds(entries, parentId);
      var rest, restIds := Walk(m, pm, entries[1..], parentId, fuel).value, ChildIds(entries[1..], parentId);
      WalkChildren(m, pm, entries[1..], parentId, fuel);
      if entries[0].1 == parentId {
        WalkTaken(m, pm, entries, parentId, fuel);
        forall i | 0 <= i < |kids|
          ensures kids[i].name == Lookup(m, ids[i]).name && kids[i].parts == Lookup(m, ids[i]).parts
        {
          if i > 0 {
            assert kids[i] == rest[i - 1] && ids[i] == restIds[i - 1];
          }
        }
      } else {
        WalkSkipped(m, pm, entries, parentId, fuel);
      }
    }
  }

  /** An entry naming another parent adds no child. */
  lemma WalkSkipped(m: AssemblyMap, pm: ParentMap, entries: ParentMap, parentId: string, fuel: nat)
    requires entries != [] && entries[0].1 != parentId
    ensures Walk(m, pm, entries, parentId, fuel) == Walk(m, pm, entries[1..], parentId, fuel)
    ensures ChildIds(entries, parentId) == ChildIds(entries[1..], parentId)
  {
    assert ChildIds(entries, parentId) == [] + ChildIds(entries[1..], parentId);
  }

  /** An entry naming `parentId` puts its child, grown by its own walk, in front. */
  lemma WalkTaken(m: AssemblyMap, pm: ParentMap, entries: ParentMap, parentId: string, fuel: nat)
    requires entries != [] && entries[0].1 == parentId
    requires Walk(m, pm, entries, parentId, fuel).Some?
    ensures fuel >= 1
    ensures Walk(m, pm, entries[1..], parentId, fuel).Some?
    ensures Walk(m, pm, pm, entries[0].0, fuel - 1).Some?
    ensures Walk(m, pm, entries, parentId, fuel).value
      == [Lookup(m, entries[0].0).(children := Lookup(m, entries[0].0).children
          + Walk(m, pm, pm, entries[0].0, fuel - 1).value)]
         + Walk(m, pm, entries[1..], parentId, fuel).value
    ensures ChildIds(entries, parentId) == [entries[0].0] + ChildIds(entries[1..], parentId)
  {
  }

  /** Each child's own children are the map entry's children followed by
      what the recursive call builds for the child's id. */
  lemma {:induction false} WalkSubtree(m: AssemblyMap, pm: ParentMap, entries: ParentMap, parentId: string,
                                       fuel: nat, i: nat)
    requires Walk(m, pm, entries, parentId, fuel).Some?
    requires i < |Walk(m, pm, entries, parentId, fuel).value|
    ensures fuel >= 1
    ensures var kids, ids := Walk(m, pm, entries, parentId, fuel).value, ChildIds(entries, parentId);
      && Walk(m, pm, pm, ids[i], fuel - 1).Some?
      && kids[i].children == Lookup(m, ids[i]).children + Walk(m, pm, pm, ids[i], fuel - 1).value
    decreases |entries|
  {
    if entries[0].1 != parentId {
      WalkSubtree(m, pm, entries[1..], parentId, fuel, i);
    } else if i > 0 {
      WalkSubtree(m, pm, entries[1..], parentId, fuel, i - 1);
    }
  }

  /** `a` is the tree buildTree makes for `id` from leaf entries: the map's
      name and parts for `id`, and as children, in ascending id order, one
      such tree for every id whose parent is `id`. */
  ghost predicate BuiltFrom(m: AssemblyMap, pm: ParentMap, id: string, a: Assembly)
    decreases a
  {
    var ids := ChildIds(pm, id);
    && a.name == Lookup(m, id).name
    && a.parts == Lookup(m, id).parts
    && Ascending(ids)
    && |a.children| == |ids|
    && forall i | 0 <= i < |ids| :: BuiltFrom(m, pm, ids[i], a.children[i])
  }

  /** A walk that finishes over a map of leaves builds, at every depth, the
      tree BuiltFrom describes. */
  lemma {:induction false} WalkBuilds(m: AssemblyMap, pm: ParentMap, parentId: string, fuel: nat)
    requires KeySorted(pm)
    requires forall id | id in m :: m[id].children == []
    requires Walk(m, pm, pm, parentId, fuel).Some?
    ensures var kids, ids := Walk(m, pm, pm, parentId, fuel).value, ChildIds(pm, parentId);
      |kids| == |ids| && forall i | 0 <= i < |kids| :: BuiltFrom(m, pm, ids[i], kids[i])
    decreases fuel
  {
    var kids, ids := Walk(m, pm, pm, parentId, fuel).value, ChildIds(pm, parentId);
    WalkChildren(m, pm, pm, parentId, fuel);
    forall i | 0 <= i < |kids| ensures BuiltFrom(m, pm, ids[i], kids[i]) {
      WalkSubtree(m, pm, pm, parentId, fuel, i);
      var id := ids[i];
      var grand := Walk(m, pm, pm, id, fuel - 1).value;
      assert Lookup(m, id).children == [];
      assert kids[i].children == grand;
      WalkBuilds(m, pm, id, fuel - 1);
      ChildIdsAscending(pm, id);
    }
  }

  /** More fuel does not change a walk that finishes. */
  lemma {:induction false} WalkFuelMonotone(m: AssemblyMap, pm: ParentMap, entries: ParentMap, parentId: string,
                                            fuel: nat, more: nat)
    requires fuel <= more
    requires Walk(m, pm, entries, parentId, fuel).Some?
    ensures Walk(m, pm, entries, parentId, more) == Walk(m, pm, entries, parentId, fuel)
    decreases fuel, |entries|
  {
    if entries != [] {
      WalkFuelMonotone(m, pm, entries[1..], parentId, fuel, more);
      if entries[0].1 == parentId {
        WalkFuelMonotone(m, pm, pm, entries[0].0, fuel - 1, more - 1);
      }
    }
  }

  /** `path` follows parent links downwards: every id after the first has the
      one before it as its parent. */
  predicate Descends(pm: ParentMap, path: seq<string>) {
    forall k | 0 <= k < |path| - 1 :: (path[k + 1], path[k]) in pm
  }

  /** A chain of links longer than the fuel stops the walk. */
  lemma {:induction false} LongChainStops(m: AssemblyMap, pm: ParentMap, entries: ParentMap, path: seq<string>, fuel: nat)
    requires |path| >= 2 && Descends(pm, path) && (path[1], path[0]) in entries
    requires fuel < |path| - 1
    ensures Walk(m, pm, entries, path[0], fuel).None?
    decreases fuel, |entries|
  {
    if entries[0] == (path[1], path[0]) {
      if fuel > 0 {
        assert Descends(pm, path[1..]) by {
          forall k | 0 <= k < |path[1..]| - 1 ensures (path[1..][k + 1], path[1..][k]) in pm {
            assert path[1..][k] == path[k + 1] && path[1..][k + 1] == path[k + 2];
          }
        }
        LongChainStops(m, pm, pm, path[1..], fuel - 1);
      }
    } else {
      LongChainStops(m, pm, entries[1..], path, fuel);
    }
  }

  /** A walk that runs out of fuel has followed a chain one link longer than
      its fuel. */
  lemma {:induction false} StopHasLongChain(m: AssemblyMap, pm: ParentMap, entries: ParentMap, parentId: string, fuel: nat)
    returns (path: seq<string>)
    requires forall e | e in entries :: e in pm
    requires Walk(m, pm, entries, parentId, fuel).None?
    ensures |path| == fuel + 2 && path[0] == parentId && Descends(pm, path)
    decreases fuel, |entries|
  {
    var rest := Walk(m, pm, entries[1..], parentId, fuel);
    if entries[0].1 == parentId && fuel == 0 {
      path := [parentId, entries[0].0];
    } else if entries[0].1 == parentId && Walk(m, pm, pm, entries[0].0, fuel - 1).None? {
      var sub := StopHasLongChain(m, pm, pm, entries[0].0, fuel - 1);
      path := [parentId] + sub;
      forall k | 0 <= k < |path| - 1 ensures (path[k + 1], path[k]) in pm {
        if k > 0 {
          assert path[k] == sub[k - 1] && path[k + 1] == sub[k];
        }
      }
    } else {
      path := StopHasLongChain(m, pm, entries[1..], parentId, fuel);
    }
  }

  /** The keys of the map, as a set, are no more than its entries. */
  lemma {:induction false} KeyCount(pm: ParentMap)
    ensures |set e | e in pm :: e.0| <= |pm|
    decreases |pm|
  {
    if pm != [] {
      KeyCount(pm[1..]);
      var ks := set e | e in pm :: e.0;
      var rs := set e | e in pm[1..] :: e.0;
      assert pm == [pm[0]] + pm[1..];
      assert ks == rs + {pm[0].0};
    }
  }

  /** A sequence without repetitions has as many distinct elements as
      positions. */
  lemma {:induction false} DistinctCount(s: seq<string>)
    requires forall i, j | 0 <= i < j < |s| :: s[i] != s[j]
    ensures |set x | x in s| == |s|
    decreases |s|
  {
    if s != [] {
      DistinctCount(s[1..]);
      assert s == [s[0]] + s[1..];
      assert s[0] !in s[1..];
      assert (set x | x in s) == (set x | x in s[1..]) + {s[0]};
    }
  }

  lemma {:induction false} SubsetCount(a: set<string>, b: set<string>)
    requires a <= b
    ensures |a| <= |b|
    decreases |a|
  {
    if a != {} {
      var x :| x in a;
      SubsetCount(a - {x}, b - {x});
    }
  }

  /** A chain with more links than the map has entries visits some id
      twice. */
  lemma RepeatedId(pm: ParentMap, path: seq<string>) returns (a: nat, b: nat)
    requires Descends(pm, path) && |path| >= |pm| + 2
    ensures 1 <= a < b < |path| && path[a] == path[b]
  {
    var tail := path[1..];
    var keys := set e | e in pm :: e.0;
    assert (set x | x in tail) <= keys by {
      forall x | x in tail ensures x in keys {
        var k :| 0 <= k < |tail| && tail[k] == x;
        assert (path[k + 1], path[k]) in pm;
      }
    }
    KeyCount(pm);
    SubsetCount((set x | x in tail), keys);
    if forall i, j | 0 <= i < j < |tail| :: tail[i] != tail[j] {
      DistinctCount(tail);
      assert false;
    }
    var i, j :| 0 <= i < j < |tail| && tail[i] == tail[j];
    a, b := i + 1, j + 1;
  }

  /** A chain that revisits an id can be made as long as wanted by going
      round the loop again. */
  lemma {:induction false} PumpChain(pm: ParentMap, path: seq<string>, a: nat, b: nat, n: nat)
    returns (longer: seq<string>)
    requires Descends(pm, path) && a < b < |path| && path[a] == path[b]
    ensures Descends(pm, longer) && |longer| >= n && |longer| >= |path|
    ensures forall k | 0 <= k <= a :: longer[k] == path[k]
    decreases n - |path|
  {
    if |path| >= n {
      longer := path;
    } else {
      var next := path[..b + 1] + path[a + 1..];
      forall k | 0 <= k < |next| - 1 ensures (next[k + 1], next[k]) in pm {
        if k < b {
          assert next[k] == path[k] && next[k + 1] == path[k + 1];
        } else if k == b {
          assert next[k] == path[a] && next[k + 1] == path[a + 1];
        } else {
          assert next[k] == path[k - b + a] && next[k + 1] == path[k + 1 - b + a];
        }
      }
      longer := PumpChain(pm, next, a, b, n);
    }
  }

  /** Running out of fuel at one more than the number of map entries means
      running out at every fuel: the recursion never ends. */
  lemma DivergesForever(m: AssemblyMap, pm: ParentMap, parentId: string, fuel: nat)
    requires Walk(m, pm, pm, parentId, |pm| + 1).None?
    ensures Walk(m, pm, pm, parentId, fuel).None?
  {
    var path := StopHasLongChain(m, pm, pm, parentId, |pm| + 1);
    var a, b := RepeatedId(pm, path);
    var longer := PumpChain(pm, path, a, b, fuel + 2);
    assert longer[0] == path[0] && longer[1] == path[1];
    assert (longer[1], longer[0]) in pm;
    LongChainStops(m, pm, pm, longer, fuel);
  }

  /** The bound the model uses loses nothing: a walk that finishes with some
      fuel finishes with |pm| + 1 and gives the same children. */
  lemma FuelSuffices(m: AssemblyMap, pm: ParentMap, parentId: string, fuel: nat)
    requires Walk(m, pm, pm, parentId, fuel).Some?
    ensures Walk(m, pm, pm, parentId, |pm| + 1) == Walk(m, pm, pm, parentId, fuel)
  {
    if Walk(m, pm, pm, parentId, |pm| + 1).None? {
      DivergesForever(m, pm, parentId, fuel);
    } else if fuel <= |pm| + 1 {
      WalkFuelMonotone(m, pm, pm, parentId, fuel, |pm| + 1);
    } else {
      WalkFuelMonotone(m, pm, pm, parentId, |pm| + 1, fuel);
    }
  }

  /** An id that is its own parent below "root" makes the walk run forever. */
  lemma SelfParentDiverges(m: AssemblyMap, pm: ParentMap, fuel: nat)
    requires (WalkStart, WalkStart) in pm
    ensures Walk(m, pm, pm, WalkStart, fuel).None?
  {
    var path := seq(fuel + 2, _ => WalkStart);
    LongChainStops(m, pm, pm, path, fuel);
  }

  /** Ids ranked so that every child ranks below its parent: the walk from an
      id finishes with fuel above its rank. */
  predicate Ranked(pm: ParentMap, rank: map<string, nat>) {
    forall e | e in pm && e.1 in rank :: e.0 in rank && rank[e.0] < rank[e.1]
  }

  lemma {:induction false} RankedFinishes(m: AssemblyMap, pm: ParentMap, entries: ParentMap, rank: map<string, nat>,
                                          parentId: string, fuel: nat)
    requires Ranked(pm, rank) && forall e | e in entries :: e in pm
    requires parentId in rank && rank[parentId] < fuel
    ensures Walk(m, pm, entries, parentId, fuel).Some?
    decreases fuel, |entries|
  {
    if entries != [] {
      RankedFinishes(m, pm, entries[1..], rank, parentId, fuel);
      if entries[0].1 == parentId {
        assert entries[0] in pm;
        RankedFinishes(m, pm, pm, rank, entries[0].0, fuel - 1);
      }
    }
  }

  // ---------------------------------------------------------------------
  // The whole read

  /** What the three loops before buildTree produce. */
  datatype Resolved = Resolved(assemblies: AssemblyMap, root: Assembly, parents: ParentMap)

  /** Every field the loops convert to a string is a string: the name of each
      record with an id and a name, every assembly id, every parent that is
      not null, and the name and assembly id of every part record with all
      three fields. */
  predicate Converts(asms: seq<Record>, parts: seq<Record>) {
    && (forall i | 0 <= i < |asms| && Stored(asms[i]) :: IsStr(asms[i], "name"))
    && (forall i | 0 <= i < |asms| && "id" in asms[i] ::
          IsStr(asms[i], "id") && (HasParent(asms[i]) ==> IsStr(asms[i], "parent_id")))
    && (forall i | 0 <= i < |parts| && Placed(parts[i]) ::
          IsStr(parts[i], "name") && IsStr(parts[i], "assembly_id"))
  }

  /** The three loops, failing as a whole on the first type error. */
  function Resolve(doc: Document): (r: Option<Resolved>)
    ensures r.Some? <==> doc.Parsed? && Converts(Records(doc.assemblies), Records(doc.parts))
    ensures r.Some? ==> KeySorted(r.value.parents)
  {
    if doc.Unparsable? then None
    else
      var asms, parts := Records(doc.assemblies), Records(doc.parts);
      var m1 := CollectAssemblies(asms);
      if m1.None? then None
      else
        var m2 := AttachParts(m1.value, parts);
        if m2.None? then None
        else
          var linked := Link(asms, m2.value);
          if linked.None? then None
          else Some(Resolved(m2.value, linked.value.0, linked.value.1))
  }

  /** readModelFromStream after parsing. A document that does not parse or
      convert gives the bare "Root"; otherwise the root keeps the name and
      parts of the selected root and gains one child per id whose parent is
      "root", unless the walk from "root" never ends. */
  function ReadJson(doc: Document): (o: Outcome)
    ensures Resolve(doc).None? ==> o == Finished(BareModel)
    ensures Resolve(doc).Some? && o.Finished? ==>
      var st := Resolve(doc).value;
      && o.model.root.name == st.root.name
      && o.model.root.parts == st.root.parts
      && |o.model.root.children| == |st.root.children| + |ChildIds(st.parents, WalkStart)|
  {
    var st := Resolve(doc);
    if st.None? then Finished(BareModel)
    else
      var pm := st.value.parents;
      var kids := Walk(st.value.assemblies, pm, pm, WalkStart, |pm| + 1);
      if kids.None? then Diverges
      else Finished(Model(st.value.root.(children := st.value.root.children + kids.value)))
  }

  /** The reader diverges exactly when no depth of recursion is enough, and
      when it finishes, any depth that is enough gives the same tree. */
  lemma ReadJsonFuel(doc: Document, fuel: nat)
    requires Resolve(doc).Some?
    ensures var st := Resolve(doc).value;
      var kids := Walk(st.assemblies, st.parents, st.parents, WalkStart, fuel);
      && (ReadJson(doc).Diverges? ==> kids.None?)
      && (kids.Some? ==> ReadJson(doc) == Finished(Model(st.root.(children := st.root.children + kids.value))))
  {
    var st := Resolve(doc).value;
    var pm := st.parents;
    if ReadJson(doc).Diverges? {
      DivergesForever(st.assemblies, pm, WalkStart, fuel);
    } else if Walk(st.assemblies, pm, pm, WalkStart, fuel).Some? {
      FuelSuffices(st.assemblies, pm, WalkStart, fuel);
    }
  }

  /** The root's children are, in increasing id order, the assemblies whose
      parent is "root", each with the name and parts the map gives its id. */
  lemma RootChildren(doc: Document)
    requires Resolve(doc).Some? && ReadJson(doc).Finished?
    ensures var st, root := Resolve(doc).value, ReadJson(doc).model.root;
      var ids := ChildIds(st.parents, WalkStart);
      && st.root.children == []
      && |root.children| == |ids|
      && Ascending(ids)
      && (forall c :: c in ids <==> Find(st.parents, c) == Some(WalkStart))
      && (forall i | 0 <= i < |ids| ::
            root.children[i].name == Lookup(st.assemblies, ids[i]).name
            && root.children[i].parts == Lookup(st.assemblies, ids[i]).parts)
  {
    var st := Resolve(doc).value;
    var pm := st.parents;
    ChildIdsAscending(pm, WalkStart);
    WalkChildren(st.assemblies, pm, pm, WalkStart, |pm| + 1);
    MapHoldsLeaves(doc);
  }

  /** The whole tree: the root's children, and theirs at every depth, are
      the ids whose parent is their parent's id, in ascending order, each
      with the name and parts the map gives it. */
  lemma ReadJsonTree(doc: Document)
    requires Resolve(doc).Some? && ReadJson(doc).Finished?
    ensures var st, root := Resolve(doc).value, ReadJson(doc).model.root;
      var ids := ChildIds(st.parents, WalkStart);
      && Ascending(ids)
      && |root.children| == |ids|
      && forall i | 0 <= i < |ids| :: BuiltFrom(st.assemblies, st.parents, ids[i], root.children[i])
  {
    var st := Resolve(doc).value;
    var pm := st.parents;
    MapHoldsLeaves(doc);
    ChildIdsAscending(pm, WalkStart);
    WalkBuilds(st.assemblies, pm, WalkStart, |pm| + 1);
    assert ReadJson(doc).model.root.children == Walk(st.assemblies, pm, pm, WalkStart, |pm| + 1).value;
  }

  /** No assembly the loops build has children yet: only buildTree adds them. */
  lemma MapHoldsLeaves(doc: Document)
    requires Resolve(doc).Some?
    ensures Resolve(doc).value.root.children == []
    ensures forall id | id in Resolve(doc).value.assemblies :: Resolve(doc).value.assemblies[id].children == []
  {
    var asms, parts := Records(doc.assemblies), Records(doc.parts);
    var m1 := CollectAssemblies(asms).value;
    CollectedLeaves(asms);
    AttachedLeaves(m1, parts);
    var m2 := AttachParts(m1, parts).value;
    LinkedLeaves(asms, m2);
  }

  lemma {:induction false} CollectedLeaves(recs: seq<Record>)
    requires CollectAssemblies(recs).Some?
    ensures forall id | id in CollectAssemblies(recs).value :: CollectAssemblies(recs).value[id].children == []
    decreases |recs|
  {
    if recs != [] {
      CollectedLeaves(recs[..|recs| - 1]);
    }
  }

  lemma {:induction false} AttachedLeaves(m: AssemblyMap, recs: seq<Record>)
    requires AttachParts(m, recs).Some?
    requires forall id | id in m :: m[id].children == []
    ensures forall id | id in AttachParts(m, recs).value :: AttachParts(m, recs).value[id].children == []
    decreases |recs|
  {
    if recs != [] {
      AttachedLeaves(m, recs[..|recs| - 1]);
    }
  }

  lemma {:induction false} LinkedLeaves(recs: seq<Record>, m: AssemblyMap)
    requires Link(recs, m).Some?
    requires forall id | id in m :: m[id].children == []
    ensures Link(recs, m).value.0.children == []
    decreases |recs|
  {
    if recs != [] {
      LinkedLeaves(recs[..|recs| - 1], m);
    }
  }

  /** The root in terms of the document: with no record that has an id and
      no parent, a bare "Root". */
  lemma DefaultRoot(doc: Document)
    requires Resolve(doc).Some? && ReadJson(doc).Finished?
    requires var asms := Records(doc.assemblies); forall i | 0 <= i < |asms| :: !Parentless(asms, i)
    ensures ReadJson(doc).model.root.name == RootName && ReadJson(doc).model.root.parts == []
  {
    var asms, parts := Records(doc.assemblies), Records(doc.parts);
    var m2 := AttachParts(CollectAssemblies(asms).value, parts).value;
    RootDefault(asms, m2);
  }

  /** Otherwise the last such record's id selects the root: named by the last
      record storing that id, with the parts assigned to that id; or nameless
      and without parts when no record stores it. */
  lemma SelectedRoot(doc: Document, i: nat)
    requires Resolve(doc).Some? && ReadJson(doc).Finished?
    requires var asms := Records(doc.assemblies);
      && i < |asms| && Parentless(asms, i)
      && forall j | i < j < |asms| :: !Parentless(asms, j)
    ensures var asms, parts := Records(doc.assemblies), Records(doc.parts);
      var root, id := ReadJson(doc).model.root, asms[i]["id"].s;
      && ((forall k | 0 <= k < |asms| :: !StoredAs(asms, k, id)) ==> root.name == "" && root.parts == [])
      && (forall k | 0 <= k < |asms| && StoredAs(asms, k, id) && (forall j | k < j < |asms| :: !StoredAs(asms, j, id)) ::
            root.name == asms[k]["name"].s && root.parts == PartsFor(parts, id))
  {
    var asms, parts := Records(doc.assemblies), Records(doc.parts);
    var m1 := CollectAssemblies(asms).value;
    var m2 := AttachParts(m1, parts).value;
    RootIsLastParentless(asms, m2, i);
    var id := asms[i]["id"].s;
    CollectedIds(asms, id);
    forall k | 0 <= k < |asms| && StoredAs(asms, k, id) && (forall j | k < j < |asms| :: !StoredAs(asms, j, id))
      ensures ReadJson(doc).model.root.name == asms[k]["name"].s
      ensures ReadJson(doc).model.root.parts == PartsFor(parts, id)
    {
      CollectedEntry(asms, id, k);
      AttachedParts(m1, parts, id);
    }
  }

  /** Whether an id is a child of "root", in terms of the document: exactly
      when the last record giving it a parent names "root". */
  lemma ChildOfRoot(doc: Document, c: string)
    requires Resolve(doc).Some?
    ensures var asms := Records(doc.assemblies);
      var ids := ChildIds(Resolve(doc).value.parents, WalkStart);
      && ((forall k | 0 <= k < |asms| :: !LinksId(asms, k, c)) ==> c !in ids)
      && (forall k | 0 <= k < |asms| && LinksId(asms, k, c) && (forall j | k < j < |asms| :: !LinksId(asms, j, c)) ::
            (c in ids <==> asms[k]["parent_id"] == Str(WalkStart)))
  {
    var asms, parts := Records(doc.assemblies), Records(doc.parts);
    var m2 := AttachParts(CollectAssemblies(asms).value, parts).value;
    var pm := Resolve(doc).value.parents;
    ChildIdsAscending(pm, WalkStart);
    ParentIds(asms, m2, c);
    forall k | 0 <= k < |asms| && LinksId(asms, k, c) && (forall j | k < j < |asms| :: !LinksId(asms, j, c))
      ensures c in ChildIds(pm, WalkStart) <==> asms[k]["parent_id"] == Str(WalkStart)
    {
      ParentIsLastLink(asms, m2, c, k);
    }
  }
}
