/** The in-memory data source (FakeModelDataSourceAdapter): a map from
    locator to content. Opening never changes the store. */
module DataSource {
  import opened Ports

  datatype Store = Store(contents: map<string, string>)

  const Empty: Store := Store(map[])

  /** `open`: a fresh readable stream over the registered content, or nothing
      for a locator that was never registered. */
  function Open(store: Store, locator: string): (s: Option<Stream>)
    ensures s.None? <==> locator !in store.contents
    ensures s.Some? ==> s.value.good && s.value.content == store.contents[locator]
  {
    if locator in store.contents then Some(Stream(store.contents[locator], true)) else None
  }

  /** `registerContent`: afterwards the locator opens onto exactly the given
      content, replacing any earlier registration, and every other locator
      opens as before. */
  function Register(store: Store, locator: string, content: string): (r: Store)
    ensures Open(r, locator) == Some(Stream(content, true))
    ensures forall other | other != locator :: Open(r, other) == Open(store, other)
  {
    Store(store.contents[locator := content])
  }

  /** The store after a sequence of registrations, starting empty. */
  function Registered(regs: seq<(string, string)>): Store {
    if regs == [] then Empty
    else Register(Registered(regs[..|regs| - 1]), regs[|regs| - 1].0, regs[|regs| - 1].1)
  }

  /** The content of the last registration of `locator`, if any. */
  function LastRegistered(regs: seq<(string, string)>, locator: string): Option<string> {
    if regs == [] then None
    else if regs[|regs| - 1].0 == locator then Some(regs[|regs| - 1].1)
    else LastRegistered(regs[..|regs| - 1], locator)
  }

  /** A locator opens exactly when it was registered, and then onto the
      content it was registered with last. */
  lemma {:induction false} OpenRegistered(regs: seq<(string, string)>, locator: string)
    ensures Open(Registered(regs), locator).None? <==> (forall i | 0 <= i < |regs| :: regs[i].0 != locator)
    ensures LastRegistered(regs, locator).Some? ==>
      Open(Registered(regs), locator) == Some(Stream(LastRegistered(regs, locator).value, true))
    decreases |regs|
  {
    if regs != [] {
      var init := regs[..|regs| - 1];
      OpenRegistered(init, locator);
      forall i | 0 <= i < |init| ensures init[i] == regs[i] {}
    }
  }
}
