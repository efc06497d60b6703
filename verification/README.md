# CAD assembly lister — a Dafny model of the tree readers and the listing

This project models the core of a CAD assembly lister. The lister reads an
assembly description from a data source, builds one canonical tree of
assemblies and parts, and prints it as an indented, name-sorted listing.
Everything is written as immutable datatypes and pure functions. The proofs
cover the following:

- **Domain tree** (`domain.dfy`): `Part(id, name)` and
  `Assembly(id, name, children, parts)` are values.
  - An assembly is therefore a finite tree. No sub-assembly is shared or
    cyclic.
  - Attaching a child attaches a snapshot copy.
  - The headers `Identifiers.hpp` and `Model.hpp` are not part of this model. Ids
    are strings, and a default id is `""`. A `Model` wraps one root.
- **Tagged-line reader** (`tagged_reader.dfy`, `text.dfy`):
  - `FakeCadModelReaderAdapter` runs a stack machine over trimmed lines.
  - `Assembly:` opens a scope and `Part:` adds a part to the innermost scope.
  - `EndAssembly` closes the innermost scope into its parent. It does nothing
    when only the root is open.
  - Scopes still open at the end are closed innermost first.
  - The stack is a sequence whose last element is the innermost scope. The loop
    is a fold over the lines `std::getline` would return.
- **Structured-record reader** (`json_reader.dfy`): `JsonCadModelReaderAdapter`
  after parsing.
  - The input is the parsed document, as optional arrays of records. A record
    maps field names to null, string or other values. The input can also be the
    fact that parsing failed.
  - Three loops follow. The first builds the assembly map, the second attaches
    parts, and the third selects the root and fills the parent map.
  - `buildTree` then walks down from the literal id `"root"`. The walk is
    bounded by fuel, and an outcome `Diverges` stands for a recursion that
    never ends.
- **Listing use case** (`listing.dfy`):
  - `collectLines` flattens the tree depth first. It indents two spaces per
    level and sorts parts and children by name at every level.
  - `list` logs the attempt and opens the locator. If that fails it returns the
    single error line; otherwise it lists the reader's tree.
  - The data source and the reader are function parameters. The log is an
    explicit sequence of entries, passed in and returned.
- **Formatter** (`formatter.dfy`): `Formatter::joinLines`.
- **In-memory data source** (`data_source.dfy`): `FakeModelDataSourceAdapter`
  as a map from locator to content.
- **Scenarios** (`scenarios.dfy`, `json_scenarios.dfy`): the repository's test
  inputs, worked through the model to their exact results.

Shared pieces:

- `sorting.dfy`: insertion sort by a string key.
- `seqs.dfy`: small sequence facts.
- `ports.dfy`: `Option`, streams and log entries.

Behaviour of the structured-record reader that the model keeps as the code has it
(lines of `cpp/cad/adapters/cad-model-reader/json/JsonCadModelReaderAdapter.cpp`):

- **Type errors.** A record that lacks a field the loop tests for is skipped
  (lines 22, 33, 53). A field that the code converts to a string, but that
  holds something else, raises nlohmann's `type_error`. The catch at line 82
  turns the whole read into a bare "Root". The fields that are converted are:
  - the id and name of an assembly record that has both (lines 24-25);
  - every assembly id (line 54);
  - every non-null `parent_id` (line 56);
  - the name and `assembly_id` of a part record with `id`, `name` and
    `assembly_id` (lines 35, 37).

  A part's `id` is never converted, so it may hold anything.
  `JsonReader.Converts` lists these conditions.
- **Root selection.** Every parentless record overwrites the root, so the last
  one wins (line 59). With none, the root stays a bare "Root" (lines 46-47).
- **Start of the walk.** The walk starts at the literal `"root"` (line 76),
  whatever id the selected root has.
- **Parent map.** The code keeps a child → parent `std::map` (lines 48, 56). A
  later record for the same child id replaces the earlier parent, and siblings
  come in ascending id order (line 67).
- **Nameless children.** A child id without a stored entry is
  default-constructed by `operator[]` (line 69), so it is listed with an empty
  name and no parts.
- **Cycles.** The recursion (line 70) does not terminate on a cycle reachable
  from `"root"`.

## Model

| member | source | states |
|---|---|---|
| Domain.Attach | cpp/cad/adapters/fake/FakeCadModelReaderAdapter.cpp:39-41 | attaching keeps the parent's name and parts and adds the child as the last child |
| Domain.AttachCounts | cpp/cad/core/domain/Assembly.hpp:13-14 | attaching a child adds the child's whole subtree, assemblies and parts, to the parent's counts |
| Text.Trim | cpp/cad/adapters/fake/FakeCadModelReaderAdapter.cpp:13-18 | the result has no space, tab, CR or LF at either end, is empty exactly when the input is all such whitespace, and is no longer than the input |
| Text.TrimSplits | cpp/cad/adapters/fake/FakeCadModelReaderAdapter.cpp:13-18 | every string is its trimmed form with whitespace-only padding on both sides |
| Text.TrimOfPadded | cpp/cad/adapters/fake/FakeCadModelReaderAdapter.cpp:13-18 | trimming whitespace padding around a trimmed core gives back exactly the core, so with TrimSplits the trimmed form is unique |
| Text.TrimIdempotent | cpp/cad/adapters/fake/FakeCadModelReaderAdapter.cpp:13-18 | trimming twice is trimming once |
| TaggedReader.GetLines | cpp/cad/adapters/fake/FakeCadModelReaderAdapter.cpp:27 | the extracted lines hold no line feed, there are none exactly for empty content, and joining them with line feeds (plus the final one, if the content had it) restores the content |
| TaggedReader.ClassifyTags | cpp/cad/adapters/fake/FakeCadModelReaderAdapter.cpp:28-37 | a line opens a scope iff its trimmed form starts with `Assembly:`, adds a part iff it starts with `Part:`, and closes a scope iff it equals `EndAssembly` |
| TaggedReader.StepEffect | cpp/cad/adapters/fake/FakeCadModelReaderAdapter.cpp:28-43 | `Assembly:` pushes an empty scope named by the trimmed remainder; `Part:` appends one part to the innermost scope and changes nothing else; `EndAssembly` is a no-op with only the root open and otherwise folds the innermost scope into its parent; any other line changes nothing |
| TaggedReader.CloseTop | cpp/cad/adapters/fake/FakeCadModelReaderAdapter.cpp:46-50 | closing pops one scope, keeps every scope below the enclosing one, and appends the popped scope to the enclosing one |
| TaggedReader.Read | cpp/cad/adapters/fake/FakeCadModelReaderAdapter.cpp:20-54 | the root is always named "Root", and empty content gives a root with no children and no parts |
| TaggedReader.RunCounts | cpp/cad/adapters/fake/FakeCadModelReaderAdapter.cpp:27-44 | the reading loop adds one assembly per `Assembly:` line and one part per `Part:` line to the stack's contents |
| TaggedReader.CloseAllCounts | cpp/cad/adapters/fake/FakeCadModelReaderAdapter.cpp:46-50 | closing the open scopes at the end loses no assembly and no part |
| TaggedReader.CloseAllNests | cpp/cad/adapters/fake/FakeCadModelReaderAdapter.cpp:46-53 | the scopes still open at the end close innermost first: each open scope becomes the last child of the scope below it, keeping its own children and parts, and the root of the resulting nest is the model's root |
| TaggedReader.CloseAllIsEnds | cpp/cad/adapters/fake/FakeCadModelReaderAdapter.cpp:37-50 | the end-of-input close gives the same tree as one `EndAssembly` line per open scope above the root would, and leaves only the root on the stack |
| Scenarios.OpenScopesNest | cpp/cad/adapters/fake/FakeCadModelReaderAdapter.cpp:46-50 | with `A` and then `B` left open, the root gets the single child `A`, and `A` gets the single child `B` |
| TaggedReader.ReadCounts | cpp/cad/adapters/fake/FakeCadModelReaderAdapter.cpp:20-54 | the tree holds one assembly below the root per `Assembly:` line and one part per `Part:` line, however the `EndAssembly` lines are placed |
| TaggedReader.RunAppend | cpp/cad/adapters/fake/FakeCadModelReaderAdapter.cpp:27-44 | reading two stretches of lines is reading the first and then the second from where the first left the stack |
| TaggedReader.UnrecognisedLineIgnored | cpp/cad/adapters/fake/FakeCadModelReaderAdapter.cpp:28-43 | a line that is none of the three forms can be removed anywhere without changing the result |
| Scenarios.BlockRun | cpp/cad/adapters/fake/FakeCadModelReaderAdapter.cpp:27-44 | for nonempty trimmed names, a closed `Assembly:`/`Part:`/`Part:`/`EndAssembly` block becomes the last child of the innermost open scope, with its parts in input order |
| Scenarios.BAReadScenario | tests/usecase/ListModelPartsUseCase.test.cpp:15-16 | the test's input reads as Root holding B{B2, B1} then A{A2, A1}, in insertion order |
| Formatter.JoinLines | cpp/cad/app/cli/Formatter.hpp:9-16 | no lines give "", one line gives that line, and n ≥ 1 lines give the sum of their lengths plus n − 1 characters |
| Formatter.JoinLinesLoop | cpp/cad/app/cli/Formatter.hpp:9-16 | the loop that appends each line and a line feed after all but the last computes the joined text |
| Formatter.JoinAppend | cpp/cad/app/cli/Formatter.hpp:11-14 | appending a line to a nonempty listing appends exactly one line feed and the line |
| Formatter.SplitJoin | cpp/cad/app/cli/Formatter.hpp:9-16 | for at least one line and no line holding a line feed, splitting the joined text at its line feeds gives back exactly the lines |
| Formatter.JoinSplit | cpp/cad/app/cli/Formatter.hpp:9-16 | joining the pieces of any text split at its line feeds restores the text |
| DataSource.Open | cpp/cad/adapters/fake/FakeModelDataSourceAdapter.hpp:21-27 | a locator opens to nothing exactly when it is not in the store, and otherwise to a good stream over its stored content |
| DataSource.Register | cpp/cad/adapters/fake/FakeModelDataSourceAdapter.hpp:17-19 | after registering, the locator opens onto exactly the new content and every other locator opens as before |
| DataSource.OpenRegistered | cpp/cad/adapters/fake/FakeModelDataSourceAdapter.hpp:17-27 | after any sequence of registrations a locator opens to nothing iff it was never registered, and otherwise onto its last registered content |
| Listing.CollectLines | cpp/cad/core/usecase/ListModelPartsUseCase.cpp:18-20 | a node's block is never empty and its first line is the heading: 2·depth spaces, `Assembly: ` and the name |
| Listing.Indented | cpp/cad/core/usecase/ListModelPartsUseCase.cpp:18-33 | every line of a node's block starts with 2·depth spaces, and every line after the heading with 2·depth + 2 |
| Listing.LineCount | cpp/cad/core/usecase/ListModelPartsUseCase.cpp:18-33 | a block has exactly one line per assembly and one per part in the subtree |
| Listing.PartLinesSorted | cpp/cad/core/usecase/ListModelPartsUseCase.cpp:22-26 | the lines right after the heading are the node's part lines, as a multiset, in nondecreasing order |
| Listing.ChildBlocksInOrder | cpp/cad/core/usecase/ListModelPartsUseCase.cpp:28-32 | after the part lines come the children's whole blocks one after another, each child exactly once, in nondecreasing name order |
| Listing.ListingIgnoresOrder | cpp/cad/core/usecase/ListModelPartsUseCase.cpp:22-32 | two trees that differ only in the order of parts and children at any level list identically; parts are compared by name only, so part ids play no role |
| Listing.PermutationIsReordering | cpp/cad/core/usecase/ListModelPartsUseCase.cpp:23-29 | permuting a node's parts and children is such a reordering when sibling names are distinct throughout |
| Listing.List | cpp/cad/core/usecase/ListModelPartsUseCase.cpp:35-48 | the log always gains the Info "Opening locator: …" entry first. The result is the single error line iff the source gives no good stream, and then the log gains exactly the Error "Failed to open locator: …" entry. Otherwise the log gains nothing more, the first line is "Assembly: " + the root's name, and there is one line per assembly and part |
| Scenarios.BAListing | tests/usecase/ListModelPartsUseCase.test.cpp:22-25 | the tree read from the test's input lists as exactly the seven expected lines, A before B and each assembly's parts in name order |
| Scenarios.ListScenario | tests/usecase/ListModelPartsUseCase.test.cpp:8-28 | listing the test's registered content gives exactly the seven expected lines and logs only the opening notice |
| Scenarios.MissingLocatorScenario | tests/usecase/ListModelPartsUseCase.test.cpp:30-40 | a locator that was never registered gives exactly `["ERROR: failed to open locator"]` and logs the opening notice then the failure |
| Scenarios.EmptyContentScenario | cpp/cad/core/usecase/ListModelPartsUseCase.cpp:35-48 | registered empty content opens, and lists as `["Assembly: Root"]` |
| JsonReader.Lookup | cpp/cad/adapters/cad-model-reader/json/JsonCadModelReaderAdapter.cpp:69 | an id the map holds yields its stored assembly, and any other id a default assembly: empty name, no children, no parts |
| JsonReader.CollectAssemblies | cpp/cad/adapters/cad-model-reader/json/JsonCadModelReaderAdapter.cpp:20-28 | the first loop succeeds exactly when every record with an id and a name has both as strings |
| JsonReader.CollectedIds | cpp/cad/adapters/cad-model-reader/json/JsonCadModelReaderAdapter.cpp:20-28 | an id is in the map exactly when some record with an id and a name stores it |
| JsonReader.CollectedEntry | cpp/cad/adapters/cad-model-reader/json/JsonCadModelReaderAdapter.cpp:20-28 | an id's entry is a fresh assembly named by the last record storing that id |
| JsonReader.AttachParts | cpp/cad/adapters/cad-model-reader/json/JsonCadModelReaderAdapter.cpp:31-43 | the second loop succeeds exactly when every part record with id, name and assembly id has name and assembly id as strings, and it adds or removes no id |
| JsonReader.AttachedParts | cpp/cad/adapters/cad-model-reader/json/JsonCadModelReaderAdapter.cpp:31-43 | every stored assembly gains exactly the parts that name its id, in document order, after those it had; other parts are dropped |
| JsonReader.Put | cpp/cad/adapters/cad-model-reader/json/JsonCadModelReaderAdapter.cpp:56 | storing a parent keeps the map sorted by key, maps the key to the new parent, and leaves every other key's parent as it was |
| JsonReader.Link | cpp/cad/adapters/cad-model-reader/json/JsonCadModelReaderAdapter.cpp:51-63 | the third loop succeeds exactly when every record's id, and every non-null parent, is a string, and its parent map is sorted by key |
| JsonReader.RootDefault | cpp/cad/adapters/cad-model-reader/json/JsonCadModelReaderAdapter.cpp:46-63 | with no record that has an id and no parent, the root stays a bare "Root" |
| JsonReader.RootIsLastParentless | cpp/cad/adapters/cad-model-reader/json/JsonCadModelReaderAdapter.cpp:51-63 | otherwise the root is the map's assembly for the id of the last such record |
| JsonReader.ParentIds | cpp/cad/adapters/cad-model-reader/json/JsonCadModelReaderAdapter.cpp:51-63 | an id has a parent in the map exactly when some record with that id names a non-null parent |
| JsonReader.ParentIsLastLink | cpp/cad/adapters/cad-model-reader/json/JsonCadModelReaderAdapter.cpp:51-63 | an id's parent is the one named by the last record that gives that id a parent |
| JsonReader.ChildIds | cpp/cad/adapters/cad-model-reader/json/JsonCadModelReaderAdapter.cpp:67-68 | the child ids of a parent are exactly the map entries naming that parent |
| JsonReader.ChildIdsAscending | cpp/cad/adapters/cad-model-reader/json/JsonCadModelReaderAdapter.cpp:66-73 | siblings come in strictly increasing id order, and an id is a child of a parent iff the map gives it that parent |
| JsonReader.Walk | cpp/cad/adapters/cad-model-reader/json/JsonCadModelReaderAdapter.cpp:66-74 | a walk that finishes builds one child per map entry naming the parent (contents in WalkChildren and WalkSubtree) |
| JsonReader.WalkChildren | cpp/cad/adapters/cad-model-reader/json/JsonCadModelReaderAdapter.cpp:67-71 | each child built has the name and parts of the map's assembly for its id, or of a default one when the map has none |
| JsonReader.WalkSubtree | cpp/cad/adapters/cad-model-reader/json/JsonCadModelReaderAdapter.cpp:69-71 | each child's children are the map entry's own children followed by what the recursive call builds for the child's id, with one less depth bound |
| JsonReader.WalkBuilds | cpp/cad/adapters/cad-model-reader/json/JsonCadModelReaderAdapter.cpp:66-74 | over a map of leaves, a walk that finishes builds at every depth the tree `BuiltFrom` describes: map name and parts, and as children one such tree per id whose parent is this id, in strictly ascending id order |
| JsonReader.WalkFuelMonotone | cpp/cad/adapters/cad-model-reader/json/JsonCadModelReaderAdapter.cpp:66-74 | a walk that finishes with some depth bound gives the same tree with any larger bound |
| JsonReader.LongChainStops | cpp/cad/adapters/cad-model-reader/json/JsonCadModelReaderAdapter.cpp:66-74 | a chain of parent links longer than the depth bound makes the bounded walk stop |
| JsonReader.StopHasLongChain | cpp/cad/adapters/cad-model-reader/json/JsonCadModelReaderAdapter.cpp:66-74 | conversely, a walk that stops has a chain of parent links as long as the bound |
| JsonReader.RepeatedId | cpp/cad/adapters/cad-model-reader/json/JsonCadModelReaderAdapter.cpp:66-74 | a chain of parent links longer than the parent map repeats an id |
| JsonReader.PumpChain | cpp/cad/adapters/cad-model-reader/json/JsonCadModelReaderAdapter.cpp:66-74 | a chain that repeats an id can be extended to any length |
| JsonReader.DivergesForever | cpp/cad/adapters/cad-model-reader/json/JsonCadModelReaderAdapter.cpp:66-76 | if the walk stops with a bound of one more than the parent map's size, it stops with every bound, so the recursion never ends |
| JsonReader.FuelSuffices | cpp/cad/adapters/cad-model-reader/json/JsonCadModelReaderAdapter.cpp:66-76 | if the walk finishes with any bound, it finishes with that bound and gives the same tree |
| JsonReader.SelfParentDiverges | cpp/cad/adapters/cad-model-reader/json/JsonCadModelReaderAdapter.cpp:66-76 | an id "root" whose parent is "root" makes the walk stop with every bound |
| JsonReader.RankedFinishes | cpp/cad/adapters/cad-model-reader/json/JsonCadModelReaderAdapter.cpp:66-74 | when ids can be ranked so that every child ranks below its parent, the walk finishes with a bound above the start's rank |
| JsonReader.Resolve | cpp/cad/adapters/cad-model-reader/json/JsonCadModelReaderAdapter.cpp:12-63 | the three loops succeed exactly when the document parsed and every converted field is a string |
| JsonReader.ReadJson | cpp/cad/adapters/cad-model-reader/json/JsonCadModelReaderAdapter.cpp:12-88 | a parse or type failure gives the bare "Root"; otherwise a finished read keeps the selected root's name and parts and adds one child per id whose parent is "root" |
| JsonReader.ReadJsonFuel | cpp/cad/adapters/cad-model-reader/json/JsonCadModelReaderAdapter.cpp:66-80 | the read diverges only if no depth bound lets the walk finish, and any bound that does gives the tree the read returns |
| JsonReader.ReadJsonTree | cpp/cad/adapters/cad-model-reader/json/JsonCadModelReaderAdapter.cpp:66-80 | in a finished read the root's children are the ids whose parent is "root", and every node below has as children the ids whose parent is its own id; siblings come in ascending id order, and each node has its map name and parts, or an empty name and no parts when the map has none |
| JsonReader.RootChildren | cpp/cad/adapters/cad-model-reader/json/JsonCadModelReaderAdapter.cpp:66-76 | the root's children are, in increasing id order, exactly the ids whose parent is "root", each with its map name and parts |
| JsonReader.MapHoldsLeaves | cpp/cad/adapters/cad-model-reader/json/JsonCadModelReaderAdapter.cpp:17-63 | before the walk, neither the root nor any assembly in the map has children |
| JsonReader.DefaultRoot | cpp/cad/adapters/cad-model-reader/json/JsonCadModelReaderAdapter.cpp:46-63 | with no parentless record, the read's root is named "Root" and has no parts |
| JsonReader.SelectedRoot | cpp/cad/adapters/cad-model-reader/json/JsonCadModelReaderAdapter.cpp:46-63 | otherwise the last parentless record's id selects the root. It is named by the last record storing that id and has the parts assigned to that id; when no record stores it, the root has an empty name and no parts |
| JsonReader.ChildOfRoot | cpp/cad/adapters/cad-model-reader/json/JsonCadModelReaderAdapter.cpp:51-76 | an id is a child of the root exactly when the last record giving it a parent names "root" |
| JsonScenarios.EngineScenario | cpp/test/cad-model-reader/JsonCadModelReaderAdapter.test.cpp:9-40 | the Root/Engine/Piston document reads as Root → Engine → Piston |
| JsonScenarios.InvalidScenario | cpp/test/cad-model-reader/JsonCadModelReaderAdapter.test.cpp:42-50 | a document that does not parse reads as a bare "Root" |
| JsonScenarios.EmptyObjectScenario | cpp/test/cad-model-reader/JsonCadModelReaderAdapter.test.cpp:52-60 | `{}` reads as a bare "Root" |
| JsonScenarios.NumericNameScenario | cpp/cad/adapters/cad-model-reader/json/JsonCadModelReaderAdapter.cpp:22-25 | a stored record whose name is not a string turns the whole read into a bare "Root" |
| JsonScenarios.SelfParentScenario | cpp/cad/adapters/cad-model-reader/json/JsonCadModelReaderAdapter.cpp:66-76 | a record "root" with parent "root" makes the read diverge |
| JsonScenarios.NamelessChildScenario | cpp/cad/adapters/cad-model-reader/json/JsonCadModelReaderAdapter.cpp:67-71 | a child of "root" whose record has no name appears as an empty-named assembly with no parts |

## Left out

- OpenCascade reader (`OpenCascadeCadModelReaderAdapter`): it wraps an external CAD kernel and temporary-file I/O, and has no tree logic of its own to model.
- JSON syntax: the parser's work is an input. A document is either `Unparsable` or its two collections. A collection is absent when its key is missing or its value is not an array.
- File and JSON data sources, the spdlog and fake logger sinks, `main.cpp` and the port interfaces. These are I/O and wiring. The ports are function parameters of `Listing.List`.
- Stream states: a stream is its content and one readable flag. The tagged reader reads the whole content as lines.
- Listing.ListingIgnoresOrder: the model sorts with a stable insertion sort, while `std::sort` is not stable. The two differ only among equal names. The lemma therefore assumes a reordering in which same-named siblings are themselves interchangeable. Distinct sibling names make every permutation such a reordering (`Listing.PermutationIsReordering`).
- JsonReader.Walk: its own contract gives only the number of children. What it builds at every depth is stated by `JsonReader.WalkChildren`, `JsonReader.WalkSubtree` and `JsonReader.WalkBuilds`. `buildTree` has no bound on its recursion. The model bounds it by the parent map's size plus one. `JsonReader.FuelSuffices` and `JsonReader.DivergesForever` show this bound decides termination exactly. Stack exhaustion on deep but finite trees is not modelled.
- JsonReader.ReadJson: a read that never ends is the outcome `Diverges`, not a model.
- Idempotence of `list` and repeated `open` calls: every operation is a function of its arguments here, so both hold by construction and have no lemma.
- Identifiers: no reader assigns an id, so every id the readers create is `""`.
- Strings: a string is a Dafny `seq<char>`, a sequence of Unicode scalar values, while `std::string` holds raw bytes. Content that is not valid UTF-8 cannot be represented. `Text.Less` agrees with the byte order of `std::string::operator<` only on valid UTF-8.
