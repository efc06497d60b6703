/** The tagged-line reader (FakeCadModelReaderAdapter): a stack machine over
    trimmed lines. `Assembly: <name>` opens a scope, `Part: <name>` adds a part
    to the innermost scope, `EndAssembly` closes the innermost scope into its
    parent, and scopes still open at the end are closed innermost first.

    The stack is a sequence whose last element is the innermost scope; its
    first element is the root scope, which is never popped. */
module TaggedReader {
  import opened Text
  import opened Domain
  import Formatter
  import opened Seqs

  const RootName: string := "Root"
  const AssemblyTag: string := "Assembly:"
  const PartTag: string := "Part:"
  const EndTag: string := "EndAssembly"

  /** The lines std::getline extracts from the content: the pieces between
      line feeds, where a final line feed ends the last line rather than
      starting an empty one. */
  function GetLines(content: string): (lines: seq<string>)
    ensures forall k | 0 <= k < |lines| :: '\n' !in lines[k]
    ensures lines == [] <==> content == ""
    ensures lines != [] ==>
      content == Formatter.JoinLines(lines) + (if content[|content| - 1] == '\n' then "\n" else "")
  {
    if content == "" then []
    else if content[|content| - 1] == '\n' then
      var body := content[..|content| - 1];
      Formatter.JoinSplit(body);
      SplitLines(body)
    else
      Formatter.JoinSplit(content);
      SplitLines(content)
  }

  /** What one line asks the reader to do. */
  datatype Command = OpenScope(name: string) | AddPart(name: string) | CloseScope | Skip

  /** The tests are made on the trimmed line, in this order, and are
      case-sensitive; names are the trimmed remainder after the tag. */
  function Classify(raw: string): (c: Command)
    ensures (c.OpenScope? || c.AddPart?) ==> Trimmed(c.name)
  {
    var line := Trim(raw);
    if AssemblyTag <= line then OpenScope(Trim(line[|AssemblyTag|..]))
    else if PartTag <= line then AddPart(Trim(line[|PartTag|..]))
    else if line == EndTag then CloseScope
    else Skip
  }

  /** The innermost scope. */
  function Top(stack: seq<Assembly>): Assembly
    requires |stack| >= 1
  {
    stack[|stack| - 1]
  }

  /** Pop the innermost scope and append it as the last child of the
      enclosing one. */
  function CloseTop(stack: seq<Assembly>): (r: seq<Assembly>)
    requires |stack| >= 2
    ensures |r| == |stack| - 1
    ensures r[..|r| - 1] == stack[..|stack| - 2]
    ensures Top(r) == Attach(stack[|stack| - 2], Top(stack))
  {
    var n := |stack|;
    stack[..n - 2] + [Attach(stack[n - 2], stack[n - 1])]
  }

  /** What one command does to the stack. */
  function Apply(stack: seq<Assembly>, cmd: Command): (r: seq<Assembly>)
    requires |stack| >= 1
    ensures |r| >= 1 && r[0].name == stack[0].name
  {
    var n := |stack|;
    match cmd
    case OpenScope(name) => stack + [Scope(name)]
    case AddPart(name) => stack[..n - 1] + [Top(stack).(parts := Top(stack).parts + [Part(NoId, name)])]
    case CloseScope => if n >= 2 then CloseTop(stack) else stack
    case Skip => stack
  }

  /** One iteration of the reading loop. */
  function Step(stack: seq<Assembly>, raw: string): (r: seq<Assembly>)
    requires |stack| >= 1
    ensures |r| >= 1 && r[0].name == stack[0].name
  {
    Apply(stack, Classify(raw))
  }

  /** Which command a line is, stated on its trimmed text. */
  lemma ClassifyTags(raw: string)
    ensures Classify(raw).OpenScope? <==> AssemblyTag <= Trim(raw)
    ensures Classify(raw).AddPart? <==> PartTag <= Trim(raw)
    ensures Classify(raw).CloseScope? <==> Trim(raw) == EndTag
  {
    var line := Trim(raw);
    if AssemblyTag <= line {
      assert line[0] == 'A';
    }
    if line == EndTag {
      assert line[0] == 'E';
    }
  }

  /** The line grammar, stated on the trimmed text of the line. */
  lemma StepEffect(stack: seq<Assembly>, raw: string)
    requires |stack| >= 1
    ensures
      var r, line, n := Step(stack, raw), Trim(raw), |stack|;
      // `Assembly:` pushes an empty scope named after the trimmed remainder
      && (AssemblyTag <= line ==> r == stack + [Scope(Trim(line[|AssemblyTag|..]))])
      // `Part:` changes the innermost scope only, by appending one part
      && (PartTag <= line ==>
            && |r| == n
            && r[..n - 1] == stack[..n - 1]
            && Top(r).name == Top(stack).name
            && Top(r).children == Top(stack).children
            && Top(r).parts == Top(stack).parts + [Part(NoId, Trim(line[|PartTag|..]))])
      // `EndAssembly` with only the root open does nothing
      && (line == EndTag && n == 1 ==> r == stack)
      // `EndAssembly` otherwise folds the innermost scope into its parent
      && (line == EndTag && n >= 2 ==> r == CloseTop(stack))
      // any other line, blank or differently cased ones included, does nothing
      && (!(AssemblyTag <= line) && !(PartTag <= line) && line != EndTag ==> r == stack)
  {
    ClassifyTags(raw);
  }

  /** The reading loop over all lines. */
  function Run(stack: seq<Assembly>, lines: seq<string>): (r: seq<Assembly>)
    requires |stack| >= 1
    ensures |r| >= 1 && r[0].name == stack[0].name
    decreases |lines|
  {
    if lines == [] then stack else Run(Step(stack, lines[0]), lines[1..])
  }

  /** End of input: close the open scopes innermost first and return the
      root. */
  function CloseAll(stack: seq<Assembly>): (root: Assembly)
    requires |stack| >= 1
    ensures root.name == stack[0].name
    decreases |stack|
  {
    if |stack| == 1 then stack[0] else CloseAll(CloseTop(stack))
  }

  /** The open scopes as the end-of-input close leaves them, built from the
      outside in: each scope keeps its own children and gains, as its last
      child, the scope opened after it, itself nested the same way. */
  function Nest(stack: seq<Assembly>): Assembly
    requires |stack| >= 1
    decreases |stack|
  {
    if |stack| == 1 then stack[0] else Attach(stack[0], Nest(stack[1..]))
  }

  /** Folding the innermost scope into its parent does not change the
      nesting. */
  lemma {:induction false} NestCloseTop(stack: seq<Assembly>)
    requires |stack| >= 2
    ensures Nest(CloseTop(stack)) == Nest(stack)
    decreases |stack|
  {
    if |stack| > 2 {
      assert CloseTop(stack)[1..] == CloseTop(stack[1..]);
      NestCloseTop(stack[1..]);
    }
  }

  /** Closing innermost first nests every open scope as the last child of
      the scope below it: [Root, A, B] becomes Root{.., A{.., B}}. */
  lemma {:induction false} CloseAllNests(stack: seq<Assembly>)
    requires |stack| >= 1
    ensures CloseAll(stack) == Nest(stack)
    decreases |stack|
  {
    if |stack| > 1 {
      NestCloseTop(stack);
      CloseAllNests(CloseTop(stack));
    }
  }

  /** An `EndAssembly` line, untrimmed, is a close. */
  lemma EndTagCloses()
    ensures Classify(EndTag) == CloseScope
  {
    TrimOfPadded("", EndTag, "");
    assert "" + EndTag + "" == EndTag;
    assert !(AssemblyTag <= EndTag) by { assert EndTag[0] == 'E'; }
    assert !(PartTag <= EndTag) by { assert EndTag[0] == 'E'; }
  }

  /** The end-of-input close does what one `EndAssembly` line per open scope
      above the root would do, leaving the root alone on the stack. */
  lemma {:induction false} CloseAllIsEnds(stack: seq<Assembly>)
    requires |stack| >= 1
    ensures Run(stack, seq(|stack| - 1, _ => EndTag)) == [CloseAll(stack)]
    decreases |stack|
  {
    var ends := seq(|stack| - 1, _ => EndTag);
    if |stack| > 1 {
      EndTagCloses();
      assert Step(stack, ends[0]) == CloseTop(stack);
      assert ends[1..] == seq(|CloseTop(stack)| - 1, _ => EndTag);
      CloseAllIsEnds(CloseTop(stack));
    } else {
      assert ends == [];
    }
  }

  /** The initial stack: one open scope named "Root". */
  const Start: seq<Assembly> := [Scope(RootName)]

  /** readModelFromStream over the whole content. The root is always named
      "Root", and content without lines gives a bare root. */
  function Read(content: string): (m: Model)
    ensures m.root.name == RootName
    ensures content == "" ==> m.root == Scope(RootName)
  {
    Model(CloseAll(Run(Start, GetLines(content))))
  }

  /** Number of lines whose trimmed form starts with `Assembly:`. */
  function AssemblyLineCount(lines: seq<string>): nat {
    if lines == [] then 0
    else (if AssemblyTag <= Trim(lines[0]) then 1 else 0) + AssemblyLineCount(lines[1..])
  }

  /** Number of lines whose trimmed form starts with `Part:`. */
  function PartLineCount(lines: seq<string>): nat {
    if lines == [] then 0
    else (if PartTag <= Trim(lines[0]) then 1 else 0) + PartLineCount(lines[1..])
  }

  lemma CloseTopCounts(stack: seq<Assembly>)
    requires |stack| >= 2
    ensures CountAssembliesIn(CloseTop(stack)) == CountAssembliesIn(stack)
    ensures CountPartsIn(CloseTop(stack)) == CountPartsIn(stack)
  {
    var n := |stack|;
    var below, p, c := stack[..n - 2], stack[n - 2], stack[n - 1];
    SplitLastTwo(stack);
    CountsSnoc(below + [p], c);
    CountsSnoc(below, p);
    CountsSnoc(below, Attach(p, c));
    AttachCounts(p, c);
  }

  lemma AddPartCounts(stack: seq<Assembly>, name: string)
    requires |stack| >= 1
    ensures CountAssembliesIn(Apply(stack, AddPart(name))) == CountAssembliesIn(stack)
    ensures CountPartsIn(Apply(stack, AddPart(name))) == CountPartsIn(stack) + 1
  {
    var n := |stack|;
    var top := Top(stack);
    var top' := top.(parts := top.parts + [Part(NoId, name)]);
    assert CountParts(top') == CountParts(top) + 1;
    assert CountAssemblies(top') == CountAssemblies(top);
    SplitLast(stack);
    CountsSnoc(stack[..n - 1], top);
    CountsSnoc(stack[..n - 1], top');
  }

  /** Each command adds what it declares to the assemblies and parts held on
      the stack, and nothing else. */
  lemma ApplyCounts(stack: seq<Assembly>, cmd: Command)
    requires |stack| >= 1
    ensures CountAssembliesIn(Apply(stack, cmd)) == CountAssembliesIn(stack) + (if cmd.OpenScope? then 1 else 0)
    ensures CountPartsIn(Apply(stack, cmd)) == CountPartsIn(stack) + (if cmd.AddPart? then 1 else 0)
  {
    var n := |stack|;
    match cmd
    case OpenScope(name) =>
      CountsSnoc(stack, Scope(name));
    case AddPart(name) =>
      AddPartCounts(stack, name);
    case CloseScope =>
      if n >= 2 {
        CloseTopCounts(stack);
      }
    case Skip =>
  }

  lemma {:induction false} RunCounts(stack: seq<Assembly>, lines: seq<string>)
    requires |stack| >= 1
    ensures CountAssembliesIn(Run(stack, lines)) == CountAssembliesIn(stack) + AssemblyLineCount(lines)
    ensures CountPartsIn(Run(stack, lines)) == CountPartsIn(stack) + PartLineCount(lines)
    decreases |lines|
  {
    if lines != [] {
      ClassifyTags(lines[0]);
      ApplyCounts(stack, Classify(lines[0]));
      RunCounts(Step(stack, lines[0]), lines[1..]);
    }
  }

  lemma {:induction false} CloseAllCounts(stack: seq<Assembly>)
    requires |stack| >= 1
    ensures CountAssemblies(CloseAll(stack)) == CountAssembliesIn(stack)
    ensures CountParts(CloseAll(stack)) == CountPartsIn(stack)
    decreases |stack|
  {
    if |stack| == 1 {
      assert stack[1..] == [];
    } else {
      CloseTopCounts(stack);
      CloseAllCounts(CloseTop(stack));
    }
  }

  /** Nothing is lost or invented: below the root there is one assembly per
      `Assembly:` line, and the tree holds one part per `Part:` line, however
      the `EndAssembly` lines are placed. */
  lemma ReadCounts(content: string)
    ensures CountAssemblies(Read(content).root) == 1 + AssemblyLineCount(GetLines(content))
    ensures CountParts(Read(content).root) == PartLineCount(GetLines(content))
  {
    var lines := GetLines(content);
    RunCounts(Start, lines);
    CloseAllCounts(Run(Start, lines));
    assert Start[1..] == [];
  }

  /** The loop over two stretches of lines is the loop over the first
      followed by the loop over the second. */
  lemma {:induction false} RunAppend(stack: seq<Assembly>, xs: seq<string>, ys: seq<string>)
    requires |stack| >= 1
    ensures Run(stack, xs + ys) == Run(Run(stack, xs), ys)
    decreases |xs|
  {
    if xs == [] {
      assert xs + ys == ys;
    } else {
      assert (xs + ys)[1..] == xs[1..] + ys;
      RunAppend(Step(stack, xs[0]), xs[1..], ys);
    }
  }

  /** A line that is none of the three forms can be removed from the input
      without changing the result. */
  lemma UnrecognisedLineIgnored(stack: seq<Assembly>, xs: seq<string>, u: string, ys: seq<string>)
    requires |stack| >= 1
    requires !(AssemblyTag <= Trim(u)) && !(PartTag <= Trim(u)) && Trim(u) != EndTag
    ensures Run(stack, xs + [u] + ys) == Run(stack, xs + ys)
  {
    RunAppend(stack, xs + [u], ys);
    RunAppend(stack, xs, [u]);
    RunAppend(stack, xs, ys);
    assert [u][1..] == [];
  }
}
