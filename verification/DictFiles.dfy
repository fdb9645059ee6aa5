/** Reading a dictionary file with $INCLUDE directives: an explicit stack of open files that
    must deliver the recursive expansion. */
module DictFiles {
  import opened Wrappers
  import opened Sequences

  /** A line as the reader sees it: an include directive with its argument, or anything else. */
  datatype Line = Text(text: string) | Include(target: string)

  /** An include directive without an argument is delivered like any other line. */
  predicate Opens(l: Line) {
    l.Include? && l.target != ""
  }

  /** The files that open successfully, by name. */
  type Files = map<string, seq<Line>>

  /** Every include that leads to a file leads to one of smaller rank. */
  ghost predicate Acyclic(files: Files, rank: string -> nat) {
    forall f :: f in files ==>
      forall i :: 0 <= i < |files[f]| && Opens(files[f][i]) && files[f][i].target in files ==>
        rank(files[f][i].target) < rank(f)
  }

  /** What one step of the iteration hands to the caller: a line, or the exception raised for an
      include that does not open. */
  datatype Outcome = Delivered(line: Line) | Failed(target: string)

  /** An outcome with the file it comes from and its 1-based position there. */
  datatype Located = Located(outcome: Outcome, file: string, position: int)

  function OutcomeOf(l: Line): Outcome {
    if Opens(l) then Failed(l.target) else Delivered(l)
  }

  /** The recursive expansion of a file from line `i` on. */
  ghost function Expand(files: Files, rank: string -> nat, f: string, i: nat): seq<Located>
    requires Acyclic(files, rank) && f in files && i <= |files[f]|
    decreases rank(f), |files[f]| - i
  {
    if i == |files[f]| then []
    else
      var l := files[f][i];
      (if Opens(l) && l.target in files
       then Expand(files, rank, l.target, 0)
       else [Located(OutcomeOf(l), f, i + 1)])
      + Expand(files, rank, f, i + 1)
  }

  /** Turns of the reading loop still needed for a file from line `i` on: one per line, and one to
      notice the end. */
  ghost function Work(files: Files, rank: string -> nat, f: string, i: nat): (n: nat)
    requires Acyclic(files, rank) && f in files && i <= |files[f]|
    ensures n >= 1
    decreases rank(f), |files[f]| - i
  {
    if i == |files[f]| then 1
    else
      var l := files[f][i];
      1 + (if Opens(l) && l.target in files then Work(files, rank, l.target, 0) else 0)
      + Work(files, rank, f, i + 1)
  }

  /** `_Node`: the open file and how many of its lines have been read. */
  datatype Node = Node(name: string, current: nat)

  predicate NodeOk(files: Files, node: Node) {
    node.name in files && node.current <= |files[node.name]|
  }

  predicate StackOk(files: Files, stack: seq<Node>) {
    forall k :: 0 <= k < |stack| ==> NodeOk(files, stack[k])
  }

  /** What the stack still has to deliver; its top is the last element. */
  ghost function Remaining(files: Files, rank: string -> nat, stack: seq<Node>): seq<Located>
    requires Acyclic(files, rank) && StackOk(files, stack)
  {
    if stack == [] then []
    else
      var top := stack[|stack| - 1];
      assert NodeOk(files, top);
      Expand(files, rank, top.name, top.current) + Remaining(files, rank, stack[..|stack| - 1])
  }

  ghost function StackWork(files: Files, rank: string -> nat, stack: seq<Node>): nat
    requires Acyclic(files, rank) && StackOk(files, stack)
  {
    if stack == [] then 0
    else
      var top := stack[|stack| - 1];
      assert NodeOk(files, top);
      Work(files, rank, top.name, top.current) + StackWork(files, rank, stack[..|stack| - 1])
  }

  lemma Pushed(files: Files, rank: string -> nat, stack: seq<Node>, top: Node)
    requires Acyclic(files, rank) && StackOk(files, stack) && NodeOk(files, top)
    ensures StackOk(files, stack + [top])
    ensures Remaining(files, rank, stack + [top]) ==
            Expand(files, rank, top.name, top.current) + Remaining(files, rank, stack)
    ensures StackWork(files, rank, stack + [top]) ==
            Work(files, rank, top.name, top.current) + StackWork(files, rank, stack)
  {
    assert (stack + [top])[..|stack|] == stack;
  }

  /** Popping a finished file leaves the same lines to deliver, with less work. */
  lemma Popped(files: Files, rank: string -> nat, below: seq<Node>, top: Node)
    requires Acyclic(files, rank) && StackOk(files, below) && NodeOk(files, top)
    requires top.current == |files[top.name]|
    ensures StackOk(files, below + [top])
    ensures Remaining(files, rank, below + [top]) == Remaining(files, rank, below)
    ensures StackWork(files, rank, below + [top]) > StackWork(files, rank, below)
  {
    Pushed(files, rank, below, top);
  }

  /** Opening the file an include names, above the advanced includer, leaves the same lines to
      deliver, with less work. */
  lemma Opened(files: Files, rank: string -> nat, below: seq<Node>, top: Node)
    requires Acyclic(files, rank) && StackOk(files, below) && NodeOk(files, top)
    requires top.current < |files[top.name]|
    requires var l := files[top.name][top.current]; Opens(l) && l.target in files
    ensures
      var advanced := below + [Node(top.name, top.current + 1)];
      var above := advanced + [Node(files[top.name][top.current].target, 0)];
      && StackOk(files, below + [top]) && StackOk(files, advanced) && StackOk(files, above)
      && Remaining(files, rank, below + [top]) == Remaining(files, rank, above)
      && StackWork(files, rank, below + [top]) > StackWork(files, rank, above)
  {
    var next := Node(top.name, top.current + 1);
    var node := Node(files[top.name][top.current].target, 0);
    Pushed(files, rank, below, top);
    Pushed(files, rank, below, next);
    Pushed(files, rank, below + [next], node);
    var inner := Expand(files, rank, node.name, 0);
    var rest := Expand(files, rank, top.name, top.current + 1);
    Regroup(inner, rest, Remaining(files, rank, below));
  }

  /** Any other line is the next outcome. */
  lemma Taken(files: Files, rank: string -> nat, below: seq<Node>, top: Node)
    requires Acyclic(files, rank) && StackOk(files, below) && NodeOk(files, top)
    requires top.current < |files[top.name]|
    requires var l := files[top.name][top.current]; !(Opens(l) && l.target in files)
    ensures
      var advanced := below + [Node(top.name, top.current + 1)];
      && StackOk(files, below + [top]) && StackOk(files, advanced)
      && Remaining(files, rank, below + [top]) ==
         [Located(OutcomeOf(files[top.name][top.current]), top.name, top.current + 1)]
         + Remaining(files, rank, advanced)
  {
    Pushed(files, rank, below, top);
    Pushed(files, rank, below, Node(top.name, top.current + 1));
    var here := [Located(OutcomeOf(files[top.name][top.current]), top.name, top.current + 1)];
    Regroup(here, Expand(files, rank, top.name, top.current + 1), Remaining(files, rank, below));
  }

  class DictFile {
    const files: Files
    ghost const rank: string -> nat
    var stack: seq<Node>

    ghost predicate Valid()
      reads this
    {
      Acyclic(files, rank) && StackOk(files, stack)
    }

    ghost function ToDeliver(): seq<Located>
      reads this
      requires Valid()
    {
      Remaining(files, rank, stack)
    }

    constructor (files: Files, ghost rank: string -> nat, entry: string)
      requires Acyclic(files, rank) && entry in files
      ensures Valid() && this.files == files && this.rank == rank
      ensures ToDeliver() == Expand(files, rank, entry, 0)
    {
      this.files := files;
      this.rank := rank;
      stack := [Node(entry, 0)];
      new;
      assert [] + [Node(entry, 0)] == stack;
      Pushed(files, rank, [], Node(entry, 0));
    }

    /** `file()`. */
    function FileName(): string
      reads this
    {
      if stack == [] then "" else stack[|stack| - 1].name
    }

    /** `line()`. */
    function LineNumber(): int
      reads this
    {
      if stack == [] then -1 else stack[|stack| - 1].current
    }

    /** `__next__`: the next outcome, or None at the end (StopIteration). Afterwards the object
        names the file and position it comes from. */
    method Next() returns (r: Option<Outcome>)
      requires Valid()
      modifies this`stack
      ensures Valid()
      ensures r.None? <==> old(ToDeliver()) == []
      ensures r.None? ==> ToDeliver() == [] && FileName() == "" && LineNumber() == -1
      ensures r.Some? ==>
                old(ToDeliver()) == [Located(r.value, FileName(), LineNumber())] + ToDeliver()
    {
      ghost var goal := ToDeliver();
      while stack != []
        invariant Valid() && ToDeliver() == goal
        decreases StackWork(files, rank, stack)
      {
        var top, below := stack[|stack| - 1], stack[..|stack| - 1];
        assert stack == below + [top];
        if top.current >= |files[top.name]| {
          Popped(files, rank, below, top);
          stack := below;
        } else {
          var line := files[top.name][top.current];
          stack := below + [Node(top.name, top.current + 1)];
          if !Opens(line) {
            Taken(files, rank, below, top);
            return Some(Delivered(line));
          }
          if line.target !in files {
            Taken(files, rank, below, top);
            return Some(Failed(line.target));
          }
          Opened(files, rank, below, top);
          stack := stack + [Node(line.target, 0)];
        }
      }
      return None;
    }

    /** Iterating the object to its end delivers exactly the recursive expansion of what was open,
        in order, each outcome under its own file and position. */
    method ReadAll() returns (outcomes: seq<Located>)
      requires Valid()
      modifies this`stack
      ensures Valid() && outcomes == old(ToDeliver()) && ToDeliver() == []
    {
      outcomes := [];
      ghost var goal := ToDeliver();
      var next := Next();
      while next.Some?
        invariant Valid()
        invariant next.Some? ==> outcomes + [Located(next.value, FileName(), LineNumber())] + ToDeliver() == goal
        invariant next.None? ==> outcomes == goal && ToDeliver() == []
        decreases next.Some?, |ToDeliver()|
      {
        outcomes := outcomes + [Located(next.value, FileName(), LineNumber())];
        ghost var rest := ToDeliver();
        next := Next();
        if next.Some? {
          assert outcomes + rest == outcomes + [Located(next.value, FileName(), LineNumber())] + ToDeliver();
        }
      }
    }
  }

  // --- Including a file is pasting it -----------------------------------------------------------

  /** An include line whose file opens. */
  predicate CanPaste(files: Files, f: string, i: nat) {
    f in files && i < |files[f]| && Opens(files[f][i]) && files[f][i].target in files
  }

  /** An include line replaced by the lines of the file it opens. */
  function Pasted(files: Files, f: string, i: nat): Files
    requires CanPaste(files, f, i)
  {
    files[f := files[f][..i] + files[files[f][i].target] + files[f][i + 1..]]
  }

  /** The outcomes without their files and positions. */
  function Outcomes(s: seq<Located>): (r: seq<Outcome>)
    ensures |r| == |s|
  {
    seq(|s|, k requires 0 <= k < |s| => s[k].outcome)
  }

  /** What one line contributes. */
  ghost function Contributes(files: Files, rank: string -> nat, l: Line): seq<Outcome>
    requires Acyclic(files, rank)
  {
    if Opens(l) && l.target in files then Outcomes(Expand(files, rank, l.target, 0)) else [OutcomeOf(l)]
  }

  ghost function AllContribute(files: Files, rank: string -> nat, lines: seq<Line>): seq<Outcome>
    requires Acyclic(files, rank)
  {
    if lines == [] then [] else Contributes(files, rank, lines[0]) + AllContribute(files, rank, lines[1..])
  }

  lemma {:induction false} ContributeAppend(files: Files, rank: string -> nat, a: seq<Line>, b: seq<Line>)
    requires Acyclic(files, rank)
    ensures AllContribute(files, rank, a + b) == AllContribute(files, rank, a) + AllContribute(files, rank, b)
  {
    if a == [] {
      assert a + b == b;
    } else {
      assert (a + b)[1..] == a[1..] + b;
      ContributeAppend(files, rank, a[1..], b);
    }
  }

  /** One line and what follows. */
  lemma LineContributes(files: Files, rank: string -> nat, f: string, i: nat)
    requires Acyclic(files, rank) && f in files && i < |files[f]|
    ensures Outcomes(Expand(files, rank, f, i)) ==
            Contributes(files, rank, files[f][i]) + Outcomes(Expand(files, rank, f, i + 1))
  {
    var l := files[f][i];
    var head := if Opens(l) && l.target in files then Expand(files, rank, l.target, 0)
                else [Located(OutcomeOf(l), f, i + 1)];
    assert Expand(files, rank, f, i) == head + Expand(files, rank, f, i + 1);
    assert Contributes(files, rank, l) == Outcomes(head);
  }

  /** A file gives what its lines contribute in turn. */
  lemma {:induction false} FileContributes(files: Files, rank: string -> nat, f: string, i: nat)
    requires Acyclic(files, rank) && f in files && i <= |files[f]|
    ensures Outcomes(Expand(files, rank, f, i)) == AllContribute(files, rank, files[f][i..])
    decreases |files[f]| - i
  {
    if i < |files[f]| {
      FileContributes(files, rank, f, i + 1);
      LineContributes(files, rank, f, i);
      assert files[f][i..][1..] == files[f][i + 1..];
    }
  }

  lemma PastedAcyclic(files: Files, rank: string -> nat, f: string, i: nat)
    requires Acyclic(files, rank) && CanPaste(files, f, i)
    ensures Acyclic(Pasted(files, f, i), rank)
  {
    var t := files[f][i].target;
    var pasted := Pasted(files, f, i);
    forall j | 0 <= j < |pasted[f]| && Opens(pasted[f][j]) && pasted[f][j].target in pasted
      ensures rank(pasted[f][j].target) < rank(f)
    {
      if i <= j < i + |files[t]| {
        assert pasted[f][j] == files[t][j - i];
      } else {
        assert pasted[f][j] == files[f][if j < i then j else j - |files[t]| + 1];
      }
    }
  }

  /** Every include among the lines leads below `bound`. */
  ghost predicate Below(files: Files, rank: string -> nat, lines: seq<Line>, bound: nat) {
    forall k :: 0 <= k < |lines| && Opens(lines[k]) && lines[k].target in files ==> rank(lines[k].target) < bound
  }

  lemma Replaced(files: Files, rank: string -> nat, a: seq<Line>, l: Line, more: seq<Line>, b: seq<Line>)
    requires Acyclic(files, rank) && AllContribute(files, rank, more) == Contributes(files, rank, l)
    ensures AllContribute(files, rank, a + more + b) == AllContribute(files, rank, a + [l] + b)
  {
    ContributeAppend(files, rank, a + more, b);
    ContributeAppend(files, rank, a, more);
    ContributeAppend(files, rank, a + [l], b);
    ContributeAppend(files, rank, a, [l]);
    assert AllContribute(files, rank, [l]) == AllContribute(files, rank, more) by {
      assert [l][1..] == [];
      assert AllContribute(files, rank, [l]) == Contributes(files, rank, l) + [];
    }
  }

  lemma IncludeContributes(files: Files, rank: string -> nat, f: string, i: nat)
    requires Acyclic(files, rank) && CanPaste(files, f, i)
    ensures AllContribute(files, rank, files[files[f][i].target]) == Contributes(files, rank, files[f][i])
  {
    var t := files[f][i].target;
    FileContributes(files, rank, t, 0);
    assert files[t][0..] == files[t];
  }

  /** The pasted lines, read in the old files, contribute what the include did. */
  lemma PasteContributes(files: Files, rank: string -> nat, f: string, i: nat)
    requires Acyclic(files, rank) && CanPaste(files, f, i)
    ensures AllContribute(files, rank, Pasted(files, f, i)[f]) == AllContribute(files, rank, files[f])
  {
    IncludeContributes(files, rank, f, i);
    Replaced(files, rank, files[f][..i], files[f][i], files[files[f][i].target], files[f][i + 1..]);
    assert files[f][..i] + [files[f][i]] + files[f][i + 1..] == files[f];
  }

  lemma {:induction false} SameContribution(files: Files, rank: string -> nat, f: string, i: nat, lines: seq<Line>,
                                            bound: nat)
    requires Acyclic(files, rank) && CanPaste(files, f, i) && Below(files, rank, lines, bound)
    ensures Acyclic(Pasted(files, f, i), rank)
    ensures AllContribute(Pasted(files, f, i), rank, lines) == AllContribute(files, rank, lines)
    decreases bound, 0, |lines|
  {
    PastedAcyclic(files, rank, f, i);
    if lines != [] {
      assert Below(files, rank, lines[1..], bound) by {
        assert forall k :: 0 <= k < |lines[1..]| ==> lines[1..][k] == lines[k + 1];
      }
      SameContribution(files, rank, f, i, lines[1..], bound);
      var l := lines[0];
      if Opens(l) && l.target in files { IncludeIsPaste(files, rank, f, i, l.target); }
    }
  }

  /** Including a file means pasting it: with any include line replaced by the lines of the file it
      opens, every file still gives the same outcomes in the same order. */
  lemma {:induction false} IncludeIsPaste(files: Files, rank: string -> nat, f: string, i: nat, g: string)
    requires Acyclic(files, rank) && CanPaste(files, f, i) && g in files
    ensures Acyclic(Pasted(files, f, i), rank)
    ensures Outcomes(Expand(Pasted(files, f, i), rank, g, 0)) == Outcomes(Expand(files, rank, g, 0))
    decreases rank(g), 1, 0
  {
    var pasted := Pasted(files, f, i);
    PastedAcyclic(files, rank, f, i);
    FileContributes(files, rank, g, 0);
    FileContributes(pasted, rank, g, 0);
    assert files[g][0..] == files[g] && pasted[g][0..] == pasted[g];
    SameContribution(files, rank, f, i, pasted[g], rank(g));
    if g == f { PasteContributes(files, rank, f, i); }
  }

  /** The rank only witnesses that the includes are acyclic: the expansion does not depend on it. */
  lemma {:induction false} RankIrrelevant(files: Files, rank: string -> nat, rank': string -> nat, f: string, i: nat)
    requires Acyclic(files, rank) && Acyclic(files, rank') && f in files && i <= |files[f]|
    ensures Expand(files, rank, f, i) == Expand(files, rank', f, i)
    decreases rank(f), |files[f]| - i
  {
    if i < |files[f]| {
      RankIrrelevant(files, rank, rank', f, i + 1);
      var l := files[f][i];
      if Opens(l) && l.target in files {
        RankIrrelevant(files, rank, rank', l.target, 0);
      }
    }
  }

  /** Every outcome names a line of a file that has it at that position, and no include of a file
      that opens is ever delivered. */
  lemma {:induction false} PositionsTrue(files: Files, rank: string -> nat, f: string, i: nat, k: nat)
    requires Acyclic(files, rank) && f in files && i <= |files[f]|
    requires k < |Expand(files, rank, f, i)|
    ensures
      var e := Expand(files, rank, f, i)[k];
      && e.file in files && 1 <= e.position <= |files[e.file]|
      && e.outcome == OutcomeOf(files[e.file][e.position - 1])
      && (e.outcome.Failed? ==> e.outcome.target !in files)
    decreases rank(f), |files[f]| - i
  {
    var l := files[f][i];
    var head := if Opens(l) && l.target in files then Expand(files, rank, l.target, 0)
                else [Located(OutcomeOf(l), f, i + 1)];
    if k >= |head| {
      PositionsTrue(files, rank, f, i + 1, k - |head|);
    } else if Opens(l) && l.target in files {
      PositionsTrue(files, rank, l.target, 0, k);
    }
  }
}
