/** The trace classifier of guess_data_struct/guess.cpp: one test case is a
    list of (command, value) pairs, replayed at once against a stack, a FIFO
    queue and a max priority queue. Command 1 pushes the value onto all
    three; command 2 pops all three and clears the flag of every structure
    whose popped value differs from the given one, or clears every flag if
    the structures are empty; any other command is ignored. The verdict
    names the one structure whose flag survived, says "impossible" when none
    did and "not sure" when several did.

    The priority queue is a bag of values in a sequence; its top is the
    maximum of the bag. */
module Guess {

  datatype Verdict = Impossible | PriorityQueue | Queue | Stack | NotSure

  /** The line the program prints for a verdict. */
  function Text(v: Verdict): string
  {
    match v
    case Impossible => "impossible"
    case PriorityQueue => "priority queue"
    case Queue => "queue"
    case Stack => "stack"
    case NotSure => "not sure"
  }

  /** Each verdict has its own line: no two verdicts print the same text. */
  lemma {:induction false} TextNamesVerdict(v: Verdict, w: Verdict)
    ensures Text(v) == Text(w) ==> v == w
  {
  }

  /** The state of a test case: the three structures and the three flags. */
  datatype Run = Run(stack: seq<int>, queue: seq<int>, bag: seq<int>, isStk: bool, isQ: bool, isPq: bool)

  /** The three structures always hold the same number of values, as they
      are pushed and popped together. */
  predicate Balanced(r: Run)
  {
    |r.stack| == |r.queue| == |r.bag|
  }

  /** The largest value of a non-empty bag: the top of the priority queue. */
  function Max(s: seq<int>): (m: int)
    requires |s| > 0
    ensures m in s && forall x :: x in s ==> x <= m
  {
    if |s| == 1 then s[0]
    else
      var m := Max(s[1..]);
      assert s == [s[0]] + s[1..];
      if s[0] >= m then s[0] else m
  }

  /** The bag with one occurrence of `x` taken out. */
  function RemoveOne(s: seq<int>, x: int): (r: seq<int>)
    requires x in s
    ensures multiset(r) == multiset(s) - multiset{x} && |r| == |s| - 1
  {
    assert s == [s[0]] + s[1..];
    if s[0] == x then s[1..] else [s[0]] + RemoveOne(s[1..], x)
  }

  const Start := Run([], [], [], true, true, true)

  /** One command of the trace. */
  function Step(r: Run, op: (int, int)): (r': Run)
    requires Balanced(r)
    ensures Balanced(r')
  {
    var (cmd, val) := op;
    if cmd == 1 then
      r.(stack := r.stack + [val], queue := r.queue + [val], bag := r.bag + [val])
    else if cmd == 2 then
      if |r.stack| == 0 then r.(isStk := false, isQ := false, isPq := false)
      else
        var top := Max(r.bag);
        Run(r.stack[..|r.stack| - 1], r.queue[1..], RemoveOne(r.bag, top),
            r.isStk && r.stack[|r.stack| - 1] == val,
            r.isQ && r.queue[0] == val,
            r.isPq && top == val)
    else r
  }

  /** The state after the whole trace `ops`. */
  function Replay(ops: seq<(int, int)>): (r: Run)
    ensures Balanced(r)
  {
    if ops == [] then Start else Step(Replay(ops[..|ops| - 1]), ops[|ops| - 1])
  }

  /** The verdict from the three flags, read as the bits stack, queue and
      priority queue of a three-bit number: exactly one surviving flag
      names its structure, none gives "impossible", several "not sure". */
  function VerdictOf(isStk: bool, isQ: bool, isPq: bool): (v: Verdict)
    ensures v == Impossible <==> !isStk && !isQ && !isPq
    ensures v == Stack <==> isStk && !isQ && !isPq
    ensures v == Queue <==> !isStk && isQ && !isPq
    ensures v == PriorityQueue <==> !isStk && !isQ && isPq
    ensures v == NotSure <==> Count(isStk, isQ, isPq) >= 2
  {
    var flags := (if isStk then 4 else 0) + (if isQ then 2 else 0) + (if isPq then 1 else 0);
    if flags == 0 then Impossible
    else if flags == 1 then PriorityQueue
    else if flags == 2 then Queue
    else if flags == 4 then Stack
    else NotSure
  }

  function Count(a: bool, b: bool, c: bool): nat
  {
    (if a then 1 else 0) + (if b then 1 else 0) + (if c then 1 else 0)
  }

  /** One test case: the loop of the program over its commands, on three
      structures changed in place, and the verdict its flags give. */
  method Classify(ops: seq<(int, int)>) returns (verdict: Verdict)
    ensures verdict == VerdictOf(Replay(ops).isStk, Replay(ops).isQ, Replay(ops).isPq)
  {
    var stack: seq<int> := [];
    var queue: seq<int> := [];
    var bag: seq<int> := [];
    var isStk, isQ, isPq := true, true, true;
    for i := 0 to |ops|
      invariant Run(stack, queue, bag, isStk, isQ, isPq) == Replay(ops[..i])
    {
      assert ops[..i + 1][..i] == ops[..i];
      var (cmd, val) := ops[i];
      if cmd == 1 {
        bag := bag + [val];
        stack := stack + [val];
        queue := queue + [val];
      } else if cmd == 2 {
        if |stack| == 0 {
          isStk, isQ, isPq := false, false, false;
          continue;
        }
        isStk := isStk && stack[|stack| - 1] == val;
        stack := stack[..|stack| - 1];
        isQ := isQ && queue[0] == val;
        queue := queue[1..];
        var top := Max(bag);
        isPq := isPq && top == val;
        bag := RemoveOne(bag, top);
      }
    }
    assert ops[..|ops|] == ops;
    verdict := VerdictOf(isStk, isQ, isPq);
  }

  // ---------------------------------------------------------------------
  // Properties of a test case

  /** A push adds the value on top of the stack, at the back of the queue
      and into the bag, and leaves the flags. */
  lemma {:induction false} PushAddsToAll(r: Run, v: int)
    requires Balanced(r)
    ensures var r' := Step(r, (1, v));
      && r'.stack == r.stack + [v] && r'.queue == r.queue + [v]
      && multiset(r'.bag) == multiset(r.bag) + multiset{v}
      && r'.isStk == r.isStk && r'.isQ == r.isQ && r'.isPq == r.isPq
  {
  }

  /** A pop with nothing pushed clears all three flags. */
  lemma {:induction false} PopOnEmptyClears(r: Run, v: int)
    requires Balanced(r) && r.stack == []
    ensures var r' := Step(r, (2, v));
      !r'.isStk && !r'.isQ && !r'.isPq && r'.stack == [] && r'.queue == [] && r'.bag == []
  {
  }

  /** A command other than push and pop changes nothing. */
  lemma {:induction false} OtherCommandIgnored(r: Run, op: (int, int))
    requires Balanced(r) && op.0 != 1 && op.0 != 2
    ensures Step(r, op) == r
  {
  }

  /** A cleared flag stays cleared for the rest of the test case. */
  lemma {:induction false} FlagsMonotone(ops: seq<(int, int)>, i: nat)
    requires i <= |ops|
    ensures Replay(ops).isStk ==> Replay(ops[..i]).isStk
    ensures Replay(ops).isQ ==> Replay(ops[..i]).isQ
    ensures Replay(ops).isPq ==> Replay(ops[..i]).isPq
    decreases |ops|
  {
    if i < |ops| {
      var init := ops[..|ops| - 1];
      assert init[..i] == ops[..i];
      FlagsMonotone(init, i);
    } else {
      assert ops[..i] == ops;
    }
  }

  /** The flag of structure `f`: 0 the stack, 1 the queue, 2 the
      priority queue. */
  function Flag(r: Run, f: int): bool
  {
    if f == 0 then r.isStk else if f == 1 then r.isQ else r.isPq
  }

  /** Command `op` is not a pop, or it is a pop that meets non-empty
      structures and structure `f` returns the popped value: the top of the
      stack, the front of the queue or the maximum of the bag. */
  predicate PopMatches(r: Run, op: (int, int), f: int)
    requires Balanced(r)
  {
    op.0 == 2 ==>
      && r.stack != []
      && (if f == 0 then r.stack[|r.stack| - 1] == op.1
          else if f == 1 then r.queue[0] == op.1
          else Max(r.bag) == op.1)
  }

  /** One command keeps the flag of structure `f` exactly when it was set
      and the command's pop, if any, matches that structure. */
  lemma {:induction false} StepFlag(r: Run, op: (int, int), f: int)
    requires Balanced(r)
    ensures Flag(Step(r, op), f) == (Flag(r, f) && PopMatches(r, op, f))
  {
  }

  /** A flag survives a trace exactly when every pop of the trace matched
      its structure. */
  lemma {:induction false} FlagTrace(ops: seq<(int, int)>, f: int)
    ensures Flag(Replay(ops), f) <==>
      forall k :: 0 <= k < |ops| ==> PopMatches(Replay(ops[..k]), ops[k], f)
  {
    if Flag(Replay(ops), f) {
      FlagKept(ops, f);
    } else {
      FlagLost(ops, f);
    }
  }

  /** A surviving flag: every pop of the trace matched its structure. */
  lemma {:induction false} FlagKept(ops: seq<(int, int)>, f: int)
    requires Flag(Replay(ops), f)
    ensures forall k :: 0 <= k < |ops| ==> PopMatches(Replay(ops[..k]), ops[k], f)
    decreases |ops|
  {
    if ops != [] {
      var n := |ops| - 1;
      var init := ops[..n];
      StepFlag(Replay(init), ops[n], f);
      FlagKept(init, f);
      forall k | 0 <= k < |ops| ensures PopMatches(Replay(ops[..k]), ops[k], f) {
        if k < n {
          assert init[..k] == ops[..k] && init[k] == ops[k];
        }
      }
    }
  }

  /** A cleared flag: some pop of the trace did not match its structure. */
  lemma {:induction false} FlagLost(ops: seq<(int, int)>, f: int)
    requires !Flag(Replay(ops), f)
    ensures exists k :: 0 <= k < |ops| && !PopMatches(Replay(ops[..k]), ops[k], f)
    decreases |ops|
  {
    var n := |ops| - 1;
    var init := ops[..n];
    StepFlag(Replay(init), ops[n], f);
    if Flag(Replay(init), f) {
      assert !PopMatches(Replay(ops[..n]), ops[n], f);
    } else {
      FlagLost(init, f);
      var k :| 0 <= k < |init| && !PopMatches(Replay(init[..k]), init[k], f);
      assert init[..k] == ops[..k] && init[k] == ops[k];
    }
  }

  /** The stack flag survives exactly when every pop met a non-empty stack
      and returned the most recently pushed value not yet popped. */
  lemma {:induction false} StackFlag(ops: seq<(int, int)>)
    ensures Replay(ops).isStk <==>
      forall k :: 0 <= k < |ops| ==> PopMatches(Replay(ops[..k]), ops[k], 0)
  {
    FlagTrace(ops, 0);
  }

  /** The queue flag survives exactly when every pop met a non-empty queue
      and returned the earliest pushed value not yet popped. */
  lemma {:induction false} QueueFlag(ops: seq<(int, int)>)
    ensures Replay(ops).isQ <==>
      forall k :: 0 <= k < |ops| ==> PopMatches(Replay(ops[..k]), ops[k], 1)
  {
    FlagTrace(ops, 1);
  }

  /** The priority-queue flag survives exactly when every pop met a
      non-empty bag and returned the largest value not yet popped. */
  lemma {:induction false} PriorityQueueFlag(ops: seq<(int, int)>)
    ensures Replay(ops).isPq <==>
      forall k :: 0 <= k < |ops| ==> PopMatches(Replay(ops[..k]), ops[k], 2)
  {
    FlagTrace(ops, 2);
  }

  /** A pop that meets empty structures anywhere in a test case makes its
      verdict "impossible". */
  lemma {:induction false} EmptyPopImpossible(ops: seq<(int, int)>, k: nat)
    requires k < |ops| && ops[k].0 == 2 && Replay(ops[..k]).stack == []
    ensures VerdictOf(Replay(ops).isStk, Replay(ops).isQ, Replay(ops).isPq) == Impossible
  {
    FlagTrace(ops, 0);
    FlagTrace(ops, 1);
    FlagTrace(ops, 2);
  }
}
