/** bn_ctx.c: the frame-stacked pool of temporaries. */
module Context {
  import opened Bignums

  // ---------- the pool without its numbers

  /** tos, depth, pos and too_many of a BN_CTX. */
  datatype State = State(tos: nat, depth: nat, pos: seq<nat>, tooMany: bool)

  /** BN_CTX_NUM and BN_CTX_NUM_POS */
  const NUM: nat := 32
  const NUM_POS: nat := 12

  /** The saved positions ascend to tos; frames beyond the last saved one hold nothing. */
  ghost predicate Inv(s: State) {
    && |s.pos| == NUM_POS && s.tos <= NUM
    && (forall i, j | 0 <= i < j < s.depth && j < NUM_POS :: s.pos[i] <= s.pos[j])
    && (forall i | 0 <= i < s.depth && i < NUM_POS :: s.pos[i] <= s.tos)
  }

  function StartOf(s: State): State
    requires |s.pos| == NUM_POS
  {
    s.(pos := if s.depth < NUM_POS then s.pos[s.depth := s.tos] else s.pos, depth := s.depth + 1)
  }

  /** Whether BN_CTX_get returns NULL. */
  predicate Refuses(s: State) {
    s.depth > NUM_POS || s.tos >= NUM
  }

  function GetOf(s: State): State {
    if Refuses(s) then s.(tooMany := true) else s.(tos := s.tos + 1)
  }

  function EndOf(s: State): State
    requires |s.pos| == NUM_POS
  {
    var s := if s.depth == 0 then StartOf(s) else s;
    s.(tooMany := false, depth := s.depth - 1, tos := if s.depth - 1 < NUM_POS then s.pos[s.depth - 1] else s.tos)
  }

  lemma OpsKeepInv(s: State)
    requires Inv(s)
    ensures Inv(StartOf(s)) && Inv(GetOf(s)) && Inv(EndOf(s))
  {}

  // ---------- runs

  /** A well-nested run: gets, and complete frames with runs inside. */
  datatype Run = Stop | Get(rest: Run) | Frame(body: Run, rest: Run)

  ghost function Exec(s: State, run: Run): (t: State)
    requires Inv(s)
    ensures Inv(t)
    decreases run
  {
    OpsKeepInv(s);
    match run
    case Stop => s
    case Get(rest) => Exec(GetOf(s), rest)
    case Frame(body, rest) =>
      var inner := Exec(StartOf(s), body);
      OpsKeepInv(inner);
      Exec(EndOf(inner), rest)
  }

  /** The temporaries of the run that are still held at its end, in the order they were handed out. */
  ghost function Held(s: State, run: Run): seq<nat>
    requires Inv(s)
    decreases run
  {
    OpsKeepInv(s);
    match run
    case Stop => []
    case Get(rest) => (if Refuses(s) then [] else [s.tos]) + Held(GetOf(s), rest)
    case Frame(body, rest) =>
      var inner := Exec(StartOf(s), body);
      OpsKeepInv(inner);
      Held(EndOf(inner), rest)
  }

  /** The indices from lo up to hi. */
  ghost function Interval(lo: nat, hi: nat): (r: seq<nat>)
    requires lo <= hi
    decreases hi - lo
  {
    if lo == hi then [] else [lo] + Interval(lo + 1, hi)
  }

  /** A run returns to the depth it started from and keeps the positions saved below it. */
  ghost predicate Same(s: State, t: State)
    requires Inv(s) && Inv(t)
  {
    t.depth == s.depth && s.tos <= t.tos && (s.depth > NUM_POS ==> t.tos == s.tos)
    && forall i | 0 <= i < s.depth && i < NUM_POS :: t.pos[i] == s.pos[i]
  }

  lemma {:induction false} RunKeeps(s: State, run: Run)
    requires Inv(s)
    ensures Same(s, Exec(s, run))
    decreases run, 0
  {
    OpsKeepInv(s);
    match run
    case Stop =>
    case Get(rest) => RunKeeps(GetOf(s), rest);
    case Frame(body, rest) =>
      FrameRestores(s, body);
      RunKeeps(EndOf(Exec(StartOf(s), body)), rest);
  }

  /** BN_CTX_end gives back exactly what was taken since the matching start, however deep it is. */
  lemma {:induction false} FrameRestores(s: State, body: Run)
    requires Inv(s)
    ensures var t := EndOf(Exec(StartOf(s), body));
            Inv(t) && Same(s, t) && t.tos == s.tos && !t.tooMany
    decreases body, 1
  {
    OpsKeepInv(s);
    RunKeeps(StartOf(s), body);
    OpsKeepInv(Exec(StartOf(s), body));
  }

  /** The temporaries a run holds are consecutive and all above those handed out before it: none is
      handed out twice while it is held. */
  lemma {:induction false} HeldDistinct(s: State, run: Run)
    requires Inv(s)
    ensures s.tos <= Exec(s, run).tos && Held(s, run) == Interval(s.tos, Exec(s, run).tos)
    decreases run
  {
    OpsKeepInv(s);
    RunKeeps(s, run);
    match run
    case Stop =>
    case Get(rest) =>
      RunKeeps(GetOf(s), rest);
      HeldDistinct(GetOf(s), rest);
    case Frame(body, rest) =>
      FrameRestores(s, body);
      HeldDistinct(EndOf(Exec(StartOf(s), body)), rest);
  }

  lemma {:induction false} IntervalMembers(lo: nat, hi: nat)
    requires lo <= hi
    ensures |Interval(lo, hi)| == hi - lo
    ensures forall i | 0 <= i < hi - lo :: Interval(lo, hi)[i] == lo + i
    decreases hi - lo
  {
    if lo < hi {
      IntervalMembers(lo + 1, hi);
      forall i | 0 <= i < hi - lo ensures Interval(lo, hi)[i] == lo + i {
        if i > 0 { assert Interval(lo, hi)[i] == Interval(lo + 1, hi)[i - 1]; }
      }
    }
  }

  // ---------- unfinished runs

  /** Runs with an open frame after each: the state in the middle of nested calls. */
  ghost function ExecOpen(s: State, runs: seq<Run>): (t: State)
    requires Inv(s)
    ensures Inv(t)
  {
    if runs == [] then s
    else
      var inner := ExecOpen(s, runs[..|runs| - 1]);
      OpsKeepInv(Exec(inner, runs[|runs| - 1]));
      StartOf(Exec(inner, runs[|runs| - 1]))
  }

  /** Everything held in all the open frames. */
  ghost function HeldOpen(s: State, runs: seq<Run>): seq<nat>
    requires Inv(s)
  {
    if runs == [] then []
    else HeldOpen(s, runs[..|runs| - 1]) + Held(ExecOpen(s, runs[..|runs| - 1]), runs[|runs| - 1])
  }

  lemma {:induction false} IntervalJoin(lo: nat, mid: nat, hi: nat)
    requires lo <= mid <= hi
    ensures Interval(lo, mid) + Interval(mid, hi) == Interval(lo, hi)
    decreases mid - lo
  {
    if lo < mid {
      IntervalJoin(lo + 1, mid, hi);
      assert Interval(lo, mid) + Interval(mid, hi) == [lo] + (Interval(lo + 1, mid) + Interval(mid, hi));
    } else {
      assert Interval(lo, mid) == [];
    }
  }

  /** What all open frames hold together is consecutive, from the position at the outermost start up to tos. */
  lemma {:induction false} OpenConsecutive(s: State, runs: seq<Run>)
    requires Inv(s)
    ensures s.tos <= ExecOpen(s, runs).tos && HeldOpen(s, runs) == Interval(s.tos, ExecOpen(s, runs).tos)
  {
    if runs != [] {
      var init := runs[..|runs| - 1];
      OpenConsecutive(s, init);
      HeldDistinct(ExecOpen(s, init), runs[|runs| - 1]);
      IntervalJoin(s.tos, ExecOpen(s, init).tos, Exec(ExecOpen(s, init), runs[|runs| - 1]).tos);
    }
  }

  /** The temporaries held in all open frames are pairwise distinct, and none was handed out before. */
  lemma OpenDistinct(s: State, runs: seq<Run>, i: nat, j: nat)
    requires Inv(s) && i < j < |HeldOpen(s, runs)|
    ensures HeldOpen(s, runs)[i] != HeldOpen(s, runs)[j] && s.tos <= HeldOpen(s, runs)[i]
  {
    OpenConsecutive(s, runs);
    IntervalMembers(s.tos, ExecOpen(s, runs).tos);
  }

  /** Starts (true) and gets (false) only, no end. */
  ghost function ExecNoEnd(s: State, ops: seq<bool>): (t: State)
    requires Inv(s)
    ensures Inv(t)
  {
    if ops == [] then s
    else
      var inner := ExecNoEnd(s, ops[..|ops| - 1]);
      OpsKeepInv(inner);
      if ops[|ops| - 1] then StartOf(inner) else GetOf(inner)
  }

  /** Once a get has failed, every get fails until there has been an end. */
  lemma {:induction false} FailureSticks(s: State, ops: seq<bool>)
    requires Inv(s) && Refuses(s)
    ensures Refuses(ExecNoEnd(s, ops))
  {
    if ops != [] { FailureSticks(s, ops[..|ops| - 1]); }
  }

  // ---------- BN_CTX

  class Ctx {
    const bn: seq<Bignum>
    var tos: nat
    var depth: nat
    var pos: seq<nat>
    var tooMany: bool

    ghost function Abs(): State
      reads this
    {
      State(tos, depth, pos, tooMany)
    }

    ghost predicate Valid()
      reads this
    {
      Inv(Abs()) && |bn| == NUM && forall i, j | 0 <= i < j < NUM :: bn[i] != bn[j]
    }

    /** BN_CTX_init */
    constructor ()
      ensures Valid() && tos == 0 && depth == 0 && !tooMany
    {
      var b: seq<Bignum> := [];
      while |b| < NUM
        invariant |b| <= NUM && forall i, j | 0 <= i < j < |b| :: b[i] != b[j]
      {
        var t := new Bignum();
        b := b + [t];
      }
      bn, tos, depth, pos, tooMany := b, 0, 0, seq(NUM_POS, i => 0), false;
    }

    /** BN_CTX_start */
    method Start()
      requires Valid()
      modifies this
      ensures Valid() && Abs() == StartOf(old(Abs()))
    {
      OpsKeepInv(Abs());
      if depth < NUM_POS { pos := pos[depth := tos]; }
      depth := depth + 1;
    }

    /** BN_CTX_get */
    method Get() returns (t: Bignum?)
      requires Valid()
      modifies this
      ensures Valid() && Abs() == GetOf(old(Abs()))
      ensures t == if Refuses(old(Abs())) then null else bn[old(tos)]
    {
      OpsKeepInv(Abs());
      if depth > NUM_POS || tos >= NUM {
        if !tooMany { tooMany := true; }
        return null;
      }
      t := bn[tos];
      tos := tos + 1;
    }

    /** BN_CTX_end */
    method End()
      requires Valid()
      modifies this
      ensures Valid() && Abs() == EndOf(old(Abs()))
    {
      OpsKeepInv(Abs());
      if depth == 0 { Start(); }
      tooMany := false;
      depth := depth - 1;
      if depth < NUM_POS { tos := pos[depth]; }
    }
  }
}
