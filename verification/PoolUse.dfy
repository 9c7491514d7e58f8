/** How much of the BN_CTX pool a run takes, and what the library's own nested calls take of it. */
module PoolUse {
  import opened Context

  // ---------- what a run takes

  function Max(x: nat, y: nat): (m: nat)
    ensures m >= x && m >= y && (m == x || m == y)
  {
    if x > y then x else y
  }

  /** The most temporaries a run holds at a time, counted from its start. */
  function Height(run: Run): nat {
    match run
    case Stop => 0
    case Get(rest) => 1 + Height(rest)
    case Frame(body, rest) => Max(Height(body), Height(rest))
  }

  /** The deepest frame in which a run asks for a temporary, counted from its start. */
  function Levels(run: Run): nat {
    match run
    case Stop => 0
    case Get(rest) => Levels(rest)
    case Frame(body, rest) => Max(if Height(body) > 0 then 1 + Levels(body) else 0, Levels(rest))
  }

  /** No get of the run returns NULL. */
  ghost predicate Granted(s: State, run: Run)
    requires Inv(s)
    decreases run
  {
    OpsKeepInv(s);
    match run
    case Stop => true
    case Get(rest) => !Refuses(s) && Granted(GetOf(s), rest)
    case Frame(body, rest) =>
      var inner := Exec(StartOf(s), body);
      OpsKeepInv(inner);
      Granted(StartOf(s), body) && Granted(EndOf(inner), rest)
  }

  lemma {:induction false} NoGets(run: Run)
    requires Height(run) == 0
    ensures Levels(run) == 0
  {
    match run
    case Stop =>
    case Frame(body, rest) => NoGets(rest);
  }

  /** A run is granted all it asks for exactly when its frames and its temporaries fit on top of those in use. */
  lemma {:induction false} GrantedExactly(s: State, run: Run)
    requires Inv(s)
    ensures Granted(s, run) <==> Height(run) == 0 || (s.depth + Levels(run) <= NUM_POS && s.tos + Height(run) <= NUM)
    decreases run
  {
    OpsKeepInv(s);
    match run
    case Stop =>
    case Get(rest) =>
      GrantedExactly(GetOf(s), rest);
      if Height(rest) == 0 { NoGets(rest); }
    case Frame(body, rest) =>
      FrameRestores(s, body);
      GrantedExactly(StartOf(s), body);
      GrantedExactly(EndOf(Exec(StartOf(s), body)), rest);
      if Height(rest) == 0 { NoGets(rest); }
  }

  // ---------- the calls of the library

  /** The functions that open a frame. Those that call others without one of their own, like BN_nnmod,
      BN_reciprocal and BN_MONT_CTX_set, are counted in their callers. */
  datatype Routine = Div | Mul | Sqr | Exp | ModMul | FromMontgomery | ModMulMontgomery | DivRecp | ModMulReciprocal
                   | ModInverse | Kronecker | ModExpRecp | ModExpSimple | ModExpMont | ModExpMontWord

  /** The temporaries a routine takes at most in its own frame, the optional ones included. */
  function Gets(c: Routine): nat {
    match c
    case ModInverse => 7
    case Div | DivRecp => 4
    case ModExpMontWord => 3
    case Mul | Sqr | Exp | ModExpMont | Kronecker => 2
    case _ => 1
  }

  /** The routines it calls, from inside its frame. */
  function Calls(c: Routine): set<Routine> {
    match c
    case Div | Mul | Sqr | FromMontgomery => {}
    case Exp => {Mul, Sqr}
    case ModMul => {Mul, Sqr, Div}
    case ModMulMontgomery => {Mul, Sqr, FromMontgomery}
    case DivRecp => {Div, Mul}
    case ModMulReciprocal => {Mul, Sqr, DivRecp}
    case ModInverse => {Div, Mul}
    case Kronecker => {Div}
    case ModExpRecp => {Div, ModMulReciprocal}
    case ModExpSimple => {Div, ModMul}
    case ModExpMont | ModExpMontWord => {Div, ModInverse, ModMulMontgomery, FromMontgomery}
  }

  /** What a routine can do between its start and its end: at most k gets and any number of calls, in any
      order, each with a frame of its own. */
  ghost predicate BodyOf(c: Routine, k: nat, body: Run)
    decreases body
  {
    match body
    case Stop => true
    case Get(rest) => k > 0 && BodyOf(c, k - 1, rest)
    case Frame(inner, rest) => (exists d | d in Calls(c) :: BodyOf(d, Gets(d), inner)) && BodyOf(c, k, rest)
  }

  /** The most temporaries a routine and those below it hold at a time, and the most frames. */
  function Need(c: Routine): nat {
    match c
    case Mul | Sqr => 2
    case FromMontgomery => 1
    case Div | Exp => 4
    case ModMulMontgomery => 3
    case ModMul => 5
    case Kronecker | ModExpSimple => 6
    case DivRecp => 8
    case ModMulReciprocal => 9
    case ModExpRecp => 10
    case ModInverse => 11
    case ModExpMont => 13
    case ModExpMontWord => 14
  }

  function Frames(c: Routine): nat {
    match c
    case Div | Mul | Sqr | FromMontgomery => 1
    case Exp | ModMul | ModMulMontgomery | DivRecp | ModInverse | Kronecker => 2
    case ModMulReciprocal | ModExpSimple | ModExpMont | ModExpMontWord => 3
    case ModExpRecp => 4
  }

  lemma CallsNeed(c: Routine, d: Routine)
    requires d in Calls(c)
    ensures Gets(c) + Need(d) <= Need(c) && 1 + Frames(d) <= Frames(c)
  {}

  lemma {:induction false} BodyFits(c: Routine, k: nat, body: Run)
    requires BodyOf(c, k, body) && k <= Gets(c)
    ensures Height(body) + Gets(c) <= k + Need(c) && 1 + Levels(body) <= Frames(c)
    decreases body
  {
    match body
    case Stop =>
    case Get(rest) => BodyFits(c, k - 1, rest);
    case Frame(inner, rest) =>
      var d :| d in Calls(c) && BodyOf(d, Gets(d), inner);
      CallsNeed(c, d);
      BodyFits(d, Gets(d), inner);
      BodyFits(c, k, rest);
  }

  /** Whatever a routine does, no BN_CTX_get in it or below it fails while Need(c) temporaries and Frames(c)
      frames are free; 14 and 4 are enough for all. */
  lemma NeverRefused(s: State, c: Routine, body: Run)
    requires Inv(s) && BodyOf(c, Gets(c), body)
    requires s.depth + Frames(c) <= NUM_POS && s.tos + Need(c) <= NUM
    ensures Need(c) <= 14 && Frames(c) <= 4
    ensures Granted(s, Frame(body, Stop))
  {
    BodyFits(c, Gets(c), body);
    GrantedExactly(s, Frame(body, Stop));
  }

  // ---------- the bounds are reached

  /** k gets and then the run r. */
  function Taking(k: nat, r: Run): Run {
    if k == 0 then r else Get(Taking(k - 1, r))
  }

  lemma GetUses(r: Run, c: Routine, k: nat)
    requires BodyOf(c, k, r)
    ensures BodyOf(c, k + 1, Get(r)) && Height(Get(r)) == 1 + Height(r) && Levels(Get(r)) == Levels(r)
  {
    hide Calls, Gets;
  }

  lemma {:induction false} TakingUses(k: nat, r: Run, c: Routine, k': nat)
    requires BodyOf(c, k', r)
    ensures Height(Taking(k, r)) == k + Height(r) && Levels(Taking(k, r)) == Levels(r)
    ensures BodyOf(c, k + k', Taking(k, r))
  {
    hide BodyOf, Height, Levels;
    if k > 0 {
      TakingUses(k - 1, r, c, k');
      GetUses(Taking(k - 1, r), c, k - 1 + k');
    }
  }

  /** A callee that reaches the bounds. */
  function Deepest(c: Routine): Routine
    requires Calls(c) != {}
  {
    match c
    case Exp => Mul
    case ModMul | DivRecp | ModInverse | Kronecker => Div
    case ModMulMontgomery => Mul
    case ModMulReciprocal => DivRecp
    case ModExpRecp => ModMulReciprocal
    case ModExpSimple => ModMul
    case ModExpMont | ModExpMontWord => ModInverse
    case _ => Div
  }

  /** The bounds are exact: this body of the routine takes as much as Need and Frames say. */
  function Greedy(c: Routine): Run
    decreases Frames(c)
  {
    Taking(Gets(c), if Calls(c) == {} then Stop else
      assert Frames(Deepest(c)) < Frames(c); Frame(Greedy(Deepest(c)), Stop))
  }

  lemma DeepestNeeds(c: Routine)
    ensures Gets(c) > 0
    ensures Calls(c) == {} ==> Need(c) == Gets(c) && Frames(c) == 1
    ensures Calls(c) != {} ==>
      var d := Deepest(c); d in Calls(c) && Need(c) == Gets(c) + Need(d) && Frames(c) == 1 + Frames(d)
  {}

  lemma GreedyIs(c: Routine)
    ensures Calls(c) == {} ==> Greedy(c) == Taking(Gets(c), Stop)
    ensures Calls(c) != {} ==> Greedy(c) == Taking(Gets(c), Frame(Greedy(Deepest(c)), Stop))
  {
    hide Taking, Calls, Gets;
  }

  /** One call and nothing else. */
  lemma CallUses(c: Routine, d: Routine, r: Run)
    requires d in Calls(c) && BodyOf(d, Gets(d), r) && Height(r) > 0
    ensures BodyOf(c, 0, Frame(r, Stop))
    ensures Height(Frame(r, Stop)) == Height(r) && Levels(Frame(r, Stop)) == 1 + Levels(r)
  {
    hide Calls, Gets;
  }

  lemma NothingUses(c: Routine)
    ensures BodyOf(c, 0, Stop) && Height(Stop) == 0 && Levels(Stop) == 0
  {}

  lemma {:induction false} GreedyNeeds(c: Routine)
    ensures BodyOf(c, Gets(c), Greedy(c)) && Height(Greedy(c)) == Need(c) && 1 + Levels(Greedy(c)) == Frames(c)
    decreases Frames(c)
  {
    hide Gets, Calls, Need, Frames, Deepest, Greedy, BodyOf, Height, Levels, Taking;
    DeepestNeeds(c);
    GreedyIs(c);
    if Calls(c) == {} {
      NothingUses(c);
      TakingUses(Gets(c), Stop, c, 0);
    } else {
      var d := Deepest(c);
      DeepestNeeds(d);
      GreedyNeeds(d);
      CallUses(c, d, Greedy(d));
      TakingUses(Gets(c), Frame(Greedy(d), Stop), c, 0);
    }
  }

  /** So a routine is safe from refusal, in all it may do, exactly when that much is free. */
  lemma SafeExactly(s: State, c: Routine)
    requires Inv(s)
    ensures (forall body | BodyOf(c, Gets(c), body) :: Granted(s, Frame(body, Stop)))
       <==> s.depth + Frames(c) <= NUM_POS && s.tos + Need(c) <= NUM
  {
    if s.depth + Frames(c) <= NUM_POS && s.tos + Need(c) <= NUM {
      forall body | BodyOf(c, Gets(c), body) ensures Granted(s, Frame(body, Stop)) {
        NeverRefused(s, c, body);
      }
    } else {
      GreedyNeeds(c);
      GrantedExactly(s, Frame(Greedy(c), Stop));
    }
  }

  /** From a new pool every routine is safe. */
  lemma NewPoolIsEnough(c: Routine, body: Run, s: State)
    requires Inv(s) && s.tos == 0 && s.depth == 0 && BodyOf(c, Gets(c), body)
    ensures Granted(s, Frame(body, Stop))
  {
    NeverRefused(s, c, body);
  }
}
