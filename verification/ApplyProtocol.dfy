/**
 The dependency-ordered concurrent apply: one goroutine per component that has a manifest, a one-slot channel per child
 in the dependency table, and a WaitGroup. Each action of a goroutine on shared state is one step; the scheduler picks
 any enabled one.
 */
module ApplyProtocol {
  type Component = string

  /** Which components wait for which: every child has one parent, listed once, and no component is its own ancestor. */
  datatype Forest = Forest(children: map<Component, seq<Component>>, parent: map<Component, Component>,
                           rank: map<Component, nat>)
  {
    function Children(c: Component): seq<Component> {
      if c in children then children[c] else []
    }

    ghost predicate Valid() {
      && (forall c, i | 0 <= i < |Children(c)| :: Children(c)[i] in parent && parent[Children(c)[i]] == c)
      && (forall c, i, j | 0 <= i < j < |Children(c)| :: Children(c)[i] != Children(c)[j])
      && (forall c | c in parent :: c in Children(parent[c]))
      && (forall c | c in parent :: Rank(parent[c]) < Rank(c))
    }

    function Rank(c: Component): nat {
      if c in rank then rank[c] else 0
    }
  }

  /** `manifests`: the components to apply. `failing`: those whose apply returns an error. */
  datatype Config = Config(forest: Forest, manifests: set<Component>, failing: set<Component>)

  /** All proper ancestors of `c` have a manifest, and none of their applies fails. */
  ghost predicate Unblocked(cfg: Config, c: Component)
    requires cfg.forest.Valid()
    decreases cfg.forest.Rank(c)
  {
    c in cfg.forest.parent ==>
      var p := cfg.forest.parent[c];
      p in cfg.manifests && p !in cfg.failing && Unblocked(cfg, p)
  }

  /** Where a goroutine stands. */
  datatype Goroutine =
    | NotStarted
    | Waiting               // at the receive from its own channel
    | Ready                 // about to apply its manifest
    | Signalling(next: nat) // applied; about to signal child number `next`
    | Finished              // past wg.Done()
    | Failed                // returned without wg.Done()

  datatype State = State(
    goroutines: map<Component, Goroutine>,
    buffered: map<Component, int>,  // tokens in each child's channel
    received: map<Component, int>,  // tokens each child has taken out
    sent: map<Component, int>,      // tokens put in for each child
    applied: seq<Component>,        // the applies so far, in order
    waitGroup: int,                 // the counter of the WaitGroup
    spawning: bool,                 // the main goroutine is still in its loop
    returned: bool)                 // wg.Wait() has returned
  {
    function At(c: Component): Goroutine {
      if c in goroutines then goroutines[c] else NotStarted
    }
  }

  const CHANNEL_CAPACITY := 1

  function Count(m: map<Component, int>, c: Component): int {
    if c in m then m[c] else 0
  }

  datatype Step =
    | Spawn(c: Component)
    | EndLoop
    | Receive(c: Component)
    | Apply(c: Component)
    | Send(c: Component)
    | Done(c: Component)
    | Return

  const INITIAL := State(map[], map[], map[], map[], [], 0, true, false)

  ghost predicate Enabled(cfg: Config, st: State, step: Step) {
    match step
    case Spawn(c) => st.spawning && c in cfg.manifests && st.At(c) == NotStarted
    case EndLoop => st.spawning && forall c | c in cfg.manifests :: st.At(c) != NotStarted
    case Receive(c) => st.At(c) == Waiting && Count(st.buffered, c) > 0
    case Apply(c) => st.At(c) == Ready
    case Send(c) =>
      var g := st.At(c);
      && g.Signalling? && g.next < |cfg.forest.Children(c)|
      && Count(st.buffered, cfg.forest.Children(c)[g.next]) < CHANNEL_CAPACITY
    case Done(c) => var g := st.At(c); g.Signalling? && g.next >= |cfg.forest.Children(c)|
    case Return => !st.spawning && !st.returned && st.waitGroup == 0
  }

  /** What a step does. Only children have a channel; a nil channel is not waited on. */
  ghost function After(cfg: Config, st: State, step: Step): State
    requires Enabled(cfg, st, step)
  {
    match step
    case Spawn(c) =>
      var g := if c in cfg.forest.parent then Waiting else Ready;
      st.(goroutines := st.goroutines[c := g], waitGroup := st.waitGroup + 1)
    case EndLoop => st.(spawning := false)
    case Receive(c) =>
      st.(goroutines := st.goroutines[c := Ready],
          buffered := st.buffered[c := Count(st.buffered, c) - 1],
          received := st.received[c := Count(st.received, c) + 1])
    case Apply(c) =>
      var g := if c in cfg.failing then Failed else Signalling(0);
      st.(goroutines := st.goroutines[c := g], applied := st.applied + [c])
    case Send(c) =>
      var k := st.At(c).next;
      var child := cfg.forest.Children(c)[k];
      st.(goroutines := st.goroutines[c := Signalling(k + 1)],
          buffered := st.buffered[child := Count(st.buffered, child) + 1],
          sent := st.sent[child := Count(st.sent, child) + 1])
    case Done(c) => st.(goroutines := st.goroutines[c := Finished], waitGroup := st.waitGroup - 1)
    case Return => st.(returned := true)
  }

  /** `steps` can be taken one after the other from `st`. */
  ghost predicate IsRun(cfg: Config, st: State, steps: seq<Step>)
    decreases |steps|
  {
    steps == [] || (Enabled(cfg, st, steps[0]) && IsRun(cfg, After(cfg, st, steps[0]), steps[1..]))
  }

  ghost function Final(cfg: Config, st: State, steps: seq<Step>): State
    requires IsRun(cfg, st, steps)
    decreases |steps|
  {
    if steps == [] then st else Final(cfg, After(cfg, st, steps[0]), steps[1..])
  }

  ghost predicate Stuck(cfg: Config, st: State) {
    forall step :: !Enabled(cfg, st, step)
  }

  // ---- What every step keeps

  /** The child at position `i` has been signalled by a goroutine standing at `g`. */
  predicate PastChild(g: Goroutine, i: nat) {
    g.Finished? || (g.Signalling? && i < g.next)
  }

  predicate HasApplied(g: Goroutine) {
    g.Signalling? || g.Finished? || g.Failed?
  }

  ghost predicate GoroutinesInv(cfg: Config, st: State) {
    && (forall c | st.At(c) != NotStarted :: c in cfg.manifests)
    && (forall c | st.At(c) == Waiting :: c in cfg.forest.parent)
    && (forall c | st.At(c).Signalling? :: st.At(c).next <= |cfg.forest.Children(c)|)
    && (forall c | st.At(c).Signalling? || st.At(c).Finished? :: c !in cfg.failing)
    && (forall c | st.At(c).Failed? :: c in cfg.failing)
    && (!st.spawning ==> forall c | c in cfg.manifests :: st.At(c) != NotStarted)
  }

  /** Tokens are conserved, and one is sent exactly when the parent has got past the child. */
  ghost predicate TokensInv(cfg: Config, st: State) {
    && (forall c :: Conserved(st, c))
    && (forall p, i | 0 <= i < |cfg.forest.Children(p)| :: SentByParent(cfg, st, p, i))
    && (forall c | c in cfg.forest.parent :: ReceivedOnce(st, c))
  }

  predicate Conserved(st: State, c: Component) {
    && Count(st.buffered, c) + Count(st.received, c) == Count(st.sent, c)
    && Count(st.buffered, c) >= 0 && Count(st.received, c) >= 0
  }

  predicate SentByParent(cfg: Config, st: State, p: Component, i: nat)
    requires i < |cfg.forest.Children(p)|
  {
    Count(st.sent, cfg.forest.Children(p)[i]) == if PastChild(st.At(p), i) then 1 else 0
  }

  predicate ReceivedOnce(st: State, c: Component) {
    Count(st.received, c) == if st.At(c).NotStarted? || st.At(c).Waiting? then 0 else 1
  }

  ghost predicate AppliedInv(cfg: Config, st: State) {
    && (forall c :: c in st.applied <==> HasApplied(st.At(c)))
    && (forall i, j | 0 <= i < j < |st.applied| :: st.applied[i] != st.applied[j])
    && (forall i | 0 <= i < |st.applied| :: AfterItsParent(cfg, st.applied, i))
  }

  /** The parent of the component applied at position `i` was applied before it, with success. */
  predicate AfterItsParent(cfg: Config, applied: seq<Component>, i: nat)
    requires i < |applied|
  {
    applied[i] in cfg.forest.parent ==>
      var p := cfg.forest.parent[applied[i]]; p in applied[..i] && p !in cfg.failing
  }

  /** The goroutines that count for the WaitGroup: a failed one is never subtracted. */
  ghost function Active(cfg: Config, st: State): set<Component> {
    set c | c in cfg.manifests && st.At(c) != NotStarted && st.At(c) != Finished
  }

  ghost predicate WaitGroupInv(cfg: Config, st: State) {
    && st.waitGroup == |Active(cfg, st)|
    && (st.returned ==> !st.spawning && Active(cfg, st) == {})
  }

  ghost predicate Inv(cfg: Config, st: State) {
    GoroutinesInv(cfg, st) && TokensInv(cfg, st) && AppliedInv(cfg, st) && WaitGroupInv(cfg, st)
  }

  lemma InitialInv(cfg: Config)
    ensures Inv(cfg, INITIAL)
  {
    assert Active(cfg, INITIAL) == {};
  }

  predicate Moves(step: Step) {
    !step.EndLoop? && !step.Return?
  }

  /** Where the goroutine that takes the step stands afterwards. */
  function NewPosition(cfg: Config, st: State, step: Step): Goroutine
    requires Moves(step)
  {
    match step
    case Spawn(c) => if c in cfg.forest.parent then Waiting else Ready
    case Receive(_) => Ready
    case Apply(c) => if c in cfg.failing then Failed else Signalling(0)
    case Send(c) => if st.At(c).Signalling? then Signalling(st.At(c).next + 1) else st.At(c)
    case Done(_) => Finished
  }

  lemma OnlyOneMoves(cfg: Config, st: State, step: Step)
    requires Enabled(cfg, st, step)
    ensures forall d :: After(cfg, st, step).At(d)
                        == if Moves(step) && d == step.c then NewPosition(cfg, st, step) else st.At(d)
  {
  }

  lemma GoroutinesKept(cfg: Config, st: State, step: Step)
    requires GoroutinesInv(cfg, st) && Enabled(cfg, st, step)
    ensures GoroutinesInv(cfg, After(cfg, st, step))
  {
    OnlyOneMoves(cfg, st, step);
    var st' := After(cfg, st, step);
    assert st'.spawning == (st.spawning && !step.EndLoop?);
    hide After, State.At;
  }

  lemma TokensKept(cfg: Config, st: State, step: Step)
    requires cfg.forest.Valid() && GoroutinesInv(cfg, st) && TokensInv(cfg, st) && Enabled(cfg, st, step)
    ensures TokensInv(cfg, After(cfg, st, step))
  {
    var st' := After(cfg, st, step);
    forall c
      ensures Conserved(st', c)
    {
      assert Conserved(st, c);
    }
    forall p, i | 0 <= i < |cfg.forest.Children(p)|
      ensures SentByParent(cfg, st', p, i)
    {
      SentKept(cfg, st, step, p, i);
    }
    forall c | c in cfg.forest.parent
      ensures ReceivedOnce(st', c)
    {
      ReceivedKept(cfg, st, step, c);
    }
  }

  lemma SentKept(cfg: Config, st: State, step: Step, p: Component, i: nat)
    requires cfg.forest.Valid() && GoroutinesInv(cfg, st) && Enabled(cfg, st, step)
    requires i < |cfg.forest.Children(p)| && SentByParent(cfg, st, p, i)
    ensures SentByParent(cfg, After(cfg, st, step), p, i)
  {
    OnlyOneMoves(cfg, st, step);
    if step.Send? {
      var k := st.At(step.c).next;
      assert cfg.forest.Children(p)[i] == cfg.forest.Children(step.c)[k] <==> p == step.c && i == k;
    }
  }

  lemma ReceivedKept(cfg: Config, st: State, step: Step, c: Component)
    requires GoroutinesInv(cfg, st) && Enabled(cfg, st, step) && c in cfg.forest.parent && ReceivedOnce(st, c)
    ensures ReceivedOnce(After(cfg, st, step), c)
  {
  }

  lemma AppliedKept(cfg: Config, st: State, step: Step)
    requires cfg.forest.Valid() && Inv(cfg, st) && Enabled(cfg, st, step)
    ensures AppliedInv(cfg, After(cfg, st, step))
  {
    hide GoroutinesInv, TokensInv, WaitGroupInv;
    OnlyOneMoves(cfg, st, step);
    var st' := After(cfg, st, step);
    if step.Apply? {
      ParentWasApplied(cfg, st, step.c);
      assert st'.applied == st.applied + [step.c];
      assert !HasApplied(st.At(step.c)) && HasApplied(st'.At(step.c));
      forall i | 0 <= i < |st'.applied|
        ensures AfterItsParent(cfg, st'.applied, i)
      {
        assert st'.applied[..i] == st.applied[..i];
        assert i < |st.applied| ==> AfterItsParent(cfg, st.applied, i);
      }
    } else {
      assert st'.applied == st.applied;
      assert forall c :: HasApplied(st'.At(c)) == HasApplied(st.At(c));
    }
  }

  /** A child that has received its token has a parent that has applied. */
  lemma ParentWasApplied(cfg: Config, st: State, c: Component)
    requires cfg.forest.Valid() && TokensInv(cfg, st) && GoroutinesInv(cfg, st) && AppliedInv(cfg, st)
    requires !st.At(c).NotStarted? && !st.At(c).Waiting?
    ensures c in cfg.forest.parent ==> cfg.forest.parent[c] in st.applied && cfg.forest.parent[c] !in cfg.failing
  {
    if c in cfg.forest.parent {
      var p := cfg.forest.parent[c];
      var i :| 0 <= i < |cfg.forest.Children(p)| && cfg.forest.Children(p)[i] == c;
      assert ReceivedOnce(st, c) && Conserved(st, c) && SentByParent(cfg, st, p, i);
    }
  }

  lemma WaitGroupKept(cfg: Config, st: State, step: Step)
    requires GoroutinesInv(cfg, st) && WaitGroupInv(cfg, st) && Enabled(cfg, st, step)
    ensures WaitGroupInv(cfg, After(cfg, st, step))
  {
    OnlyOneMoves(cfg, st, step);
    ActiveMoves(cfg, st, step);
    hide GoroutinesInv, Active, State.At;
    assert step.Spawn? ==> step.c !in Active(cfg, st);
    assert step.Done? ==> step.c in Active(cfg, st);
  }

  /** Only starting and finishing change who counts for the WaitGroup. */
  lemma ActiveMoves(cfg: Config, st: State, step: Step)
    requires GoroutinesInv(cfg, st) && Enabled(cfg, st, step)
    ensures Active(cfg, After(cfg, st, step))
            == if step.Spawn? then Active(cfg, st) + {step.c}
               else if step.Done? then Active(cfg, st) - {step.c}
               else Active(cfg, st)
    ensures step.Spawn? ==> step.c !in Active(cfg, st)
    ensures step.Done? ==> step.c in Active(cfg, st)
  {
    OnlyOneMoves(cfg, st, step);
    var st' := After(cfg, st, step);
    var active := if step.Spawn? then Active(cfg, st) + {step.c}
                  else if step.Done? then Active(cfg, st) - {step.c}
                  else Active(cfg, st);
    hide After, State.At;
    forall c
      ensures c in Active(cfg, st') <==> c in active
    {
      assert st'.At(c) == if Moves(step) && c == step.c then NewPosition(cfg, st, step) else st.At(c);
    }
  }

  lemma StepKeepsInv(cfg: Config, st: State, step: Step)
    requires cfg.forest.Valid() && Inv(cfg, st) && Enabled(cfg, st, step)
    ensures Inv(cfg, After(cfg, st, step))
  {
    hide After, GoroutinesInv, TokensInv, AppliedInv, WaitGroupInv;
    GoroutinesKept(cfg, st, step);
    TokensKept(cfg, st, step);
    AppliedKept(cfg, st, step);
    WaitGroupKept(cfg, st, step);
  }

  // ---- Over whole runs

  lemma {:induction false} RunKeepsInv(cfg: Config, st: State, steps: seq<Step>)
    requires cfg.forest.Valid() && Inv(cfg, st) && IsRun(cfg, st, steps)
    ensures Inv(cfg, Final(cfg, st, steps))
    decreases |steps|
  {
    hide Enabled, After, Inv;
    if steps != [] {
      StepKeepsInv(cfg, st, steps[0]);
      RunKeepsInv(cfg, After(cfg, st, steps[0]), steps[1..]);
    }
  }

  /**
   In every reachable state: components are applied at most once, each after the successful apply of its parent; and for
   each child the tokens in its channel and those it took out are those sent, which is at most one.
   */
  lemma Safety(cfg: Config, steps: seq<Step>)
    requires cfg.forest.Valid() && IsRun(cfg, INITIAL, steps)
    ensures var st := Final(cfg, INITIAL, steps);
            && (forall i, j | 0 <= i < j < |st.applied| :: st.applied[i] != st.applied[j])
            && (forall i | 0 <= i < |st.applied| :: AfterItsParent(cfg, st.applied, i))
            && (forall c | c in cfg.forest.parent ::
                  Count(st.buffered, c) + Count(st.received, c) == Count(st.sent, c) <= 1)
  {
    InitialInv(cfg);
    RunKeepsInv(cfg, INITIAL, steps);
    var st := Final(cfg, INITIAL, steps);
    forall c | c in cfg.forest.parent
      ensures Count(st.buffered, c) + Count(st.received, c) == Count(st.sent, c) <= 1
    {
      var p := cfg.forest.parent[c];
      var i :| 0 <= i < |cfg.forest.Children(p)| && cfg.forest.Children(p)[i] == c;
      assert Conserved(st, c) && SentByParent(cfg, st, p, i);
    }
  }

  /** A send never blocks: whenever a goroutine is about to signal a child, that child's channel has room. */
  lemma SendsNeverBlock(cfg: Config, steps: seq<Step>, c: Component)
    requires cfg.forest.Valid() && IsRun(cfg, INITIAL, steps)
    requires var g := Final(cfg, INITIAL, steps).At(c); g.Signalling? && g.next < |cfg.forest.Children(c)|
    ensures Enabled(cfg, Final(cfg, INITIAL, steps), Send(c))
  {
    InitialInv(cfg);
    RunKeepsInv(cfg, INITIAL, steps);
    RoomForToken(cfg, Final(cfg, INITIAL, steps), c);
  }

  lemma RoomForToken(cfg: Config, st: State, c: Component)
    requires cfg.forest.Valid() && TokensInv(cfg, st)
    requires st.At(c).Signalling? && st.At(c).next < |cfg.forest.Children(c)|
    ensures Enabled(cfg, st, Send(c))
  {
    var k := st.At(c).next;
    var child := cfg.forest.Children(c)[k];
    assert SentByParent(cfg, st, c, k) && Conserved(st, child);
  }

  // ---- The outcome of a maximal run

  /** Where the goroutine of `c` must stand when nothing can move any more. */
  ghost function Outcome(cfg: Config, c: Component): Goroutine
    requires cfg.forest.Valid()
  {
    if c !in cfg.manifests then NotStarted
    else if !Unblocked(cfg, c) then Waiting
    else if c in cfg.failing then Failed
    else Finished
  }

  lemma {:induction false} StuckOutcome(cfg: Config, st: State, c: Component)
    requires cfg.forest.Valid() && Inv(cfg, st) && Stuck(cfg, st)
    ensures st.At(c) == Outcome(cfg, c)
    decreases cfg.forest.Rank(c)
  {
    if c in cfg.manifests {
      NoneReadyWhenStuck(cfg, st, c);
      if c in cfg.forest.parent {
        var p := cfg.forest.parent[c];
        StuckOutcome(cfg, st, p);
        ChildOfStuck(cfg, st, c);
      }
    }
  }

  lemma NoneReadyWhenStuck(cfg: Config, st: State, c: Component)
    requires cfg.forest.Valid() && Inv(cfg, st) && Stuck(cfg, st) && c in cfg.manifests
    ensures st.At(c).Waiting? || st.At(c).Finished? || st.At(c).Failed?
    ensures !st.spawning
  {
    if st.spawning {
      assert !Enabled(cfg, st, EndLoop);
      var d :| d in cfg.manifests && st.At(d) == NotStarted;
      assert Enabled(cfg, st, Spawn(d));
    }
    assert !Enabled(cfg, st, Apply(c)) && !Enabled(cfg, st, Done(c)) && !Enabled(cfg, st, Send(c));
    if st.At(c).Signalling? && st.At(c).next < |cfg.forest.Children(c)| {
      RoomForToken(cfg, st, c);
    }
  }

  /** In a stuck state a child waits exactly if its parent did not finish. */
  lemma ChildOfStuck(cfg: Config, st: State, c: Component)
    requires cfg.forest.Valid() && Inv(cfg, st) && Stuck(cfg, st) && c in cfg.manifests && c in cfg.forest.parent
    requires var g := st.At(cfg.forest.parent[c]);
             g.NotStarted? || g.Waiting? || g.Failed? || g.Finished?
    ensures st.At(c).Waiting? <==> !st.At(cfg.forest.parent[c]).Finished?
  {
    var p := cfg.forest.parent[c];
    var i :| 0 <= i < |cfg.forest.Children(p)| && cfg.forest.Children(p)[i] == c;
    assert SentByParent(cfg, st, p, i) && Conserved(st, c) && ReceivedOnce(st, c);
    assert !Enabled(cfg, st, Receive(c));
    NoneReadyWhenStuck(cfg, st, c);
  }

  /**
   However the goroutines are scheduled, when nothing can move any more exactly the components were applied whose
   ancestors all have manifests and were applied without error; and `wg.Wait` has returned if and only if every
   component is one of these and its own apply did not fail either.
   */
  lemma OutcomeIsScheduleIndependent(cfg: Config, steps: seq<Step>)
    requires cfg.forest.Valid() && IsRun(cfg, INITIAL, steps) && Stuck(cfg, Final(cfg, INITIAL, steps))
    ensures var st := Final(cfg, INITIAL, steps);
            && (forall c :: c in st.applied <==> c in cfg.manifests && Unblocked(cfg, c))
            && (st.returned <==> forall c | c in cfg.manifests :: Unblocked(cfg, c) && c !in cfg.failing)
  {
    InitialInv(cfg);
    RunKeepsInv(cfg, INITIAL, steps);
    var st := Final(cfg, INITIAL, steps);
    forall c
      ensures st.At(c) == Outcome(cfg, c)
    {
      StuckOutcome(cfg, st, c);
    }
    assert forall c :: HasApplied(Outcome(cfg, c)) <==> c in cfg.manifests && Unblocked(cfg, c);
    ReturnsWhenAllFinished(cfg, st);
    assert forall c | c in cfg.manifests :: Outcome(cfg, c).Finished? <==> Unblocked(cfg, c) && c !in cfg.failing;
  }

  lemma ReturnsWhenAllFinished(cfg: Config, st: State)
    requires cfg.forest.Valid() && Inv(cfg, st) && Stuck(cfg, st)
    ensures st.returned <==> forall c | c in cfg.manifests :: st.At(c).Finished?
  {
    assert !Enabled(cfg, st, Return) && !Enabled(cfg, st, EndLoop);
    assert (forall c | c in cfg.manifests :: st.At(c).Finished?) ==> Active(cfg, st) == {};
    if c :| c in cfg.manifests {
      NoneReadyWhenStuck(cfg, st, c);
    }
    if st.returned {
      forall c | c in cfg.manifests
        ensures st.At(c).Finished?
      {
        assert c !in Active(cfg, st);
      }
    }
  }

  /** One component, the apply of which fails: nothing can move any more, and `wg.Wait` has not returned. */
  lemma FailureExample()
    ensures var cfg := Config(Forest(map[], map[], map[]), {"a"}, {"a"});
            var steps := [Spawn("a"), EndLoop, Apply("a")];
            && cfg.forest.Valid() && IsRun(cfg, INITIAL, steps)
            && Stuck(cfg, Final(cfg, INITIAL, steps)) && !Final(cfg, INITIAL, steps).returned
  {
    var cfg := Config(Forest(map[], map[], map[]), {"a"}, {"a"});
    var steps := [Spawn("a"), EndLoop, Apply("a")];
    var st1 := After(cfg, INITIAL, steps[0]);
    assert steps[1..] == [EndLoop, Apply("a")] && steps[1..][1..] == [Apply("a")] && steps[1..][1..][1..] == [];
    assert Enabled(cfg, st1, EndLoop);
    var st2 := After(cfg, st1, EndLoop);
    assert Enabled(cfg, st2, Apply("a"));
    var st3 := After(cfg, st2, Apply("a"));
    assert Final(cfg, INITIAL, steps) == st3;
    assert st3.waitGroup == 1 && forall c :: st3.At(c) == if c == "a" then Failed else NotStarted;
  }

  // ---- Every run ends

  /** How far a goroutine has come. */
  ghost function Progress(cfg: Config, c: Component, g: Goroutine): nat {
    match g
    case NotStarted => 0
    case Waiting => 1
    case Ready => 2
    case Signalling(next) => 3 + next
    case Failed => 3
    case Finished => 4 + |cfg.forest.Children(c)|
  }

  ghost function TotalProgress(cfg: Config, st: State, cs: set<Component>): nat {
    if cs == {} then 0
    else
      var c :| c in cs;
      Progress(cfg, c, st.At(c)) + TotalProgress(cfg, st, cs - {c})
  }

  lemma {:induction false} TotalWithout(cfg: Config, st: State, cs: set<Component>, c: Component)
    requires c in cs
    ensures TotalProgress(cfg, st, cs) == Progress(cfg, c, st.At(c)) + TotalProgress(cfg, st, cs - {c})
    decreases cs
  {
    hide Progress;
    var d :| d in cs && TotalProgress(cfg, st, cs) == Progress(cfg, d, st.At(d)) + TotalProgress(cfg, st, cs - {d});
    if d != c {
      TotalWithout(cfg, st, cs - {d}, c);
      TotalWithout(cfg, st, cs - {c}, d);
      assert cs - {d} - {c} == cs - {c} - {d};
    }
  }

  lemma {:induction false} TotalUnchanged(cfg: Config, st: State, st': State, cs: set<Component>)
    requires forall c | c in cs :: st'.At(c) == st.At(c)
    ensures TotalProgress(cfg, st', cs) == TotalProgress(cfg, st, cs)
    decreases cs
  {
    hide Progress;
    if cs != {} {
      var c :| c in cs;
      TotalUnchanged(cfg, st, st', cs - {c});
      TotalWithout(cfg, st, cs, c);
      TotalWithout(cfg, st', cs, c);
    }
  }

  /** The furthest all goroutines together, the loop and `wg.Wait` can come. */
  ghost function Bound(cfg: Config): nat {
    TotalBound(cfg, cfg.manifests) + 2
  }

  ghost function TotalBound(cfg: Config, cs: set<Component>): nat {
    if cs == {} then 0
    else
      var c :| c in cs;
      4 + |cfg.forest.Children(c)| + TotalBound(cfg, cs - {c})
  }

  ghost function Measure(cfg: Config, st: State): nat {
    TotalProgress(cfg, st, cfg.manifests) + (if st.spawning then 0 else 1) + (if st.returned then 1 else 0)
  }

  lemma StepMakesProgress(cfg: Config, st: State, step: Step)
    requires cfg.forest.Valid() && Inv(cfg, st) && Enabled(cfg, st, step)
    ensures Measure(cfg, After(cfg, st, step)) > Measure(cfg, st)
  {
    OnlyOneMoves(cfg, st, step);
    FlagsMove(cfg, st, step);
    var st' := After(cfg, st, step);
    if Moves(step) {
      GoroutineMoves(cfg, st, step);
    }
    hide After, Inv, Enabled, State.At, Forest.Valid, Progress;
    if Moves(step) {
      TotalUnchanged(cfg, st, st', cfg.manifests - {step.c});
      TotalWithout(cfg, st, cfg.manifests, step.c);
      TotalWithout(cfg, st', cfg.manifests, step.c);
    } else {
      TotalUnchanged(cfg, st, st', cfg.manifests);
    }
  }

  lemma GoroutineMoves(cfg: Config, st: State, step: Step)
    requires Inv(cfg, st) && Enabled(cfg, st, step) && Moves(step)
    ensures step.c in cfg.manifests
    ensures Progress(cfg, step.c, After(cfg, st, step).At(step.c)) > Progress(cfg, step.c, st.At(step.c))
  {
    hide TokensInv, AppliedInv, WaitGroupInv;
    OnlyOneMoves(cfg, st, step);
  }

  lemma FlagsMove(cfg: Config, st: State, step: Step)
    requires Enabled(cfg, st, step)
    ensures var st' := After(cfg, st, step);
            && st'.spawning == (st.spawning && step != EndLoop)
            && st'.returned == (st.returned || step == Return)
    ensures step == EndLoop ==> st.spawning
    ensures step == Return ==> !st.returned
  {
  }

  lemma {:induction false} ProgressIsBounded(cfg: Config, st: State, cs: set<Component>)
    requires GoroutinesInv(cfg, st)
    ensures TotalProgress(cfg, st, cs) <= TotalBound(cfg, cs)
    decreases cs
  {
    hide GoroutinesInv;
    if cs != {} {
      var c :| c in cs && TotalBound(cfg, cs) == 4 + |cfg.forest.Children(c)| + TotalBound(cfg, cs - {c});
      ProgressIsBounded(cfg, st, cs - {c});
      TotalWithout(cfg, st, cs, c);
      OneProgressIsBounded(cfg, st, c);
    }
  }

  lemma OneProgressIsBounded(cfg: Config, st: State, c: Component)
    requires GoroutinesInv(cfg, st)
    ensures Progress(cfg, c, st.At(c)) <= 4 + |cfg.forest.Children(c)|
  {
  }

  /** No schedule runs for ever: a run has no more steps than the components and their children allow. */
  lemma RunsAreBounded(cfg: Config, steps: seq<Step>)
    requires cfg.forest.Valid() && IsRun(cfg, INITIAL, steps)
    ensures |steps| <= Bound(cfg)
  {
    InitialInv(cfg);
    RunMakesProgress(cfg, INITIAL, steps);
    RunKeepsInv(cfg, INITIAL, steps);
    ProgressIsBounded(cfg, Final(cfg, INITIAL, steps), cfg.manifests);
  }

  lemma {:induction false} RunMakesProgress(cfg: Config, st: State, steps: seq<Step>)
    requires cfg.forest.Valid() && Inv(cfg, st) && IsRun(cfg, st, steps)
    ensures Measure(cfg, Final(cfg, st, steps)) >= Measure(cfg, st) + |steps|
    decreases |steps|
  {
    hide Enabled, After, Inv, Measure;
    if steps != [] {
      StepKeepsInv(cfg, st, steps[0]);
      StepMakesProgress(cfg, st, steps[0]);
      RunMakesProgress(cfg, After(cfg, st, steps[0]), steps[1..]);
    }
  }

  // ---- The built-in table

  const BASE := "crds"

  const BASE_CHILDREN := ["Pilot", "Policy", "Telemetry", "Galley", "Citadel", "NodeAgent", "CertManager",
                          "SidecarInjector", "Ingress", "Egress"]

  const BUILT_IN := Forest(map[BASE := BASE_CHILDREN], map c | c in BASE_CHILDREN :: BASE,
                           map c | c in BASE_CHILDREN :: 1)

  lemma BuiltInTableIsForest()
    ensures BUILT_IN.Valid() && forall c :: (c in BUILT_IN.parent ==> BUILT_IN.parent[c] == "crds")
    ensures BUILT_IN.parent.Keys == {"Pilot", "Policy", "Telemetry", "Galley", "Citadel", "NodeAgent", "CertManager",
                                     "SidecarInjector", "Ingress", "Egress"}
  {
    var names := BASE_CHILDREN;
    assert |names| == 10 && forall i | 0 <= i < |names| :: names[i] != BASE;
    forall i, j | 0 <= i < j < |names|
      ensures names[i] != names[j]
    {
    }
  }
}
