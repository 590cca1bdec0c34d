/**
 Several drainers, one lock and the shared state, step by step (linux/raofflineproxy/rom_browser.py
 and cache_queue.py): a drainer takes the lock, looks up what is cached, checks the budget, stores a
 game, charges it, and hands the lock over in the middle whenever it has to wait. Time, patches, rows
 and pauses come and go whoever holds the lock.
 */
module DrainSystem {
  import opened Bytes
  import opened CacheBudget
  import opened CacheQueue

  /** Where a drainer stands: without the lock, just having it, knowing what is cached, having found
      the budget not used up at `at`, having stored a game since, or having charged it. */
  datatype Phase = Away | Locked | Ready | Checked(at: int) | Stored(at: int, game: int) | Paid(game: int)

  /** `known` are the source's `known_game_ids`. */
  datatype Drainer = Drainer(known: set<int>, phase: Phase)

  datatype System = System(s: Shared, holder: Option<nat>, drainers: seq<Drainer>)

  datatype Action =
    | Quietly(t: Shared)
    | Enqueue(rom: QueuedRom)
    | Acquire(p: nat)
    | Learn(p: nat, again: bool)
    | Release(p: nat)
    | Check(p: nat)
    | Store(p: nat, game: int)
    | GiveUp(p: nat)
    | Charge(p: nat)
    | Note(p: nat)
    | Remove(p: nat, key: int)
    | Update(p: nat, rom: QueuedRom)

  predicate Holds(sys: System, p: nat) {
    sys.holder == Some(p) && p < |sys.drainers|
  }

  predicate Enabled(sys: System, action: Action) {
    match action
    case Quietly(t) => Quiet(sys.s, t, {})
    case Enqueue(rom) => Find(sys.s.queue, rom.key).None?
    case Acquire(p) => sys.holder.None? && p < |sys.drainers|
    case Learn(p, _) => Holds(sys, p) && sys.drainers[p].phase.Locked?
    case Release(p) => Holds(sys, p)
    case Check(p) => Holds(sys, p) && sys.drainers[p].phase.Ready? && sys.s.budget.Remaining(sys.s.now) > 0
    case Store(p, game) =>
      && Holds(sys, p) && sys.drainers[p].phase.Checked?
      && game !in sys.drainers[p].known && game in sys.s.patches
    case GiveUp(p) => Holds(sys, p) && sys.drainers[p].phase.Checked?
    case Charge(p) => Holds(sys, p) && sys.drainers[p].phase.Stored?
    case Note(p) => Holds(sys, p) && sys.drainers[p].phase.Paid?
    case Remove(p, _) => Holds(sys, p)
    case Update(p, _) => Holds(sys, p)
  }

  function SetPhase(sys: System, p: nat, phase: Phase): System
    requires p < |sys.drainers|
  {
    sys.(drainers := sys.drainers[p := sys.drainers[p].(phase := phase)])
  }

  /** The charge of a game that was stored after the budget was checked at `checkedAt`. */
  function ChargedShared(s: Shared, checkedAt: int, game: int): Shared {
    s.(budget := s.budget.Charge(s.now, 1), charges := s.charges + [Charged(checkedAt, s.now)],
       cachedGames := s.cachedGames + [game])
  }

  /** One step; a step that is not enabled changes nothing. */
  function Next(sys: System, action: Action): System {
    if !Enabled(sys, action) then sys
    else
      match action
      case Quietly(t) => sys.(s := t)
      case Enqueue(rom) => sys.(s := sys.s.(queue := sys.s.queue + [rom]))
      case Acquire(p) => SetPhase(sys, p, Locked).(holder := Some(p))
      case Learn(p, again) =>
        var known := (if again then sys.drainers[p].known else {}) + sys.s.patches;
        sys.(drainers := sys.drainers[p := Drainer(known, Ready)])
      case Release(p) => SetPhase(sys, p, Away).(holder := None)
      case Check(p) => SetPhase(sys, p, Checked(sys.s.now))
      case Store(p, game) => SetPhase(sys, p, Stored(sys.drainers[p].phase.at, game))
      case GiveUp(p) => SetPhase(sys, p, Ready)
      case Charge(p) =>
        var phase := sys.drainers[p].phase;
        SetPhase(sys, p, Paid(phase.game)).(s := ChargedShared(sys.s, phase.at, phase.game))
      case Note(p) =>
        var d := sys.drainers[p];
        sys.(drainers := sys.drainers[p := Drainer(d.known + {d.phase.game}, Ready)])
      case Remove(p, key) => sys.(s := sys.s.(queue := RemoveRow(sys.s.queue, key)))
      case Update(p, rom) => sys.(s := sys.s.(queue := UpdateRow(sys.s.queue, rom)))
  }

  function Run(sys: System, actions: seq<Action>): System {
    if actions == [] then sys else Next(Run(sys, actions[..|actions| - 1]), actions[|actions| - 1])
  }

  /** Nothing was cached or charged yet, and nobody has the lock. */
  predicate Initial(sys: System) {
    && sys.s.now >= 0 && sys.s.charges == [] && sys.s.cachedGames == []
    && sys.s.budget == FRESH.(pausedUntil := sys.s.budget.pausedUntil)
    && sys.holder.None?
    && forall p :: 0 <= p < |sys.drainers| ==> sys.drainers[p] == Drainer({}, Away)
  }

  // What every step keeps.

  /** A drainer with the lock knows every game that was ever cached, but perhaps the one it has just
      charged, and no game without a patch. */
  predicate Knows(d: Drainer, s: Shared) {
    && (forall g <- s.cachedGames :: g in d.known || d.phase == Paid(g))
    && d.known <= s.patches
  }

  predicate BudgetWasLeft(s: Shared, at: int) {
    LastAt(s.charges) <= at <= s.now && s.budget.Current(at).used < LIMIT
  }

  predicate HolderInv(d: Drainer, s: Shared) {
    match d.phase
    case Away => false
    case Locked => true
    case Ready => Knows(d, s)
    case Checked(at) => Knows(d, s) && BudgetWasLeft(s, at)
    case Stored(at, game) => Knows(d, s) && BudgetWasLeft(s, at) && game !in d.known && game in s.patches
    case Paid(game) => Knows(d, s) && game in s.patches
  }

  predicate SystemInv(sys: System) {
    && Inv(sys.s)
    && (forall p :: 0 <= p < |sys.drainers| ==> sys.drainers[p].known <= sys.s.patches)
    && (sys.holder.Some? ==> sys.holder.value < |sys.drainers| && HolderInv(sys.drainers[sys.holder.value], sys.s))
  }

  lemma InitialInv(sys: System)
    requires Initial(sys)
    ensures SystemInv(sys)
  {
  }

  lemma QuietKeepsInv(s: Shared, t: Shared)
    requires Inv(s) && Quiet(s, t, {})
    ensures Inv(t)
  {
    hide Legal, RowsKept, NoDuplicates;
  }

  lemma QuietKeepsHolder(d: Drainer, s: Shared, t: Shared)
    requires HolderInv(d, s) && Quiet(s, t, {})
    ensures HolderInv(d, t)
  {
    hide RowsKept;
  }

  /** A charge after a check that left room: the budget holds, and the game is a new one. */
  lemma ChargeKeepsInv(s: Shared, d: Drainer)
    requires Inv(s) && d.phase.Stored? && HolderInv(d, s)
    ensures var t := ChargedShared(s, d.phase.at, d.phase.game);
      Inv(t) && HolderInv(d.(phase := Paid(d.phase.game)), t)
  {
    var charge := Charged(d.phase.at, s.now);
    assert (s.charges + [charge])[..|s.charges|] == s.charges;
  }

  /** Steps anybody takes at any time, and changes of rows under the lock. */
  predicate SharesOnly(action: Action) {
    action.Quietly? || action.Enqueue? || action.Remove? || action.Update?
  }

  lemma SharedStepKeepsInv(sys: System, action: Action)
    requires SystemInv(sys) && SharesOnly(action)
    ensures SystemInv(Next(sys, action))
  {
    hide Inv, Legal, Quiet, RemoveRow, UpdateRow;
    if Enabled(sys, action) {
      match action
      case Quietly(t) =>
        QuietKeepsInv(sys.s, t);
        if sys.holder.Some? {
          QuietKeepsHolder(sys.drainers[sys.holder.value], sys.s, t);
        }
        PatchesGrow(sys.s, t);
      case Enqueue(rom) => QueueKeepsInv(sys.s, sys.s.queue + [rom]);
      case Remove(p, key) => QueueKeepsInv(sys.s, RemoveRow(sys.s.queue, key));
      case Update(p, rom) => QueueKeepsInv(sys.s, UpdateRow(sys.s.queue, rom));
    }
  }

  lemma DrainerStepKeepsInv(sys: System, action: Action)
    requires SystemInv(sys) && !SharesOnly(action) && !action.Charge?
    ensures SystemInv(Next(sys, action))
  {
    hide Inv, Legal;
    if Enabled(sys, action) {
      match action
      case Learn(p, again) => PatchesCoverGames(sys.s);
      case Check(p) => LeftNow(sys.s);
      case _ =>
    }
  }

  lemma ChargeStepKeepsInv(sys: System, p: nat)
    requires SystemInv(sys)
    ensures SystemInv(Next(sys, Charge(p)))
  {
    hide Inv, Legal;
    if Enabled(sys, Charge(p)) {
      ChargeKeepsInv(sys.s, sys.drainers[p]);
    }
  }

  lemma PatchesGrow(s: Shared, t: Shared)
    requires Quiet(s, t, {})
    ensures s.patches <= t.patches
  {
  }

  lemma QueueKeepsInv(s: Shared, queue: seq<QueuedRom>)
    requires Inv(s)
    ensures Inv(s.(queue := queue))
  {
    hide Legal, NoDuplicates;
  }

  lemma PatchesCoverGames(s: Shared)
    requires Inv(s)
    ensures forall g <- s.cachedGames :: g in s.patches
  {
    hide Legal, NoDuplicates;
  }

  lemma LeftNow(s: Shared)
    requires Inv(s) && s.budget.Remaining(s.now) > 0
    ensures BudgetWasLeft(s, s.now)
  {
    hide Legal, NoDuplicates;
  }

  /** Over every interleaving of any number of drainers. */
  lemma {:induction false} EveryRunKeepsInv(first: System, actions: seq<Action>)
    requires Initial(first)
    ensures SystemInv(Run(first, actions))
  {
    hide SystemInv, Next;
    InitialInv(first);
    if actions != [] {
      EveryRunKeepsInv(first, actions[..|actions| - 1]);
      var before, last := Run(first, actions[..|actions| - 1]), actions[|actions| - 1];
      if SharesOnly(last) {
        SharedStepKeepsInv(before, last);
      } else if last.Charge? {
        ChargeStepKeepsInv(before, last.p);
      } else {
        DrainerStepKeepsInv(before, last);
      }
    }
  }

  /** Over every interleaving no game is cached or charged twice, the budget holds, and 30 minutes
      hold at most 199 games, or 200 when the first charge did not open its window. */
  lemma EveryRunIsBounded(first: System, actions: seq<Action>, t: int)
    requires Initial(first)
    ensures var s := Run(first, actions).s;
      && NoDuplicates(s.cachedGames) && |s.charges| == |s.cachedGames|
      && 0 <= s.budget.used <= LIMIT
      && ChargedFrom(s.charges, t) <= if OwnWindows(s.charges) then 199 else 200
  {
    EveryRunKeepsInv(first, actions);
    SharedStateBounds(Run(first, actions).s, t);
  }

  /** What the shared invariant means for anyone looking at the storage. */
  lemma SharedStateBounds(s: Shared, t: int)
    requires Inv(s)
    ensures NoDuplicates(s.cachedGames) && |s.charges| == |s.cachedGames|
    ensures 0 <= s.budget.used <= LIMIT
    ensures ChargedFrom(s.charges, t) <= if OwnWindows(s.charges) then 199 else 200
  {
    UsedWithinLimit(s.charges);
    AtMost199(s.charges, t);
  }

  // What the others can do to a drainer that waits.

  /** A step of somebody else that leaves the rows of `mine` alone. */
  predicate ByOthers(action: Action, me: nat, mine: set<int>) {
    match action
    case Quietly(_) => true
    case Enqueue(rom) => rom.key !in mine
    case Remove(p, key) => p != me && key !in mine
    case Update(p, rom) => p != me && rom.key !in mine
    case Acquire(p) => p != me
    case Learn(p, _) => p != me
    case Release(p) => p != me
    case Check(p) => p != me
    case Store(p, _) => p != me
    case GiveUp(p) => p != me
    case Charge(p) => p != me
    case Note(p) => p != me
  }

  /** The steps of a stretch: quiet ones leave the rows of `mine` alone, too. */
  predicate StretchByOthers(sys: System, actions: seq<Action>, me: nat, mine: set<int>) {
    forall i :: 0 <= i < |actions| ==>
      && ByOthers(actions[i], me, mine)
      && (actions[i].Quietly? ==> Quiet(Run(sys, actions[..i]).s, actions[i].t, mine))
  }

  lemma OtherStepIsRely(sys: System, action: Action, me: nat, mine: set<int>)
    requires ByOthers(action, me, mine) && (action.Quietly? ==> Quiet(sys.s, action.t, mine))
    requires me < |sys.drainers| && !Holds(sys, me)
    ensures var to := Next(sys, action);
      && Rely(sys.s, to.s, mine) && |to.drainers| == |sys.drainers|
      && to.drainers[me] == sys.drainers[me] && !Holds(to, me)
  {
    hide RemoveRow, UpdateRow;
    if action.Enqueue? && Enabled(sys, action) {
      FindAppended(sys.s.queue, action.rom);
    }
  }

  lemma {:induction false} OthersAreRely(sys: System, actions: seq<Action>, me: nat, mine: set<int>)
    requires StretchByOthers(sys, actions, me, mine) && me < |sys.drainers| && !Holds(sys, me)
    ensures var to := Run(sys, actions);
      && Rely(sys.s, to.s, mine) && |to.drainers| == |sys.drainers|
      && to.drainers[me] == sys.drainers[me] && !Holds(to, me)
  {
    hide Next, Holds, ByOthers, Quiet;
    if actions != [] {
      var before := actions[..|actions| - 1];
      assert forall i :: 0 <= i < |before| ==> before[i] == actions[i] && before[..i] == actions[..i];
      OthersAreRely(sys, before, me, mine);
      OtherStepIsRely(Run(sys, before), actions[|actions| - 1], me, mine);
      RelyTransitive(sys.s, Run(sys, before).s, Run(sys, actions).s, mine);
    }
  }

  lemma {:induction false} RunAppends(sys: System, a: seq<Action>, b: seq<Action>)
    ensures Run(sys, a + b) == Run(Run(sys, a), b)
  {
    hide Next;
    if b == [] {
      assert a + b == a;
    } else {
      assert (a + b)[..|a + b| - 1] == a + b[..|b| - 1];
      RunAppends(sys, a, b[..|b| - 1]);
    }
  }

  /** One step as a run. */
  lemma RunOne(sys: System, action: Action)
    ensures Run(sys, [action]) == Next(sys, action)
  {
    hide Next;
    assert [action][..0] == [];
  }

  // The storage as one drainer sees it.

  /** `me` is the drainer that calls; `history` are all steps so far, its own and the others'. */
  class Storage {
    const me: nat
    var sys: System
    ghost const first: System
    ghost var history: seq<Action>

    constructor (first: System, me: nat)
      requires Initial(first) && me < |first.drainers|
      ensures Valid() && sys == first && this.me == me && history == []
    {
      this.me, this.first, sys, history := me, first, first, [];
    }

    /** The system is where its steps have led it. */
    ghost predicate Valid()
      reads this
    {
      Initial(first) && me < |sys.drainers| && sys == Run(first, history)
    }

    predicate HasLock()
      reads this
    {
      Holds(sys, me)
    }

    function Mine(): Drainer
      requires me < |sys.drainers|
      reads this
    {
      sys.drainers[me]
    }

    /** With the lock, knowing `known`. */
    ghost predicate Knowing(known: set<int>)
      reads this
    {
      Valid() && HasLock() && Mine() == Drainer(known, Ready)
    }

    /** One step of this or any drainer. */
    method Do(action: Action)
      requires Valid()
      modifies this
      ensures Valid() && sys == Next(old(sys), action) && history == old(history) + [action]
    {
      hide Next;
      RunAppends(first, history, [action]);
      RunOne(sys, action);
      SameDrainers(sys, action);
      history := history + [action];
      sys := Next(sys, action);
    }

    /** Whatever happens meanwhile, with the drain lock held. */
    method Tick(mine: set<int>)
      requires Valid()
      modifies this
      ensures Valid() && old(history) <= history
      ensures sys == old(sys).(s := sys.s) && Quiet(old(sys).s, sys.s, mine)
    {
      hide Run;
      QuietRefl(sys.s, mine);
      var next :| Quiet(sys.s, next, mine);
      QuietForAll(sys.s, next, mine);
      Do(Quietly(next));
    }

    /** Anything the others can do meanwhile, for at least `duration`. */
    method OthersRun(duration: int, mine: set<int>)
      requires Valid() && !HasLock() && duration >= 0
      modifies this
      ensures Valid() && old(history) <= history && !HasLock() && Mine() == old(Mine())
      ensures Rely(old(sys).s, sys.s, mine) && sys.s.now >= old(sys).s.now + duration
    {
      hide Run, Next, Rely;
      ghost var before := sys;
      TimePasses(sys, me, mine, duration);
      var others :| StretchByOthers(sys, others, me, mine) && Run(sys, others).s.now >= sys.s.now + duration;
      OthersAreRely(sys, others, me, mine);
      RunAppends(first, history, others);
      history := history + others;
      sys := Run(sys, others);
    }

    /** The others run until nobody has the lock. */
    method OthersLeave(mine: set<int>)
      requires Valid() && !HasLock()
      modifies this
      ensures Valid() && old(history) <= history && !HasLock() && Mine() == old(Mine())
      ensures Rely(old(sys).s, sys.s, mine) && sys.holder.None?
    {
      hide Run, Next, Rely;
      LockComesFree(first, history, me, mine);
      var others :| StretchByOthers(sys, others, me, mine) && Run(sys, others).holder.None?;
      OthersAreRely(sys, others, me, mine);
      RunAppends(first, history, others);
      history := history + others;
      sys := Run(sys, others);
    }

    /** Takes the lock, once the others have left it if the caller waits; one that was asked to pause
        may give up on a lock that is taken. */
    method TryLock(mine: set<int>, wait: bool, abort: bool) returns (ok: bool)
      requires Valid() && !HasLock()
      modifies this
      ensures Valid() && old(history) <= history && Rely(old(sys).s, sys.s, mine)
      ensures if ok then HasLock() && Mine() == Drainer(old(Mine()).known, Locked) else !HasLock()
      ensures !ok ==> sys.holder.Some? && (!wait || abort)
    {
      hide Run, Rely;
      ghost var start := sys.s;
      OthersRun(0, mine);
      ghost var before := sys.s;
      RelyRefl(before, mine);
      if sys.holder.Some? && wait {
        if !abort {
          OthersLeave(mine);
        } else if * {
          OthersLeave(mine);
        }
      }
      RelyTransitive(start, before, sys.s, mine);
      if sys.holder.Some? {
        return false;
      }
      Do(Acquire(me));
      ok := true;
    }

    /** Frees the lock, if it is held. */
    method Unlock()
      requires Valid()
      modifies this
      ensures Valid() && old(history) <= history && !HasLock()
      ensures sys.s == old(sys).s && Mine().known == old(Mine()).known
    {
      hide Run;
      Do(Release(me));
    }

    /** `cached_game_ids`, which a drainer adds to what it knew when it got the lock again. */
    method Learn(again: bool) returns (known: set<int>)
      requires Valid() && HasLock() && Mine().phase.Locked?
      modifies this
      ensures Knowing(known) && old(history) <= history && sys.s == old(sys).s
      ensures known == (if again then old(Mine()).known else {}) + sys.s.patches
    {
      hide Run;
      known := (if again then Mine().known else {}) + sys.s.patches;
      Do(Action.Learn(me, again));
    }

    /** A look at the budget that leaves room for one game. */
    method CheckBudget()
      requires Valid() && HasLock() && Mine().phase.Ready? && sys.s.budget.Remaining(sys.s.now) > 0
      modifies this
      ensures Valid() && old(history) <= history && HasLock() && sys.s == old(sys).s
      ensures Mine() == old(Mine()).(phase := Checked(sys.s.now))
    {
      hide Run;
      Do(Check(me));
    }

    /** Somebody stores the patch of a game. */
    method StorePatch(game: int)
      requires Valid()
      modifies this
      ensures Valid() && old(history) <= history
      ensures sys == old(sys).(s := old(sys).s.(patches := old(sys).s.patches + {game}))
    {
      hide Run;
      Do(Quietly(sys.s.(patches := sys.s.patches + {game})));
    }

    /** The game's patch is stored. */
    method StoreGame(game: int)
      requires Valid() && HasLock() && Mine().phase.Checked? && game !in Mine().known && game in sys.s.patches
      modifies this
      ensures Valid() && old(history) <= history && HasLock() && sys.s == old(sys).s
      ensures Mine() == old(Mine()).(phase := Stored(old(Mine()).phase.at, game))
    {
      hide Run;
      Do(Store(me, game));
    }

    /** The request ends without a game cached. */
    method GiveUp()
      requires Valid() && HasLock() && Mine().phase.Checked?
      modifies this
      ensures Valid() && old(history) <= history && HasLock() && sys.s == old(sys).s
      ensures Mine() == old(Mine()).(phase := Ready)
    {
      hide Run;
      Do(Action.GiveUp(me));
    }

    /** `charge_game` */
    method ChargeGame()
      requires Valid() && HasLock() && Mine().phase.Stored?
      modifies this
      ensures Valid() && old(history) <= history && HasLock()
      ensures var game, s := old(Mine()).phase.game, old(sys).s;
        && Mine() == old(Mine()).(phase := Paid(game)) && game !in s.cachedGames
        && sys.s == s.(budget := s.budget.Charge(s.now, 1), cachedGames := s.cachedGames + [game],
                       charges := s.charges + [Charged(old(Mine()).phase.at, s.now)])
    {
      hide Run;
      EveryRunKeepsInv(first, history);
      Do(Charge(me));
    }

    /** `known_game_ids.add` */
    method NoteGame()
      requires Valid() && HasLock() && Mine().phase.Paid?
      modifies this
      ensures Knowing(old(Mine()).known + {old(Mine()).phase.game}) && old(history) <= history && sys.s == old(sys).s
    {
      hide Run;
      Do(Note(me));
    }

    /** The insertion of `enqueue`, for a key without a row. */
    method Add(rom: QueuedRom)
      requires Valid() && Find(sys.s.queue, rom.key).None?
      modifies this
      ensures Valid() && old(history) <= history
      ensures sys == old(sys).(s := old(sys).s.(queue := old(sys).s.queue + [rom]))
      ensures Find(sys.s.queue, rom.key) == Some(rom)
      ensures forall k: int :: k != rom.key ==> Find(sys.s.queue, k) == Find(old(sys).s.queue, k)
    {
      hide Run;
      FindAppended(sys.s.queue, rom);
      Do(Enqueue(rom));
    }

    /** `remove` */
    method Remove(key: int)
      requires Valid() && HasLock()
      modifies this
      ensures Valid() && old(history) <= history
      ensures sys == old(sys).(s := old(sys).s.(queue := RemoveRow(old(sys).s.queue, key)))
    {
      hide Run;
      Do(Action.Remove(me, key));
    }

    /** `update` */
    method Update(rom: QueuedRom)
      requires Valid() && HasLock()
      modifies this
      ensures Valid() && old(history) <= history
      ensures sys == old(sys).(s := old(sys).s.(queue := UpdateRow(old(sys).s.queue, rom)))
    {
      hide Run;
      Do(Action.Update(me, rom));
    }

    /** `pause_until` */
    method PauseUntil(until: int)
      requires Valid()
      modifies this
      ensures Valid() && old(history) <= history
      ensures var budget := old(sys).s.budget;
        sys == old(sys).(s := old(sys).s.(budget := budget.(pausedUntil := Max(budget.pausedUntil, until))))
    {
      hide Run;
      if until > sys.s.budget.pausedUntil {
        Do(Quietly(sys.s.(budget := sys.s.budget.(pausedUntil := until))));
      }
    }
  }

  /** What a drainer with the lock can rely on. */
  lemma KnowsGames(first: System, history: seq<Action>, me: nat, known: set<int>)
    requires Initial(first) && Holds(Run(first, history), me)
    requires Run(first, history).drainers[me] == Drainer(known, Ready)
    ensures var s := Run(first, history).s; Inv(s) && (forall g <- s.cachedGames :: g in known) && known <= s.patches
  {
    EveryRunKeepsInv(first, history);
  }

  lemma SameDrainers(sys: System, action: Action)
    ensures |Next(sys, action).drainers| == |sys.drainers|
  {
  }

  lemma QuietForAll(s: Shared, t: Shared, mine: set<int>)
    requires Quiet(s, t, mine)
    ensures Quiet(s, t, {})
  {
  }

  /** Whoever has the lock can free it. */
  lemma LockComesFree(first: System, history: seq<Action>, me: nat, mine: set<int>)
    requires Initial(first) && !Holds(Run(first, history), me) && me < |Run(first, history).drainers|
    ensures exists others ::
      StretchByOthers(Run(first, history), others, me, mine) && Run(Run(first, history), others).holder.None?
  {
    var sys := Run(first, history);
    EveryRunKeepsInv(first, history);
    if sys.holder.Some? {
      var others := [Release(sys.holder.value)];
      RunOne(sys, others[0]);
      assert StretchByOthers(sys, others, me, mine) && Run(sys, others).holder.None?;
    } else {
      assert StretchByOthers(sys, [], me, mine) && Run(sys, []).holder.None?;
    }
  }

  lemma TimePasses(sys: System, me: nat, mine: set<int>, duration: int)
    requires duration >= 0
    ensures var others := [Quietly(sys.s.(now := sys.s.now + duration))];
      StretchByOthers(sys, others, me, mine) && Run(sys, others).s.now == sys.s.now + duration
  {
    var others := [Quietly(sys.s.(now := sys.s.now + duration))];
    assert others[..0] == [];
    RunOne(sys, others[0]);
  }
}
