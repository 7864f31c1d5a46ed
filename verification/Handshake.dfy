/**
 The re-INIT handshake between the boot processor and the last application processor:
 the caller sets a flag, sends INIT and SIPI so that the AP reboots and changes a
 register, waits for it, and reboots it once more. Each access to a shared variable is
 one step, and a schedule says whose step comes next.
 */
module Handshake {
  const CASES: set<int> := {27814, 27816, 27818}

  datatype Event = Call(id: int) | Boot | ModifyBegins(id: int) | ModifyEnds(id: int) | Returns(id: int)

  /** Where the caller is; `k` tells the first from the second SIPI. */
  datatype Bp =
    | Idle
    | SetCase
    | SetNeed
    | Count(k: nat)      // send_sipi: remember cpu_online_count, in 8 bits
    | Init(k: nat)       // send INIT
    | Startup(k: nat)    // send SIPI
    | Online(k: nat)     // wait for cpu_online_count to grow
    | Drop(k: nat)       // take one off again
    | Poll(k: nat)       // wait_ap_ready: wait for wait_ap to be 1
    | Clear(k: nat)

  /** Where the AP is; `id` is the case id it read. */
  datatype Ap =
    | Off
    | Started            // booting, not yet counted
    | Switch             // in ap_main, about to read cur_case_id
    | TestNeed(id: int)
    | ClearNeed(id: int)
    | Modify(id: int)
    | Modifying(id: int)
    | SetWait(id: int)
    | Halted

  datatype State = State(bp: Bp, ap: Ap, cur: int, need: int, wait: int, online: int, cnt: int,
                         calls: seq<int>, log: seq<Event>)

  /** One step of the caller. From `Idle` it calls the handshake for any case id. */
  function BpStep(s: State, id: int): State {
    match s.bp
    case Idle => s.(bp := SetCase, calls := s.calls + [id], log := s.log + [Call(id)])
    case SetCase => if s.calls == [] then s else s.(bp := SetNeed, cur := s.calls[|s.calls| - 1])
    case SetNeed => s.(bp := Count(1), need := 1)
    case Count(k) => s.(bp := Init(k), cnt := s.online % 256)
    case Init(k) => s.(bp := Startup(k), ap := Off)
    case Startup(k) => s.(bp := Online(k), ap := Started, log := s.log + [Boot])
    case Online(k) => if s.cnt + 1 > s.online then s else s.(bp := Drop(k))
    case Drop(k) => s.(bp := Poll(k), online := s.online - 1)
    case Poll(k) => if s.wait != 1 then s else s.(bp := Clear(k))
    case Clear(k) =>
      if k == 1 || s.calls == [] then s.(bp := Count(2), wait := 0)
      else s.(bp := Idle, wait := 0, log := s.log + [Returns(s.calls[|s.calls| - 1])])
  }

  /** One step of the AP: the boot code, then ap_main and ap_init_value_process. */
  function ApStep(s: State): State {
    match s.ap
    case Off => s
    case Started => s.(ap := Switch, online := s.online + 1)
    case Switch => s.(ap := if s.cur in CASES then TestNeed(s.cur) else Halted)
    case TestNeed(id) => s.(ap := if s.need != 0 then ClearNeed(id) else SetWait(id))
    case ClearNeed(id) => s.(ap := Modify(id), need := 0)
    case Modify(id) => s.(ap := Modifying(id), log := s.log + [ModifyBegins(id)])
    case Modifying(id) => s.(ap := SetWait(id), log := s.log + [ModifyEnds(id)])
    case SetWait(_) => s.(ap := Halted, wait := 1)
    case Halted => s
  }

  datatype Choice = B(id: int) | A

  function Next(s: State, c: Choice): State {
    match c
    case B(id) => BpStep(s, id)
    case A => ApStep(s)
  }

  /** The state after a schedule. */
  function Run(s: State, sched: seq<Choice>): State
    decreases sched
  {
    if sched == [] then s else Run(Next(s, sched[0]), sched[1..])
  }

  // ----- what the handshake promises -----

  function Expected(calls: seq<int>): seq<Event> {
    if calls == [] then []
    else
      var c := calls[|calls| - 1];
      Expected(calls[..|calls| - 1]) + [Call(c), Boot, ModifyBegins(c), ModifyEnds(c), Boot, Returns(c)]
  }

  /**
   Between calls: every call so far ran its modification exactly once, from begin to
   end, between its first and its second reboot, and both flags are 0 again.
   */
  ghost predicate Settled(s: State) {
    s.bp.Idle? ==> s.log == Expected(s.calls) && s.wait == 0 && s.need == 0
  }

  /** Before the first call the AP has been counted online; its first ap_main may still be running. */
  ghost predicate Start(s: State) {
    s.bp.Idle? && (s.ap.Halted? || s.ap.Switch?) && s.cur !in CASES && s.need == 0 && s.wait == 0 && s.calls == [] && s.log == []
    && s.online >= 1
  }

  // ----- the invariant -----

  /** The events of the call in progress, up to where caller and AP are. */
  ghost predicate During(s: State, tail: seq<Event>) {
    s.calls != [] && s.log == Expected(s.calls[..|s.calls| - 1]) + [Call(s.calls[|s.calls| - 1])] + tail
    && s.cur == s.calls[|s.calls| - 1]
  }

  /** After the first SIPI. */
  ghost predicate First(s: State) {
    var c := s.cur;
    match s.ap
    case Off => false
    case Started => During(s, [Boot]) && s.need == 1 && s.wait == 0
    case Switch => During(s, [Boot]) && s.need == 1 && s.wait == 0
    case TestNeed(id) => During(s, [Boot]) && s.need == 1 && s.wait == 0 && id == c && c in CASES
    case ClearNeed(id) => During(s, [Boot]) && s.need == 1 && s.wait == 0 && id == c && c in CASES
    case Modify(id) => During(s, [Boot]) && s.need == 0 && s.wait == 0 && id == c && c in CASES
    case Modifying(id) => During(s, [Boot, ModifyBegins(c)]) && s.need == 0 && s.wait == 0 && id == c && c in CASES
    case SetWait(id) => During(s, [Boot, ModifyBegins(c), ModifyEnds(c)]) && s.need == 0 && s.wait == 0 && id == c && c in CASES
    case Halted =>
      if c in CASES then During(s, [Boot, ModifyBegins(c), ModifyEnds(c)]) && s.need == 0 && s.wait == 1
      else During(s, [Boot]) && s.wait == 0
  }

  /** After the second SIPI. */
  ghost predicate Second(s: State) {
    var c := s.cur;
    && During(s, [Boot, ModifyBegins(c), ModifyEnds(c), Boot]) && s.need == 0 && c in CASES
    && (s.ap.Started? || s.ap.Switch? || s.ap == TestNeed(c) || s.ap == SetWait(c) || s.ap.Halted?)
    && s.wait == if s.ap.Halted? then 1 else 0
  }

  ghost predicate Booting(s: State, k: nat) {
    if k == 1 then First(s) else Second(s)
  }

  ghost predicate Waiting(s: State, k: nat) {
    && (k == 1 ==> During(s, []) && s.need == 1 && s.wait == 0)
    && (k == 2 ==> During(s, [Boot, ModifyBegins(s.cur), ModifyEnds(s.cur)]) && s.need == 0 && s.wait == 0 && s.cur in CASES)
  }

  /** Whether the restarted AP has counted itself. */
  function Counted(ap: Ap): int {
    if ap.Started? then 0 else 1
  }

  ghost predicate Inv(s: State) {
    && (forall i :: 0 <= i < |s.calls| - 1 ==> s.calls[i] in CASES)
    && match s.bp
       case Idle => s.log == Expected(s.calls) && s.need == 0 && s.wait == 0 && s.ap.Halted? && s.online >= 0
                    && forall i :: 0 <= i < |s.calls| ==> s.calls[i] in CASES
       case SetCase => s.calls != [] && s.log == Expected(s.calls[..|s.calls| - 1]) + [Call(s.calls[|s.calls| - 1])]
                       && s.need == 0 && s.wait == 0 && s.ap.Halted? && s.online >= 0
       case SetNeed => During(s, []) && s.need == 0 && s.wait == 0 && s.ap.Halted? && s.online >= 0
       case Count(k) => (k == 1 || k == 2) && Waiting(s, k) && s.ap.Halted? && s.online >= 0
       case Init(k) => (k == 1 || k == 2) && Waiting(s, k) && s.ap.Halted? && 0 <= s.cnt <= s.online
       case Startup(k) => (k == 1 || k == 2) && Waiting(s, k) && s.ap.Off? && 0 <= s.cnt <= s.online
       case Online(k) => (k == 1 || k == 2) && Booting(s, k) && 0 <= s.cnt <= s.online - Counted(s.ap)
       case Drop(k) => (k == 1 || k == 2) && Booting(s, k) && Counted(s.ap) <= s.online
       case Poll(k) => (k == 1 || k == 2) && Booting(s, k) && Counted(s.ap) <= s.online + 1
       case Clear(k) => (k == 1 || k == 2) && Booting(s, k) && s.ap.Halted? && s.wait == 1 && s.online >= 0
  }

  lemma ApFirst(s: State)
    requires First(s)
    ensures First(ApStep(s))
  {
  }

  lemma ApSecond(s: State)
    requires Second(s)
    ensures Second(ApStep(s))
  {
  }

  lemma ApBooting(s: State)
    requires (s.bp.Online? || s.bp.Drop? || s.bp.Poll? || s.bp.Clear?) && Booting(s, s.bp.k)
    ensures Booting(ApStep(s), s.bp.k) && ApStep(s).online - Counted(ApStep(s).ap) == s.online - Counted(s.ap)
  {
    if s.bp.k == 1 {
      ApFirst(s);
    } else {
      ApSecond(s);
    }
  }

  lemma ApKeepsInv(s: State)
    requires Inv(s)
    ensures Inv(ApStep(s))
  {
    if s.ap.Halted? || s.ap.Off? {
      assert ApStep(s) == s;
    } else {
      ApBooting(s);
    }
  }

  lemma CallingKeepsInv(s: State, id: int)
    requires Inv(s) && (s.bp.Idle? || s.bp.SetCase? || s.bp.SetNeed?)
    ensures Inv(BpStep(s, id))
  {
  }

  lemma SendingKeepsInv(s: State, id: int)
    requires Inv(s) && (s.bp.Count? || s.bp.Init? || s.bp.Startup?)
    ensures Inv(BpStep(s, id))
  {
  }

  lemma WaitingKeepsInv(s: State, id: int)
    requires Inv(s) && (s.bp.Online? || s.bp.Drop? || s.bp.Poll? || s.bp.Clear?)
    ensures Inv(BpStep(s, id))
  {
  }

  lemma StepKeepsInv(s: State, c: Choice)
    requires Inv(s)
    ensures Inv(Next(s, c))
  {
    if c.A? {
      ApKeepsInv(s);
    } else if s.bp.Idle? || s.bp.SetCase? || s.bp.SetNeed? {
      CallingKeepsInv(s, c.id);
    } else if s.bp.Count? || s.bp.Init? || s.bp.Startup? {
      SendingKeepsInv(s, c.id);
    } else {
      WaitingKeepsInv(s, c.id);
    }
  }

  lemma {:induction false} RunKeepsInv(s: State, sched: seq<Choice>)
    requires Inv(s)
    ensures Inv(Run(s, sched))
    decreases sched
  {
    if sched != [] {
      StepKeepsInv(s, sched[0]);
      RunKeepsInv(Next(s, sched[0]), sched[1..]);
    }
  }

  /**
   From a start where the AP has left its first ap_main, every interleaving of any
   number of calls keeps the promise.
   */
  lemma EveryRunSettles(s: State, sched: seq<Choice>)
    requires Start(s) && s.ap.Halted?
    ensures Settled(Run(s, sched))
  {
    RunKeepsInv(s, sched);
  }

  /** How far the count is from what it was before the call: up by a restart, down by the caller's correction. */
  ghost predicate CountIs(s: State, n: int) {
    s.online ==
    if s.bp.Online? || s.bp.Drop? then n + Counted(s.ap)
    else if s.bp.Poll? || s.bp.Clear? then n + Counted(s.ap) - 1
    else n
  }

  lemma StepKeepsCount(s: State, c: Choice, n: int)
    requires Inv(s) && CountIs(s, n)
    ensures CountIs(Next(s, c), n)
  {
  }

  lemma {:induction false} RunKeepsCount(s: State, sched: seq<Choice>, n: int)
    requires Inv(s) && CountIs(s, n)
    ensures CountIs(Run(s, sched), n)
    decreases sched
  {
    if sched != [] {
      StepKeepsInv(s, sched[0]);
      StepKeepsCount(s, sched[0], n);
      RunKeepsCount(Next(s, sched[0]), sched[1..], n);
    }
  }

  /** Between calls the count of processors online is what it was at the start, in every interleaving. */
  lemma CountIsRestored(s: State, sched: seq<Choice>)
    requires Start(s) && s.ap.Halted? && Run(s, sched).bp.Idle?
    ensures Run(s, sched).online == s.online
  {
    RunKeepsCount(s, sched, s.online);
  }

  lemma {:induction false} RunConcat(s: State, a: seq<Choice>, b: seq<Choice>)
    ensures Run(s, a + b) == Run(Run(s, a), b)
    decreases a
  {
    if a == [] {
      assert a + b == b;
    } else {
      assert (a + b)[0] == a[0] && (a + b)[1..] == a[1..] + b;
      RunConcat(Next(s, a[0]), a[1..], b);
    }
  }

  ghost predicate Reaches(s: State, t: State) {
    exists sched :: Run(s, sched) == t
  }

  lemma Go(s: State, t: State, c: Choice) returns (t': State)
    requires Reaches(s, t)
    ensures t' == Next(t, c) && Reaches(s, t')
  {
    var sched :| Run(s, sched) == t;
    RunConcat(s, sched, [c]);
    assert Run(t, [c]) == Run(Next(t, c), []);
    assert Run(s, sched + [c]) == Next(t, c);
    t' := Next(t, c);
  }

  /** A reboot that finds the flag clear reports at once. */
  lemma IdleBoot(s: State, t: State) returns (t': State)
    requires Reaches(s, t) && t.bp.Count? && t.need == 0 && t.cur in CASES
    ensures Reaches(s, t')
    ensures t' == t.(bp := Online(t.bp.k), cnt := t.online % 256, online := t.online + 1, ap := Halted, wait := 1, log := t.log + [Boot])
  {
    t' := Go(s, t, B(0));
    t' := Go(s, t', B(0));
    t' := Go(s, t', B(0));
    t' := Go(s, t', A);
    t' := Go(s, t', A);
    t' := Go(s, t', A);
    t' := Go(s, t', A);
  }

  /** The caller goes through such a reboot to the end of wait_ap_ready. */
  lemma IdleReboot(s: State, t: State) returns (t': State)
    requires Reaches(s, t) && t.bp.Count? && (t.bp.k == 1 || t.bp.k == 2) && t.need == 0 && t.cur in CASES && t.calls == [t.cur] && t.online >= 0
    ensures Reaches(s, t') && t'.need == 0 && t'.online == t.online && t'.cur == t.cur && t'.calls == t.calls
    ensures t.bp.k == 1 ==> t'.bp == Count(2) && t'.log == t.log + [Boot]
    ensures t.bp.k == 2 ==> t'.bp == Idle && t'.log == t.log + [Boot, Returns(t.cur)]
  {
    t' := IdleBoot(s, t);
    t' := Go(s, t', B(0));
    t' := Go(s, t', B(0));
    t' := Go(s, t', B(0));
    t' := Go(s, t', B(0));
  }

  /** The late AP takes the flag of the call, and the caller has yet to send its first restart. */
  lemma LateStart(s: State) returns (e: State)
    requires Start(s) && s.ap.Switch?
    ensures e.online == s.online && Reaches(s, e) && e.bp == Count(1) && e.need == 0 && e.cur == 27814 && e.calls == [27814] && e.log == [Call(27814)]
  {
    var b := B(27814);
    assert Run(s, []) == s;
    e := Go(s, s, b);
    e := Go(s, e, b);
    e := Go(s, e, b);
    e := Go(s, e, A);
    e := Go(s, e, A);
    e := Go(s, e, A);
  }

  /**
   When the AP of the first boot is late, it can take the flag and be hit by INIT
   before it modifies anything: the call returns and the modification never happened.
   */
  lemma LateApSkipsTheModification(s: State) returns (e: State)
    requires Start(s) && s.ap.Switch?
    ensures Reaches(s, e) && e.bp.Idle? && e.calls == [27814]
    ensures e.log == [Call(27814), Boot, Boot, Returns(27814)] && !Settled(e)
  {
    e := LateStart(s);
    e := IdleReboot(s, e);
    e := IdleReboot(s, e);
    assert e.calls[..0] == [];
    assert Expected(e.calls) == Expected([]) + [Call(27814), Boot, ModifyBegins(27814), ModifyEnds(27814), Boot, Returns(27814)];
  }

  /** The handshake keeps its promise in every interleaving exactly when the AP has left its first ap_main. */
  lemma SettlesIffApIsDone(s: State)
    requires Start(s)
    ensures (forall sched :: Settled(Run(s, sched))) <==> s.ap.Halted?
  {
    if s.ap.Halted? {
      forall sched
        ensures Settled(Run(s, sched))
      {
        EveryRunSettles(s, sched);
      }
    } else {
      var e := LateApSkipsTheModification(s);
      var sched :| Run(s, sched) == e;
      assert !Settled(Run(s, sched));
    }
  }

  // ----- progress -----

  /** A call is in progress whose case id ap_main knows. */
  ghost predicate Busy(s: State) {
    Inv(s) && !s.bp.Idle? && s.calls[|s.calls| - 1] in CASES
  }

  function BpLeft(bp: Bp): nat {
    match bp
    case Idle => 0
    case SetCase => 16
    case SetNeed => 15
    case Count(k) => if k == 1 then 14 else 7
    case Init(k) => if k == 1 then 13 else 6
    case Startup(k) => if k == 1 then 12 else 5
    case Online(k) => if k == 1 then 11 else 4
    case Drop(k) => if k == 1 then 10 else 3
    case Poll(k) => if k == 1 then 9 else 2
    case Clear(k) => if k == 1 then 8 else 1
  }

  function ApLeft(ap: Ap): nat {
    match ap
    case Off => 0
    case Started => 7
    case Switch => 6
    case TestNeed(_) => 5
    case ClearNeed(_) => 4
    case Modify(_) => 3
    case Modifying(_) => 2
    case SetWait(_) => 1
    case Halted => 0
  }

  /** How many more steps the call can take. */
  function Rank(s: State): nat {
    8 * BpLeft(s.bp) + ApLeft(s.ap)
  }

  lemma ApProgress(s: State)
    requires Busy(s)
    ensures Rank(ApStep(s)) < Rank(s) || ApStep(s) == s
  {
  }

  lemma BpProgress(s: State, id: int)
    requires Busy(s)
    ensures Rank(BpStep(s, id)) < Rank(s) || BpStep(s, id) == s
    ensures BpStep(s, id).calls == s.calls
  {
  }

  /** A step of either side brings the call closer to its end or changes nothing. */
  lemma StepProgress(s: State, c: Choice)
    requires Busy(s)
    ensures Rank(Next(s, c)) < Rank(s) || Next(s, c) == s
    ensures Busy(Next(s, c)) || Next(s, c).bp.Idle?
  {
    StepKeepsInv(s, c);
    if c.A? {
      ApProgress(s);
    } else {
      BpProgress(s, c.id);
    }
  }

  /** One side can always move. */
  lemma NoDeadlock(s: State, id: int)
    requires Busy(s)
    ensures ApStep(s) != s || BpStep(s, id) != s
  {
  }

  /** The schedule passes through the end of the call. */
  ghost predicate ReturnsIn(s: State, sched: seq<Choice>)
    decreases sched
  {
    s.bp.Idle? || (sched != [] && ReturnsIn(Next(s, sched[0]), sched[1..]))
  }

  lemma {:induction false} ReturnsLater(s: State, a: seq<Choice>, b: seq<Choice>)
    ensures ReturnsIn(s, a) || ReturnsIn(Run(s, a), b) ==> ReturnsIn(s, a + b)
    decreases a
  {
    if a == [] {
      assert a + b == b;
    } else {
      assert (a + b)[0] == a[0] && (a + b)[1..] == a[1..] + b;
      ReturnsLater(Next(s, a[0]), a[1..], b);
    }
  }

  lemma {:induction false} RankFalls(s: State, sched: seq<Choice>)
    requires Busy(s)
    ensures ReturnsIn(s, sched) || (Busy(Run(s, sched)) && (Run(s, sched) == s || Rank(Run(s, sched)) < Rank(s)))
    decreases sched
  {
    if sched != [] {
      StepProgress(s, sched[0]);
      if !Next(s, sched[0]).bp.Idle? {
        RankFalls(Next(s, sched[0]), sched[1..]);
      }
    }
  }

  lemma RankFallsAt(s: State, c: Choice, post: seq<Choice>)
    requires Busy(s) && Next(s, c) != s
    ensures ReturnsIn(s, [c] + post) || (Busy(Run(s, [c] + post)) && Rank(Run(s, [c] + post)) < Rank(s))
  {
    assert ([c] + post)[1..] == post;
    StepProgress(s, c);
    if !Next(s, c).bp.Idle? {
      RankFalls(Next(s, c), post);
    }
  }

  /** A stretch in which both sides get to move. */
  ghost predicate Fair(round: seq<Choice>) {
    A in round && exists i :: 0 <= i < |round| && round[i].B?
  }

  lemma RoundProgress(s: State, round: seq<Choice>)
    requires Busy(s) && Fair(round)
    ensures ReturnsIn(s, round) || (Busy(Run(s, round)) && Rank(Run(s, round)) < Rank(s))
  {
    var i :| 0 <= i < |round| && round[i].B?;
    var j :| 0 <= j < |round| && round[j] == A;
    NoDeadlock(s, round[i].id);
    var k := if ApStep(s) != s then j else i;
    var pre, post := round[..k], [round[k]] + round[k + 1..];
    assert round == pre + post;
    RunConcat(s, pre, post);
    ReturnsLater(s, pre, post);
    RankFalls(s, pre);
    if !ReturnsIn(s, pre) {
      if Run(s, pre) == s {
        RankFallsAt(s, round[k], round[k + 1..]);
      } else {
        RankFalls(Run(s, pre), post);
      }
    }
  }

  function Flat(rounds: seq<seq<Choice>>): seq<Choice> {
    if rounds == [] then [] else rounds[0] + Flat(rounds[1..])
  }

  /** Under fair scheduling a busy call returns, after at most `Rank` rounds. */
  lemma {:induction false} RoundsReturn(s: State, rounds: seq<seq<Choice>>)
    requires Busy(s) && |rounds| > Rank(s)
    requires forall i :: 0 <= i < |rounds| ==> Fair(rounds[i])
    ensures ReturnsIn(s, Flat(rounds))
    decreases |rounds|
  {
    RoundProgress(s, rounds[0]);
    ReturnsLater(s, rounds[0], Flat(rounds[1..]));
    if !ReturnsIn(s, rounds[0]) {
      RoundsReturn(Run(s, rounds[0]), rounds[1..]);
    }
  }

  /** A call is in progress whose case id ap_main does not know. */
  ghost predicate Stuck(s: State) {
    Inv(s) && !s.bp.Idle? && s.calls[|s.calls| - 1] !in CASES
  }

  /** The caller of an unknown case gets past no wait for the AP's report. */
  lemma StuckCaller(s: State, id: int)
    requires Stuck(s)
    ensures !BpStep(s, id).bp.Idle? && BpStep(s, id).calls == s.calls
  {
  }

  lemma StuckStays(s: State, c: Choice)
    requires Stuck(s)
    ensures Stuck(Next(s, c))
  {
    StepKeepsInv(s, c);
    if c.B? {
      StuckCaller(s, c.id);
    }
  }

  lemma {:induction false} StuckNeverReturns(s: State, sched: seq<Choice>)
    requires Stuck(s)
    ensures !ReturnsIn(s, sched)
    decreases sched
  {
    if sched != [] {
      StuckStays(s, sched[0]);
      StuckNeverReturns(Next(s, sched[0]), sched[1..]);
    }
  }

  /**
   From any point of a call for one of the three cases, in any run, the call returns under every schedule that goes on
   with 136 rounds in which both processors get to move.
   */
  lemma FairCallReturns(s: State, sched: seq<Choice>, id: int, rounds: seq<seq<Choice>>)
    requires Start(s) && s.ap.Halted? && !Run(s, sched).bp.Idle?
    requires Run(s, sched).calls != [] && Run(s, sched).calls[|Run(s, sched).calls| - 1] == id
    requires id == 27814 || id == 27816 || id == 27818
    requires |rounds| >= 136 && forall i :: 0 <= i < |rounds| ==> Fair(rounds[i])
    ensures ReturnsIn(Run(s, sched), Flat(rounds))
  {
    RunKeepsInv(s, sched);
    RoundsReturn(Run(s, sched), rounds);
  }

  /** A call for any other case id never returns: the AP never reports. */
  lemma UnknownCaseHangs(s: State, sched: seq<Choice>, id: int, rest: seq<Choice>)
    requires Start(s) && s.ap.Halted? && !Run(s, sched).bp.Idle?
    requires Run(s, sched).calls != [] && Run(s, sched).calls[|Run(s, sched).calls| - 1] == id
    requires id != 27814 && id != 27816 && id != 27818
    ensures !ReturnsIn(Run(s, sched), rest)
  {
    RunKeepsInv(s, sched);
    StuckNeverReturns(Run(s, sched), rest);
  }
}
