/** The boot application that enrols its keys, step by step against the firmware. */
module Enrolment {
  import opened EnrolmentPlan

  /** What the firmware is going to do at a call: its answer, and whether the call takes effect in spite of it. */
  datatype Answer = Answer(reply: Reply, effect: bool)

  /** How a part of the application that looks for files comes back, if it does. */
  datatype Search = Found | Missing | Halted(ending: Ending)

  datatype Question = Answered(setup: bool, unknown: bool) | NotAnswered(ending: Ending)

  /** What happens between two boots: the firmware's variables change, files vanish. */
  datatype Interlude = Interlude(enrolled: set<Key>, vanished: set<Key>)

  /** An answer that does not fit the state of the machine is a failure. */
  function Fit(s: State, step: Step, a: Answer): (c: Call)
    ensures c.step == step && Possible(s, c)
  {
    var c := Call(step, a.reply, a.effect);
    if Possible(s, c) then c else Call(step, Failed, a.effect)
  }

  class Machine {
    var state: State
    var calls: nat
    const firmware: nat -> Answer
    ghost var start: State
    ghost var run: seq<Call>
    ghost var history: seq<Boot>

    constructor (firmware: nat -> Answer, files: set<Key>, enrolled: set<Key>)
      ensures history == [] && state == State(files, enrolled) && this.firmware == firmware
    {
      state, calls := State(files, enrolled), 0;
      this.firmware := firmware;
      start, run, history := State(files, enrolled), [], [];
    }

    /** The calls of this boot, and the state they have led to. */
    ghost predicate Consistent()
      reads this
    {
      Run(start, run) && state == After(start, run)
    }

    /** The boot is still going on, at this place of the plan. */
    ghost predicate Arrived(i: nat)
      reads this
    {
      Consistent() && Live(run) && |run| == i
    }

    /** The boot is over, and has ended like this. */
    ghost predicate Over(ending: Ending)
      reads this
    {
      && Consistent()
      && Finished(run)
      && ending == EndingOf(run)
    }

    /** A call to the firmware. */
    method Service(step: Step) returns (reply: Reply)
      requires Consistent() && Live(run) && |run| < PLAN_LENGTH && step == Plan(|run|)
      requires |run| == READS_END ==> ReportedMode(run) == Setup
      modifies `state, `calls, `run
      ensures Consistent()
      ensures |run| == old(|run|) + 1 && run[..|run| - 1] == old(run)
      ensures run[|run| - 1].step == step && run[|run| - 1].reply == reply
      ensures Live(run) <==> Continues(run[|run| - 1])
    {
      hide Run, After, Plan, Possible;
      var c := Fit(state, step, firmware(calls));
      RunStep(start, run, c);
      calls := calls + 1;
      state := Apply(state, c);
      run := run + [c];
      reply := c.reply;
    }

    /** A call after which any failure is shown to the user and followed by a reset. */
    method MustSucceed(step: Step) returns (halted: bool, ending: Ending)
      requires Consistent() && Live(run) && |run| < PLAN_LENGTH && step == Plan(|run|)
      requires |run| == READS_END ==> ReportedMode(run) == Setup
      requires !step.Check? && !step.Read?
      modifies `state, `calls, `run
      ensures halted ==> Over(ending)
      ensures !halted ==> Arrived(old(|run|) + 1) && run[..|run| - 1] == old(run)
    {
      hide Run, After, Plan, Possible;
      var reply := Service(step);
      halted := reply != Ok && reply != DeleteWarning;
      ending := if reply == Stopped then PowerOff else Reset;
      NotAValue(start, run);
    }

    /** Looks for the three files, or opens them; without one of them only looking comes back. */
    method UefiKeys(looking: bool) returns (search: Search)
      requires Arrived(if looking then 0 else READS_END + 1)
      modifies `state, `calls, `run
      ensures search == Found ==> Arrived(if looking then CHECKS_END else ENROLS_START)
      ensures search == Missing ==> looking && Over(CommonBoot)
      ensures search.Halted? ==> Over(search.ending)
    {
      hide Run, After, Possible, ReportedMode, EndingOf, Live;
      var base := if looking then 0 else READS_END + 1;
      PlanSearch();
      var halted, ending := MustSucceed(LocateFileSystem);
      if halted {
        return Halted(ending);
      }
      halted, ending := MustSucceed(OpenVolume);
      if halted {
        return Halted(ending);
      }
      for i := 0 to 3
        invariant Arrived(base + 2 + i)
      {
        PlanFile(i);
        var step := if looking then Check(FILE_ORDER[i]) else Open(FILE_ORDER[i]);
        var reply := Service(step);
        FileReply(start, run);
        if looking && reply == NotFound {
          return Missing;
        }
        if reply != Ok {
          return Halted(if reply == Stopped then PowerOff else Reset);
        }
      }
      search := Found;
    }

    /** One of the five variables; taken is its value if the boot goes on. */
    method GetVariable(variable: ModeVariable) returns (taken: nat, halted: bool, ending: Ending)
      requires Consistent() && Live(run) && |run| < READS_END && Plan(|run|) == Read(variable)
      modifies `state, `calls, `run
      ensures halted ==> Over(ending)
      ensures !halted ==>
        Arrived(old(|run|) + 1) && run[..|run| - 1] == old(run) && taken == Taken(run[|run| - 1])
    {
      hide Run, After, Plan;
      taken, halted, ending := 0, false, Reset;
      var reply := Service(Read(variable));
      ReadReply(start, run);
      match reply
      case NotFound =>
      case Value(v) =>
        taken := if variable == PlatformKey then 1 else v;
      case TooSmall =>
        if variable == PlatformKey {
          taken := 1;
        } else {
          halted := true;
        }
      case _ =>
        halted := true;
        ending := if reply == Stopped then PowerOff else Reset;
    }

    /** Whether the firmware is in setup mode, and if not, whether it is in no known mode at all. */
    method IsSecureBootSetupMode() returns (q: Question)
      requires Arrived(CHECKS_END)
      modifies `state, `calls, `run
      ensures q.Answered? ==>
        && Arrived(READS_END)
        && q.setup == (ReportedMode(run) == Setup) && q.unknown == (ReportedMode(run) == Unknown)
      ensures q.NotAnswered? ==> Over(q.ending)
    {
      hide Run, After, Taken, EndingOf, Live;
      PlanReads();
      var pk, halted, ending := GetVariable(PlatformKey);
      if halted {
        return NotAnswered(ending);
      }
      var audit, deployed, setup, secure;
      audit, halted, ending := GetVariable(AuditMode);
      if halted {
        return NotAnswered(ending);
      }
      deployed, halted, ending := GetVariable(DeployedMode);
      if halted {
        return NotAnswered(ending);
      }
      setup, halted, ending := GetVariable(SetupMode);
      if halted {
        return NotAnswered(ending);
      }
      secure, halted, ending := GetVariable(SecureBoot);
      if halted {
        return NotAnswered(ending);
      }
      if pk == 0 && audit == 1 && deployed == 0 && setup == 0 && secure == 0 {
        q := Answered(false, false);
      } else if pk != 0 && audit == 0 && deployed == 1 && setup == 0 {
        q := Answered(false, false);
      } else if pk == 0 && audit == 0 && deployed == 0 && setup == 1 && secure == 0 {
        q := Answered(true, false);
      } else if pk != 0 && audit == 0 && deployed == 0 && setup == 0 {
        q := Answered(false, false);
      } else {
        q := Answered(false, true);
      }
    }

    /** Enrols the three keys and then deletes their files. */
    method RegistUefiKeys() returns (ending: Ending)
      requires Arrived(READS_END) && ReportedMode(run) == Setup
      modifies `state, `calls, `run
      ensures Over(ending)
    {
      hide Run, After, ReportedMode, Live;
      PlanEnrols();
      var halted;
      halted, ending := MustSucceed(BeginEnrol);
      if halted {
        return;
      }
      var search := UefiKeys(false);
      if search.Halted? {
        return search.ending;
      }
      halted, ending := MustSucceed(Enrol(DB));
      if halted {
        return;
      }
      halted, ending := MustSucceed(Enrol(KEK));
      if halted {
        return;
      }
      halted, ending := MustSucceed(Enrol(PK));
      if halted {
        return;
      }
      halted, ending := MustSucceed(Delete(DB));
      if halted {
        return;
      }
      halted, ending := MustSucceed(Delete(PK));
      if halted {
        return;
      }
      halted, ending := MustSucceed(Delete(KEK));
      if halted {
        return;
      }
      GoodEnd(run);
      ending := SetupScreen(true);
    }

    /** One boot under the name that starts the enrolment. */
    method BootSelfSigned() returns (ending: Ending)
      requires run == [] && start == state
      modifies `state, `calls, `run
      ensures Over(ending)
    {
      hide Run, After, ReportedMode;
      NothingRun(start);
      var search := UefiKeys(true);
      match search
      case Halted(e) =>
        ending := e;
      case Missing =>
        ending := CommonBoot;
      case Found =>
        var q := IsSecureBootSetupMode();
        match q
        case NotAnswered(e) =>
          ending := e;
        case Answered(setup, unknown) =>
          if setup {
            ending := RegistUefiKeys();
          } else {
            LiveEnd(run);
            ending := if unknown then CommonBoot else SetupScreen(false);
          }
    }

    /** Boot after boot. Once a key file has been removed, no later call enrols. */
    method RunBoots(interludes: seq<Interlude>)
      requires history == []
      modifies this
      ensures History(history) && |history| == |interludes|
      ensures forall i, p, j, q ::
        0 <= i <= j < |history| && 0 <= p < |history[i].run| && 0 <= q < |history[j].run|
        && history[i].run[p].step.Delete? && history[i].run[p].effect && (i == j ==> p < q)
        ==> !history[j].run[q].step.Enrol?
    {
      hide Run, After, EndingOf;
      for n := 0 to |interludes|
        invariant History(history) && |history| == n
        invariant n > 0 ==> state == After(history[n - 1].start, history[n - 1].run)
      {
        var between := interludes[n];
        ghost var was := history;
        state := State(state.files - between.vanished, between.enrolled);
        start, run := state, [];
        var ending := BootSelfSigned();
        history := history + [Boot(start, run)];
        HistoryStep(was, Boot(start, run));
      }
      forall i, p, j, q |
        0 <= i <= j < |history| && 0 <= p < |history[i].run| && 0 <= q < |history[j].run|
        && history[i].run[p].step.Delete? && history[i].run[p].effect && (i == j ==> p < q)
        ensures !history[j].run[q].step.Enrol?
      {
        NoEnrolmentAfterRemoval(history, i, p, j, q);
      }
    }
  }

  lemma HistoryStep(h: seq<Boot>, b: Boot)
    requires History(h) && Run(b.start, b.run) && (h != [] ==> Succeeds(h[|h| - 1], b))
    ensures History(h + [b])
  {
    hide Run, Succeeds;
    var more := h + [b];
    assert more[|h|] == b && forall i | 0 <= i < |h| :: more[i] == h[i];
    forall i | 0 <= i < |more|
      ensures Run(more[i].start, more[i].run)
      ensures i > 0 ==> Succeeds(more[i - 1], more[i])
    {
      if 0 < i < |h| {
        assert Succeeds(h[i - 1], h[i]);
      }
    }
  }

  // ---- Places of the plan, and what the answers there mean ----

  lemma NotAValue(s: State, run: seq<Call>)
    requires Run(s, run) && run != [] && !run[|run| - 1].step.Check? && !run[|run| - 1].step.Read?
    ensures Continues(run[|run| - 1]) <==> run[|run| - 1].reply == Ok || run[|run| - 1].reply == DeleteWarning
  {
    RunAt(s, run, |run| - 1);
    hide Run, Plan, After;
  }

  lemma PlanSearch()
    ensures Plan(0) == Plan(11) == LocateFileSystem && Plan(1) == Plan(12) == OpenVolume
  {
  }

  lemma PlanFile(i: nat)
    requires i < 3
    ensures Plan(2 + i) == Check(FILE_ORDER[i]) && Plan(READS_END + 3 + i) == Open(FILE_ORDER[i])
  {
  }

  lemma PlanReads()
    ensures Plan(5) == Read(PlatformKey) && Plan(6) == Read(AuditMode) && Plan(7) == Read(DeployedMode)
    ensures Plan(8) == Read(SetupMode) && Plan(9) == Read(SecureBoot)
  {
  }

  lemma PlanEnrols()
    ensures Plan(10) == BeginEnrol
    ensures Plan(16) == Enrol(DB) && Plan(17) == Enrol(KEK) && Plan(18) == Enrol(PK)
    ensures Plan(19) == Delete(DB) && Plan(20) == Delete(PK) && Plan(21) == Delete(KEK)
  {
  }

  lemma FileReply(s: State, run: seq<Call>)
    requires Run(s, run) && run != [] && (run[|run| - 1].step.Check? || run[|run| - 1].step.Open?)
    ensures var c := run[|run| - 1];
      && (Continues(c) <==> c.reply == Ok)
      && (c.reply != Ok ==> !Live(run))
      && (c.reply != Ok ==> EndingOf(run) == if c.reply == Stopped then PowerOff
                                             else if c.reply == NotFound && c.step.Check? then CommonBoot
                                             else Reset)
  {
    RunAt(s, run, |run| - 1);
    hide Run, Plan, After;
  }

  lemma ReadReply(s: State, run: seq<Call>)
    requires Run(s, run) && run != [] && run[|run| - 1].step.Read?
    ensures var c := run[|run| - 1]; c.reply != Ok && c.reply != DeleteWarning
  {
    RunAt(s, run, |run| - 1);
    hide Run, Plan, After;
  }

  lemma NothingRun(s: State)
    ensures Run(s, []) && After(s, []) == s && Live([])
  {
  }

  lemma GoodEnd(run: seq<Call>)
    requires Live(run) && |run| == PLAN_LENGTH
    ensures EndingOf(run) == SetupScreen(true)
  {
    assert Continues(run[|run| - 1]);
  }

  lemma LiveEnd(run: seq<Call>)
    requires Live(run) && |run| == READS_END && ReportedMode(run) != Setup
    ensures EndingOf(run) == if ReportedMode(run) == Unknown then CommonBoot else SetupScreen(false)
  {
    assert Continues(run[|run| - 1]);
  }
}
