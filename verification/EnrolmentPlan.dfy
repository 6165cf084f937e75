/** Enrolling the keys that lie on the boot partition, boot after boot: what a boot may do to the key files and to the
    firmware's key variables, and what holds over any number of boots, each of which may be cut off at any call. */
module EnrolmentPlan {

  datatype Key = PK | KEK | DB
  datatype ModeVariable = PlatformKey | AuditMode | DeployedMode | SetupMode | SecureBoot

  /** A call to the firmware. */
  datatype Step =
    | LocateFileSystem
    | OpenVolume
    | Check(key: Key)
    | Read(variable: ModeVariable)
    | BeginEnrol
    | Open(key: Key)
    | Enrol(key: Key)
    | Delete(key: Key)

  /** What the firmware answers; Stopped if the machine never gets to see the answer. */
  datatype Reply = Ok | Value(v: nat) | NotFound | TooSmall | DeleteWarning | Failed | Stopped

  /** A call, its answer, and whether it had its effect on the persistent state. */
  datatype Call = Call(step: Step, reply: Reply, effect: bool)

  /** What outlasts a boot: which key files there are, and which of the keys are in the firmware's variables. */
  datatype State = State(files: set<Key>, enrolled: set<Key>)

  const ALL_KEYS := {PK, KEK, DB}

  /** The keys in the order in which their files are looked for, in which they are enrolled, and in which their files
      are deleted. */
  const FILE_ORDER := [PK, KEK, DB]
  const ENROL_ORDER := [DB, KEK, PK]
  const DELETE_ORDER := [DB, PK, KEK]
  const READ_ORDER := [PlatformKey, AuditMode, DeployedMode, SetupMode, SecureBoot]

  const CHECKS_START := 2
  const CHECKS_END := 5
  const READS_END := 10
  const OPENS_START := 13
  const ENROLS_START := 16
  const DELETES_START := 19
  const PLAN_LENGTH := 22

  /** The calls of a boot that enrols the keys, in order; what follows them only asks for a reset. */
  function Plan(i: nat): Step
    requires i < PLAN_LENGTH
  {
    if i == 0 || i == 11 then LocateFileSystem
    else if i == 1 || i == 12 then OpenVolume
    else if i < CHECKS_END then Check(FILE_ORDER[i - CHECKS_START])
    else if i < READS_END then Read(READ_ORDER[i - CHECKS_END])
    else if i == READS_END then BeginEnrol
    else if i < ENROLS_START then Open(FILE_ORDER[i - OPENS_START])
    else if i < DELETES_START then Enrol(ENROL_ORDER[i - ENROLS_START])
    else Delete(DELETE_ORDER[i - DELETES_START])
  }

  // ---- One call ----

  function Apply(s: State, c: Call): State {
    if !c.effect then s
    else match c.step
      case Enrol(k) => s.(enrolled := s.enrolled + {k})
      case Delete(k) => s.(files := s.files - {k})
      case _ => s
  }

  /** What a firmware may answer. A file can only be opened if it is there, a key whose enrolment succeeds is
      enrolled, and a deletion succeeds exactly if it does not warn. */
  predicate Possible(s: State, c: Call) {
    match c.step
    case LocateFileSystem => c.reply in {Ok, Failed, Stopped}
    case OpenVolume => c.reply in {Ok, Failed, Stopped}
    case Check(k) => c.reply in {Ok, NotFound, Failed, Stopped} && (c.reply == Ok ==> k in s.files)
    case Read(_) => c.reply.Value? || c.reply in {NotFound, TooSmall, Failed, Stopped}
    case BeginEnrol => c.reply in {Ok, Failed, Stopped}
    case Open(k) => c.reply in {Ok, NotFound, Failed, Stopped} && (c.reply == Ok ==> k in s.files)
    case Enrol(k) => c.reply in {Ok, Failed, Stopped} && (c.reply == Ok ==> c.effect)
    case Delete(k) =>
      && c.reply in {Ok, DeleteWarning, Failed, Stopped}
      && (c.reply == Ok ==> c.effect) && (c.reply == DeleteWarning ==> !c.effect)
  }

  /** The boot goes on after this call. A deletion that only warns is no error, and a missing variable counts as
      zero. */
  predicate Continues(c: Call) {
    match c.reply
    case Ok => true
    case DeleteWarning => true
    case Value(_) => true
    case NotFound => c.step.Read?
    case TooSmall => c.step == Read(PlatformKey)
    case _ => false
  }

  // ---- The firmware's mode ----

  datatype Mode = Audit | Deployed | Setup | User | Unknown

  /** The value taken for a variable: the platform key only counts as there or not there. */
  function Taken(c: Call): nat {
    if c.reply == NotFound then 0
    else if c.step == Read(PlatformKey) then 1
    else if c.reply.Value? then c.reply.v else 0
  }

  function ModeOf(pk: nat, audit: nat, deployed: nat, setup: nat, secure: nat): Mode {
    if pk == 0 && audit == 1 && deployed == 0 && setup == 0 && secure == 0 then Audit
    else if pk != 0 && audit == 0 && deployed == 1 && setup == 0 then Deployed
    else if pk == 0 && audit == 0 && deployed == 0 && setup == 1 && secure == 0 then Setup
    else if pk != 0 && audit == 0 && deployed == 0 && setup == 0 then User
    else Unknown
  }

  /** The mode that the five variables of this boot amount to. */
  function ReportedMode(run: seq<Call>): Mode
    requires |run| >= READS_END
  {
    ModeOf(Taken(run[5]), Taken(run[6]), Taken(run[7]), Taken(run[8]), Taken(run[9]))
  }

  // ---- One boot ----

  function After(s: State, run: seq<Call>): State
    decreases |run|
  {
    if run == [] then s else Apply(After(s, run[..|run| - 1]), run[|run| - 1])
  }

  /** A boot carries out the plan up to some call: every call but the last went well, the firmware's answers fit its
      state, and nothing follows the five reads unless they amount to setup mode. */
  ghost predicate Run(s: State, run: seq<Call>) {
    && |run| <= PLAN_LENGTH
    && (forall i | 0 <= i < |run| :: run[i].step == Plan(i) && Possible(After(s, run[..i]), run[i]))
    && (forall i | 0 <= i < |run| - 1 :: Continues(run[i]))
    && (|run| > READS_END ==> ReportedMode(run) == Setup)
  }

  /** Every call so far went well. */
  predicate Live(run: seq<Call>) {
    forall i | 0 <= i < |run| :: Continues(run[i])
  }

  /** A boot stops only at a call that did not go well, at the end of the plan, or because it is not in setup mode. */
  predicate Finished(run: seq<Call>) {
    && run != []
    && (Live(run) ==> |run| == PLAN_LENGTH || (|run| == READS_END && ReportedMode(run) != Setup))
  }

  /** How a boot ends. */
  datatype Ending = PowerOff | Reset | CommonBoot | SetupScreen(enrolled: bool)

  function EndingOf(run: seq<Call>): Ending
    requires Finished(run)
  {
    var last := run[|run| - 1];
    if last.reply == Stopped then PowerOff
    else if last.reply == NotFound && last.step.Check? then CommonBoot
    else if !Continues(last) then Reset
    else if |run| == PLAN_LENGTH then SetupScreen(true)
    else if |run| != READS_END then Reset
    else if ReportedMode(run) == Unknown then CommonBoot
    else SetupScreen(false)
  }

  lemma RunAt(s: State, run: seq<Call>, i: nat)
    requires Run(s, run) && i < |run|
    ensures |run| <= PLAN_LENGTH && run[i].step == Plan(i) && Possible(After(s, run[..i]), run[i])
    ensures i < |run| - 1 ==> Continues(run[i])
    ensures |run| > READS_END ==> ReportedMode(run) == Setup
  {
  }

  lemma RunStep(s: State, run: seq<Call>, c: Call)
    requires Run(s, run) && Live(run) && |run| < PLAN_LENGTH
    requires c.step == Plan(|run|) && Possible(After(s, run), c)
    requires |run| == READS_END ==> ReportedMode(run) == Setup
    ensures Run(s, run + [c]) && After(s, run + [c]) == Apply(After(s, run), c)
    ensures Live(run + [c]) <==> Continues(c)
  {
    hide Plan, Possible, Continues, After, Apply, ReportedMode;
    var more := run + [c];
    assert more[..|run|] == run && more[..|run| + 1] == more && more[|run|] == c;
    AfterLast(s, more, |run|);
    if |run| >= READS_END {
      SameMode(run, c);
    }
    forall i | 0 <= i < |more|
      ensures more[i].step == Plan(i) && Possible(After(s, more[..i]), more[i])
    {
      if i < |run| {
        assert more[..i] == run[..i] && more[i] == run[i];
      }
    }
    LiveStep(run, c);
  }

  lemma SameMode(run: seq<Call>, c: Call)
    requires |run| >= READS_END
    ensures ReportedMode(run + [c]) == ReportedMode(run)
  {
  }

  lemma LiveStep(run: seq<Call>, c: Call)
    ensures Live(run + [c]) <==> Live(run) && Continues(c)
  {
    hide Continues;
    var more := run + [c];
    assert more[|run|] == c;
    assert forall i | 0 <= i < |run| :: more[i] == run[i];
  }

  /** How the persistent state moves within a boot: keys are only added and files only removed. */
  lemma {:induction false} AfterMonotone(s: State, run: seq<Call>, i: nat, j: nat)
    requires i <= j <= |run|
    ensures After(s, run[..i]).enrolled <= After(s, run[..j]).enrolled
    ensures After(s, run[..j]).files <= After(s, run[..i]).files
    decreases j - i
  {
    hide After;
    if i < j {
      AfterMonotone(s, run, i, j - 1);
      AfterLast(s, run, j - 1);
    }
  }

  /** The same for the boot as a whole. */
  lemma AfterFrom(s: State, run: seq<Call>, i: nat)
    requires i <= |run|
    ensures After(s, run[..i]).enrolled <= After(s, run).enrolled
    ensures After(s, run).files <= After(s, run[..i]).files <= s.files
  {
    assert run[..|run|] == run && run[..0] == [];
    AfterMonotone(s, run, 0, i);
    AfterMonotone(s, run, i, |run|);
  }

  lemma AfterLast(s: State, run: seq<Call>, i: nat)
    requires i < |run|
    ensures After(s, run[..i + 1]) == Apply(After(s, run[..i]), run[i])
  {
    assert run[..i + 1][..i] == run[..i];
  }

  lemma {:induction false} FilesBeforeDeletes(s: State, run: seq<Call>, i: nat)
    requires Run(s, run) && i <= |run| && i <= DELETES_START
    ensures After(s, run[..i]).files == s.files
  {
    hide After, Run, Plan;
    if i > 0 {
      FilesBeforeDeletes(s, run, i - 1);
      AfterLast(s, run, i - 1);
      RunAt(s, run, i - 1);
      Places(i - 1);
    } else {
      NoCalls(s, run);
    }
  }

  lemma NoCalls(s: State, run: seq<Call>)
    ensures After(s, run[..0]) == s
  {
  }

  /** Which calls of the plan look for files, enrol and delete. */
  lemma Places(i: nat)
    requires i < PLAN_LENGTH
    ensures Plan(i).Check? <==> CHECKS_START <= i < CHECKS_END
    ensures Plan(i).Enrol? <==> ENROLS_START <= i < DELETES_START
    ensures Plan(i).Delete? <==> i >= DELETES_START
    ensures Plan(i).Check? ==> Plan(i).key == FILE_ORDER[i - CHECKS_START]
    ensures Plan(i).Enrol? ==> Plan(i).key == ENROL_ORDER[i - ENROLS_START]
    ensures Plan(i).Delete? ==> Plan(i).key == DELETE_ORDER[i - DELETES_START]
  {
  }

  /** The key at this place of the plan is enrolled once the boot is past it. */
  lemma EnrolledPast(s: State, run: seq<Call>, i: nat, j: nat)
    requires Run(s, run) && ENROLS_START <= i < DELETES_START && i < j < |run|
    ensures run[i] == Call(Enrol(ENROL_ORDER[i - ENROLS_START]), Ok, true)
    ensures ENROL_ORDER[i - ENROLS_START] in After(s, run[..j]).enrolled
  {
    hide After, Run, Plan;
    RunAt(s, run, i);
    RunAt(s, run, j);
    Places(i);
    AfterLast(s, run, i);
    AfterMonotone(s, run, i + 1, j);
  }

  // ---- What every boot keeps ----

  /** The platform key is enrolled only after the other two: both enrolments had succeeded in this boot, and both keys
      are in the firmware's variables at that time. */
  lemma PlatformKeyLast(s: State, run: seq<Call>, j: nat)
    requires Run(s, run) && j < |run| && run[j].step == Enrol(PK)
    ensures {DB, KEK} <= After(s, run[..j]).enrolled
    ensures j >= 2 && run[j - 2] == Call(Enrol(DB), Ok, true) && run[j - 1] == Call(Enrol(KEK), Ok, true)
  {
    hide After, Run, Plan;
    RunAt(s, run, j);
    Places(j);
    assert j == ENROLS_START + 2;
    EnrolledPast(s, run, j - 2, j);
    EnrolledPast(s, run, j - 1, j);
  }

  /** A key file is deleted only after all three enrolments succeeded in this boot, and while all three keys are
      enrolled. */
  lemma RemovalLast(s: State, run: seq<Call>, j: nat)
    requires Run(s, run) && j < |run| && run[j].step.Delete?
    ensures ALL_KEYS <= After(s, run[..j]).enrolled
    ensures j >= DELETES_START
    ensures forall i | 0 <= i < 3 :: run[ENROLS_START + i] == Call(Enrol(ENROL_ORDER[i]), Ok, true)
  {
    hide After, Run, Plan;
    RunAt(s, run, j);
    Places(j);
    EnrolledPast(s, run, ENROLS_START, j);
    EnrolledPast(s, run, ENROLS_START + 1, j);
    EnrolledPast(s, run, ENROLS_START + 2, j);
  }

  /** Nothing is enrolled unless this boot found all three files, no platform key, SetupMode 1, and zero or nothing in
      the other three variables. */
  lemma OnlyInSetupMode(s: State, run: seq<Call>, j: nat)
    requires Run(s, run) && j < |run| && run[j].step.Enrol?
    ensures |run| > READS_END && ReportedMode(run) == Setup
    ensures run[5].reply == NotFound && run[8].reply == Value(1)
    ensures run[6].reply in ZEROS && run[7].reply in ZEROS && run[9].reply in ZEROS
    ensures s.files == ALL_KEYS
  {
    hide After, Run, Plan;
    RunAt(s, run, j);
    Places(j);
    RunAt(s, run, CHECKS_END);
    CheckedFiles(s, run);
    FirstRead(run[CHECKS_END]);
    ReadAt(s, run, 6);
    ReadAt(s, run, 7);
    ReadAt(s, run, 8);
    ReadAt(s, run, 9);
  }

  /** The answers to reading a variable that amount to zero. */
  const ZEROS := {NotFound, Value(0)}

  lemma ReadAt(s: State, run: seq<Call>, i: nat)
    requires Run(s, run) && 5 < i < 10 && |run| > READS_END
    ensures Taken(run[i]) == 0 <==> run[i].reply in ZEROS
    ensures Taken(run[i]) == 1 <==> run[i].reply == Value(1)
  {
    hide After, Run;
    RunAt(s, run, i);
    assert Continues(run[i]);
  }

  lemma FirstRead(c: Call)
    requires c.step == Plan(CHECKS_END)
    ensures Taken(c) == 0 <==> c.reply == NotFound
  {
  }

  lemma CheckedFile(s: State, run: seq<Call>, i: nat)
    requires Run(s, run) && CHECKS_START <= i < CHECKS_END && i < |run| && (i < |run| - 1 || Continues(run[i]))
    ensures FILE_ORDER[i - CHECKS_START] in s.files
  {
    hide After, Run, Plan;
    RunAt(s, run, i);
    Places(i);
    FilesBeforeDeletes(s, run, i);
  }

  lemma CheckedFiles(s: State, run: seq<Call>)
    requires Run(s, run) && |run| >= CHECKS_END && (|run| > CHECKS_END || Live(run))
    ensures s.files == ALL_KEYS
  {
    hide Run;
    CheckedFile(s, run, CHECKS_START);
    CheckedFile(s, run, CHECKS_START + 1);
    CheckedFile(s, run, CHECKS_START + 2);
    forall k: Key
      ensures k in s.files && k in ALL_KEYS
    {
      match k {
        case PK =>
        case KEK =>
        case DB =>
      }
    }
  }

  /** A boot that ends without one of the key files it started with leaves all three keys enrolled. */
  lemma MissingMeansEnrolled(s: State, run: seq<Call>)
    requires Run(s, run) && After(s, run).files != s.files
    ensures ALL_KEYS <= After(s, run).enrolled
  {
    hide After, Run, Plan;
    CutOffKeepsFiles(s, run);
    RunAt(s, run, DELETES_START);
    Places(DELETES_START);
    RemovalLast(s, run, DELETES_START);
    AfterFrom(s, run, DELETES_START);
  }

  /** A boot that is cut off before its deletions leaves the files where they are, so a later boot can start over. */
  lemma CutOffKeepsFiles(s: State, run: seq<Call>)
    requires Run(s, run)
    ensures After(s, run).files != s.files ==> |run| > DELETES_START
  {
    hide After, Run, Plan;
    if |run| <= DELETES_START {
      FilesBeforeDeletes(s, run, |run|);
      assert run[..|run|] == run;
    }
  }

  /** One deletion of a boot in which every call went well. */
  lemma OneDeletion(s: State, run: seq<Call>, i: nat)
    requires Run(s, run) && Live(run) && i < 3 && DELETES_START + i < |run|
    ensures var before, c := After(s, run[..DELETES_START + i]).files, run[DELETES_START + i];
      After(s, run[..DELETES_START + i + 1]).files == if c.reply == Ok then before - {DELETE_ORDER[i]} else before
  {
    hide After, Run, Plan;
    RunAt(s, run, DELETES_START + i);
    Places(DELETES_START + i);
    AfterLast(s, run, DELETES_START + i);
    assert Continues(run[DELETES_START + i]);
  }

  /** If every call goes well the boot leaves three enrolled keys, and exactly those key files whose deletion only
      warned. */
  lemma CompleteBoot(s: State, run: seq<Call>)
    requires Run(s, run) && Live(run) && |run| == PLAN_LENGTH
    ensures ALL_KEYS <= After(s, run).enrolled
    ensures EndingOf(run) == SetupScreen(true)
    ensures forall i | 0 <= i < 3 ::
      DELETE_ORDER[i] in After(s, run).files <==> run[DELETES_START + i].reply == DeleteWarning
  {
    hide After, Run, Plan;
    RunAt(s, run, DELETES_START);
    RunAt(s, run, DELETES_START + 1);
    RunAt(s, run, DELETES_START + 2);
    Places(DELETES_START);
    RemovalLast(s, run, DELETES_START);
    AfterFrom(s, run, DELETES_START);
    CheckedFiles(s, run);
    FilesBeforeDeletes(s, run, DELETES_START);
    OneDeletion(s, run, 0);
    OneDeletion(s, run, 1);
    OneDeletion(s, run, 2);
    assert run[..PLAN_LENGTH] == run;
    assert Continues(run[19]) && Continues(run[20]) && Continues(run[21]);
    Places(20);
    Places(21);
  }

  /** A boot without a platform key, with SetupMode 1 and the other three variables 0, at which every other call goes
      well, enrols all three keys and deletes all three files. */
  lemma SetupModeEnrols(s: State, run: seq<Call>)
    requires Run(s, run) && Finished(run)
    requires forall i | 0 <= i < |run| && !(5 <= i < 10) :: run[i].reply == Ok
    requires |run| > 5 ==> run[5].reply == NotFound
    requires |run| > 6 ==> run[6].reply == Value(0)
    requires |run| > 7 ==> run[7].reply == Value(0)
    requires |run| > 8 ==> run[8].reply == Value(1)
    requires |run| > 9 ==> run[9].reply == Value(0)
    ensures EndingOf(run) == SetupScreen(true)
    ensures ALL_KEYS <= After(s, run).enrolled && After(s, run).files == {}
  {
    hide After, Run, Plan;
    forall i | 0 <= i < |run|
      ensures Continues(run[i])
    {
      RunAt(s, run, i);
      if 5 <= i < 10 {
        ReadPlaces(i);
      }
    }
    if |run| == READS_END {
      ReadSteps(s, run);
      assert false;
    }
    CompleteBoot(s, run);
    NoFileLeft(s, run);
  }

  lemma ReadSteps(s: State, run: seq<Call>)
    requires Run(s, run) && |run| >= READS_END
    ensures run[5].step == Read(PlatformKey) && run[6].step == Read(AuditMode) && run[7].step == Read(DeployedMode)
    ensures run[8].step == Read(SetupMode) && run[9].step == Read(SecureBoot)
  {
    hide After, Run, Plan;
    RunAt(s, run, 5);
    RunAt(s, run, 6);
    RunAt(s, run, 7);
    RunAt(s, run, 8);
    RunAt(s, run, 9);
    ReadPlaces(5);
    ReadPlaces(6);
    ReadPlaces(7);
    ReadPlaces(8);
    ReadPlaces(9);
  }

  lemma ReadPlaces(i: nat)
    requires 5 <= i < 10
    ensures Plan(i) == Read(READ_ORDER[i - 5])
  {
  }

  lemma NoFileLeft(s: State, run: seq<Call>)
    requires Run(s, run) && Live(run) && |run| == PLAN_LENGTH
    requires forall i | DELETES_START <= i < PLAN_LENGTH :: run[i].reply == Ok
    ensures After(s, run).files == {}
  {
    hide After, Run, Plan;
    CompleteBoot(s, run);
    assert DELETE_ORDER[0] !in After(s, run).files;
    assert DELETE_ORDER[1] !in After(s, run).files;
    assert DELETE_ORDER[2] !in After(s, run).files;
    forall k: Key
      ensures k !in After(s, run).files
    {
      match k {
        case PK =>
        case KEK =>
        case DB =>
      }
    }
  }

  /** A call that fails ends the boot with a reset, and so does a variable other than the platform key that does not fit
      its place. */
  lemma FailureResets(s: State, run: seq<Call>, i: nat)
    requires Run(s, run) && Finished(run) && i < |run|
    requires run[i].reply == Failed || (run[i].reply == TooSmall && i != 5)
    ensures i == |run| - 1 && EndingOf(run) == Reset
  {
    hide After, Run, Plan;
    RunAt(s, run, i);
    if run[i].reply == TooSmall {
      OnlyReadsTooSmall(s, run, i);
    }
  }

  lemma OnlyReadsTooSmall(s: State, run: seq<Call>, i: nat)
    requires Run(s, run) && i < |run| && run[i].reply == TooSmall && i != 5
    ensures 5 < i < 10 && run[i].step != Read(PlatformKey)
  {
    hide After, Run;
    RunAt(s, run, i);
  }

  /** Without a platform key and with zero in all other variables, the mode is unknown: the boot goes on as usual and
      changes nothing. */
  lemma UnknownModeGoesOn(s: State, run: seq<Call>)
    requires Run(s, run) && Finished(run)
    requires forall i | 0 <= i < |run| && !(5 <= i < 10) :: run[i].reply == Ok
    requires |run| > 5 ==> run[5].reply == NotFound
    requires forall i | 5 < i < |run| && i < 10 :: run[i].reply == Value(0)
    ensures EndingOf(run) == CommonBoot && After(s, run) == s
  {
    hide After, Run, Plan;
    forall i | 0 <= i < |run|
      ensures Continues(run[i])
    {
      RunAt(s, run, i);
      if 5 <= i < 10 {
        ReadPlaces(i);
      }
    }
    if |run| >= READS_END {
      ReadSteps(s, run);
      RunAt(s, run, |run| - 1);
      SameBeforeEnrols(s, run, READS_END);
    }
    assert run[..|run|] == run;
  }

  /** A boot with a platform key, whose five variables are those of user or of deployed mode, changes nothing and asks
      the user to clear the keys. */
  lemma UserModeAsks(s: State, run: seq<Call>)
    requires Run(s, run) && Finished(run)
    requires forall i | 0 <= i < |run| && !(5 <= i < 10) :: run[i].reply == Ok
    requires |run| > 5 ==> run[5].reply.Value? || run[5].reply == TooSmall
    requires |run| > 6 ==> run[6].reply == Value(0)
    requires |run| > 7 ==> run[7].reply in {Value(0), Value(1)}
    requires |run| > 8 ==> run[8].reply == Value(0)
    requires |run| > 9 ==> run[9].reply.Value?
    ensures EndingOf(run) == SetupScreen(false) && After(s, run) == s
  {
    hide After, Run, Plan;
    forall i | 0 <= i < |run|
      ensures Continues(run[i])
    {
      RunAt(s, run, i);
      if 5 <= i < 10 {
        ReadPlaces(i);
      }
    }
    if |run| >= READS_END {
      ReadSteps(s, run);
      RunAt(s, run, |run| - 1);
    }
    AskedToClearIff(s, run);
  }

  /** With a key file missing, a boot changes nothing, and it never asks the user to clear the keys. */
  lemma MissingFileBoot(s: State, run: seq<Call>)
    requires Run(s, run) && s.files != ALL_KEYS
    ensures |run| <= CHECKS_END && (|run| == CHECKS_END ==> !Live(run))
    ensures run != [] && !Live(run) ==> !EndingOf(run).SetupScreen?
    ensures After(s, run) == s
  {
    hide After, Run, Plan, Continues;
    if |run| > CHECKS_END || (|run| == CHECKS_END && Live(run)) {
      CheckedFiles(s, run);
      assert false;
    }
    if run != [] && !Live(run) {
      var i :| 0 <= i < |run| && !Continues(run[i]);
      RunAt(s, run, i);
    }
    SameBeforeEnrols(s, run, |run|);
    assert run[..|run|] == run;
  }

  /** The user is asked to clear the keys exactly if all three files were found, all five variables could be read, and
      they amount to a known mode other than setup mode; the boot changes nothing then. */
  lemma AskedToClearIff(s: State, run: seq<Call>)
    requires Run(s, run) && Finished(run)
    ensures EndingOf(run) == SetupScreen(false)
       <==> Live(run) && |run| == READS_END && ReportedMode(run) in {Audit, Deployed, User}
    ensures EndingOf(run) == SetupScreen(false) ==> s.files == ALL_KEYS && After(s, run) == s
  {
    hide After, Run, Plan, ReportedMode;
    var last := |run| - 1;
    RunAt(s, run, last);
    if Live(run) {
      assert Continues(run[last]);
      CheckedFiles(s, run);
      if |run| == READS_END {
        SameBeforeEnrols(s, run, |run|);
        assert run[..|run|] == run;
      }
    } else {
      var i :| 0 <= i < |run| && !Continues(run[i]);
      RunAt(s, run, i);
    }
  }

  /** If a boot enrolled everything but none of its deletions took effect, all files are there for the next one. */
  lemma WarnedKeepsFiles(s: State, run: seq<Call>)
    requires Run(s, run) && Live(run) && |run| == PLAN_LENGTH
    requires forall i | DELETES_START <= i < PLAN_LENGTH :: run[i].reply == DeleteWarning
    ensures After(s, run).files == ALL_KEYS
  {
    hide Run, After, Continues;
    CompleteBoot(s, run);
    assert DELETE_ORDER[0] in After(s, run).files;
    assert DELETE_ORDER[1] in After(s, run).files;
    assert DELETE_ORDER[2] in After(s, run).files;
    forall k: Key
      ensures k in After(s, run).files && k in ALL_KEYS
    {
      match k {
        case PK =>
        case KEK =>
        case DB =>
      }
    }
  }

  lemma {:induction false} SameBeforeEnrols(s: State, run: seq<Call>, i: nat)
    requires Run(s, run) && i <= |run| && i <= ENROLS_START
    ensures After(s, run[..i]) == s
  {
    hide After, Run, Plan;
    if i > 0 {
      SameBeforeEnrols(s, run, i - 1);
      AfterLast(s, run, i - 1);
      RunAt(s, run, i - 1);
      Places(i - 1);
    } else {
      NoCalls(s, run);
    }
  }

  // ---- Any number of boots ----

  datatype Boot = Boot(start: State, run: seq<Call>)

  /** Boots one after the other. Between them anything may happen to the firmware's variables, and files may vanish,
      but no key file comes back. */
  ghost predicate History(h: seq<Boot>) {
    && (forall i | 0 <= i < |h| :: Run(h[i].start, h[i].run))
    && forall i | 0 < i < |h| :: Succeeds(h[i - 1], h[i])
  }

  predicate Succeeds(earlier: Boot, later: Boot) {
    later.start.files <= After(earlier.start, earlier.run).files
  }

  lemma {:induction false} FilesShrink(h: seq<Boot>, i: nat, j: nat)
    requires History(h) && i < j < |h|
    ensures h[j].start.files <= After(h[i].start, h[i].run).files
    decreases j
  {
    hide Run, After;
    assert Succeeds(h[j - 1], h[j]);
    if i < j - 1 {
      FilesShrink(h, i, j - 1);
      AfterFrom(h[j - 1].start, h[j - 1].run, 0);
    }
  }

  /** Once a key file has been removed, nothing is enrolled any more, neither later in that boot nor in any later
      boot. */
  lemma NoEnrolmentAfterRemoval(h: seq<Boot>, i: nat, p: nat, j: nat, q: nat)
    requires History(h) && i <= j < |h| && p < |h[i].run| && q < |h[j].run|
    requires h[i].run[p].step.Delete? && h[i].run[p].effect
    requires i == j ==> p < q
    ensures !h[j].run[q].step.Enrol?
  {
    hide Run, After, Plan;
    var b, later := h[i], h[j];
    assert Run(b.start, b.run) && Run(later.start, later.run);
    RunAt(b.start, b.run, p);
    RunAt(later.start, later.run, q);
    Places(p);
    Places(q);
    if i < j {
      RemovedStays(b.start, b.run, p);
      FilesShrink(h, i, j);
      if later.run[q].step.Enrol? {
        OnlyInSetupMode(later.start, later.run, q);
        assert false;
      }
    }
  }

  lemma RemovedStays(s: State, run: seq<Call>, p: nat)
    requires p < |run| && run[p].step.Delete? && run[p].effect
    ensures run[p].step.key !in After(s, run).files && run[p].step.key in ALL_KEYS
  {
    hide After;
    AfterLast(s, run, p);
    AfterFrom(s, run, p + 1);
    match run[p].step.key {
      case PK =>
      case KEK =>
      case DB =>
    }
  }

  /** From the first boot after a removal on, no boot changes anything: the keys enrolled then are only touched by
      what happens between boots. */
  lemma SettledAfterRemoval(h: seq<Boot>, i: nat, p: nat, j: nat)
    requires History(h) && i < j < |h| && p < |h[i].run|
    requires h[i].run[p].step.Delete? && h[i].run[p].effect
    ensures After(h[j].start, h[j].run) == h[j].start
    ensures h[j].run != [] && !Live(h[j].run) ==> !EndingOf(h[j].run).SetupScreen?
  {
    hide Run, After;
    assert Run(h[j].start, h[j].run);
    RemovedStays(h[i].start, h[i].run, p);
    FilesShrink(h, i, j);
    MissingFileBoot(h[j].start, h[j].run);
  }
}
