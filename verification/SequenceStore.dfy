// The agent's durable sequence counter: one file replaced by rename, any number of process
// crashes between its system calls, failed writes, and kernel restarts that change the boot ID.
module SequenceStore {
  import opened Wrappers
  import Envelopes

  const SEQUENCE_MODULUS: nat := 0x1_0000_0000_0000_0000

  datatype Stamp = Stamp(bootId: string, sequence: Envelopes.U64)

  datatype File = NoFile | Corrupt | Record(stamp: Stamp)

  // How far a call of Next has come.
  datatype Progress = Idle | Incremented | Written | Renamed

  datatype WriteResult = Complete | Partial | NotStarted

  datatype SeqState = SeqState(
    bootId: string,
    boots: set<string>,
    file: File,
    temp: File,
    memory: Option<Stamp>,
    progress: Progress,
    issued: seq<Stamp>,
    calls: nat)

  // Reboot: the kernel comes up with a boot ID never seen before; since nothing is synced, the
  // files may then hold any earlier content or none at all.
  datatype SeqStep =
    | Open
    | Increment
    | WriteTemp(result: WriteResult)
    | Rename(succeeds: bool)
    | Return
    | Crash
    | Reboot(bootId: string, file: File, temp: File)

  function FirstBoot(bootId: string): SeqState {
    SeqState(bootId, {bootId}, NoFile, NoFile, None, Idle, [], 0)
  }

  // What an opened store starts from; None when the file cannot be decoded.
  function Loaded(file: File, bootId: string): Option<Stamp> {
    match file
    case NoFile => Some(Stamp(bootId, 0))
    case Corrupt => None
    case Record(stamp) => Some(if stamp.bootId == bootId then stamp else Stamp(bootId, 0))
  }

  predicate FromEarlierBoot(file: File, boots: set<string>) {
    file.Record? ==> file.stamp.bootId in boots
  }

  function SeqExec(s: SeqState, step: SeqStep): Option<SeqState> {
    match step
    case Open =>
      if s.memory.Some? then None else Some(s.(memory := Loaded(s.file, s.bootId)))
    case Increment =>
      if s.memory.None? || !s.progress.Idle? then None
      else Some(s.(memory := Some(s.memory.value.(sequence := (s.memory.value.sequence + 1) % SEQUENCE_MODULUS)),
                   progress := Incremented, calls := s.calls + 1))
    case WriteTemp(result) =>
      if s.memory.None? || !s.progress.Incremented? then None else
      (match result
       case Complete => Some(s.(temp := Record(s.memory.value), progress := Written))
       case Partial => Some(s.(temp := Corrupt, progress := Idle))
       case NotStarted => Some(s.(progress := Idle)))
    case Rename(succeeds) =>
      if !s.progress.Written? then None
      else if succeeds then Some(s.(file := s.temp, temp := NoFile, progress := Renamed))
      else Some(s.(progress := Idle))
    case Return =>
      if s.memory.None? || !s.progress.Renamed? then None
      else Some(s.(issued := s.issued + [s.memory.value], progress := Idle))
    case Crash =>
      Some(s.(memory := None, progress := Idle))
    case Reboot(bootId, file, temp) =>
      if bootId in s.boots || !FromEarlierBoot(file, s.boots) || !FromEarlierBoot(temp, s.boots) then None
      else Some(s.(bootId := bootId, boots := s.boots + {bootId}, file := file, temp := temp,
                   memory := None, progress := Idle))
  }

  // ---------- The invariant ----------

  // The file of the current boot is never behind a value already returned, and memory is never
  // behind the file, strictly ahead of it between the increment and the rename.
  ghost predicate Durable(s: SeqState) {
    && s.bootId in s.boots
    && (forall i :: 0 <= i < |s.issued| ==> s.issued[i].bootId in s.boots && s.issued[i].sequence >= 1)
    && (forall i :: 0 <= i < |s.issued| && s.issued[i].bootId == s.bootId ==>
          s.file.Record? && s.file.stamp.bootId == s.bootId && s.issued[i].sequence <= s.file.stamp.sequence)
    && FromEarlierBoot(s.file, s.boots)
    && (s.file.Record? && s.file.stamp.bootId == s.bootId ==> s.file.stamp.sequence <= s.calls)
    && (s.memory.Some? ==>
          && s.memory.value.bootId == s.bootId
          && s.memory.value.sequence <= s.calls
          && (s.file.Record? && s.file.stamp.bootId == s.bootId ==>
                if s.progress.Incremented? || s.progress.Written? then s.file.stamp.sequence < s.memory.value.sequence
                else s.file.stamp.sequence <= s.memory.value.sequence))
    && (!s.progress.Idle? ==> s.memory.Some? && s.memory.value.sequence >= 1)
    && (s.progress.Written? ==> s.temp == Record(s.memory.value))
    && (s.progress.Renamed? ==>
          && s.file == Record(s.memory.value)
          && forall i :: 0 <= i < |s.issued| && s.issued[i].bootId == s.bootId ==>
               s.issued[i].sequence < s.memory.value.sequence)
  }

  predicate StrictlyIncreasing(issued: seq<Stamp>) {
    forall i, j :: 0 <= i < j < |issued| && issued[i].bootId == issued[j].bootId ==>
      issued[i].sequence < issued[j].sequence
  }

  // Below 64-bit overflow: the counter cannot wrap before 2^64 calls.
  ghost predicate SeqInv(s: SeqState) {
    s.calls < SEQUENCE_MODULUS ==> Durable(s) && StrictlyIncreasing(s.issued)
  }

  lemma IncrementKeepsDurable(s: SeqState)
    requires Durable(s) && SeqExec(s, Increment).Some? && s.calls + 1 < SEQUENCE_MODULUS
    ensures Durable(SeqExec(s, Increment).value)
  {
    assert SeqExec(s, Increment).value.memory.value.sequence == s.memory.value.sequence + 1;
  }

  lemma ReturnKeepsDurable(s: SeqState)
    requires Durable(s) && StrictlyIncreasing(s.issued) && SeqExec(s, Return).Some?
    ensures Durable(SeqExec(s, Return).value) && StrictlyIncreasing(SeqExec(s, Return).value.issued)
  {
  }

  lemma FileStepKeepsDurable(s: SeqState, step: SeqStep)
    requires Durable(s) && SeqExec(s, step).Some? && (step.WriteTemp? || step.Rename?)
    ensures Durable(SeqExec(s, step).value) && SeqExec(s, step).value.issued == s.issued
  {
  }

  lemma RestartKeepsDurable(s: SeqState, step: SeqStep)
    requires Durable(s) && SeqExec(s, step).Some? && (step.Open? || step.Crash? || step.Reboot?)
    ensures Durable(SeqExec(s, step).value) && SeqExec(s, step).value.issued == s.issued
  {
  }

  lemma SeqStepKeepsInv(s: SeqState, step: SeqStep)
    requires SeqInv(s) && SeqExec(s, step).Some?
    ensures SeqInv(SeqExec(s, step).value)
  {
    if SeqExec(s, step).value.calls < SEQUENCE_MODULUS {
      match step
      case Increment => IncrementKeepsDurable(s);
      case Return => ReturnKeepsDurable(s);
      case WriteTemp(_) => FileStepKeepsDurable(s, step);
      case Rename(_) => FileStepKeepsDurable(s, step);
      case _ => RestartKeepsDurable(s, step);
    }
  }

  function SeqRun(s: SeqState, steps: seq<SeqStep>): Option<SeqState> {
    if steps == [] then Some(s) else
    match SeqRun(s, steps[..|steps| - 1])
    case None => None
    case Some(before) => SeqExec(before, steps[|steps| - 1])
  }

  lemma {:induction false} SeqRunKeepsInv(bootId: string, steps: seq<SeqStep>)
    requires SeqRun(FirstBoot(bootId), steps).Some?
    ensures SeqInv(SeqRun(FirstBoot(bootId), steps).value)
  {
    if steps != [] {
      var n := |steps| - 1;
      SeqRunKeepsInv(bootId, steps[..n]);
      SeqStepKeepsInv(SeqRun(FirstBoot(bootId), steps[..n]).value, steps[n]);
    }
  }

  // In every run with fewer than 2^64 calls the sequences returned under one boot ID increase
  // strictly, so no stamp is ever returned twice.
  lemma SequencesNeverReused(bootId: string, steps: seq<SeqStep>, i: nat, j: nat)
    requires SeqRun(FirstBoot(bootId), steps).Some?
    requires SeqRun(FirstBoot(bootId), steps).value.calls < SEQUENCE_MODULUS
    requires i < j < |SeqRun(FirstBoot(bootId), steps).value.issued|
    ensures var issued := SeqRun(FirstBoot(bootId), steps).value.issued;
            && issued[i] != issued[j]
            && (issued[i].bootId == issued[j].bootId ==> issued[i].sequence < issued[j].sequence)
  {
    SeqRunKeepsInv(bootId, steps);
  }

  // ---------- Undisturbed calls count up ----------

  const WHOLE_CALL: seq<SeqStep> := [Increment, WriteTemp(Complete), Rename(true), Return]

  function Calls(n: nat): seq<SeqStep> {
    if n == 0 then [] else Calls(n - 1) + WHOLE_CALL
  }

  lemma RunNext(s: SeqState, steps: seq<SeqStep>, step: SeqStep)
    requires SeqRun(s, steps).Some?
    ensures SeqRun(s, steps + [step]) == SeqExec(SeqRun(s, steps).value, step)
  {
    assert (steps + [step])[..|steps + [step]| - 1] == steps;
  }

  lemma WholeCall(s: SeqState, start: SeqState, steps: seq<SeqStep>)
    requires SeqRun(start, steps) == Some(s)
    requires s.memory.Some? && s.progress.Idle? && s.memory.value.sequence < 0xffff_ffff_ffff_ffff
    ensures var stamp := Stamp(s.memory.value.bootId, s.memory.value.sequence + 1);
            SeqRun(start, steps + WHOLE_CALL)
            == Some(s.(file := Record(stamp), temp := NoFile, memory := Some(stamp), issued := s.issued + [stamp], calls := s.calls + 1))
  {
    RunNext(start, steps, Increment);
    RunNext(start, steps + [Increment], WriteTemp(Complete));
    RunNext(start, steps + [Increment] + [WriteTemp(Complete)], Rename(true));
    RunNext(start, steps + [Increment] + [WriteTemp(Complete)] + [Rename(true)], Return);
    assert steps + [Increment] + [WriteTemp(Complete)] + [Rename(true)] + [Return] == steps + WHOLE_CALL;
  }

  // From a store opened at some sequence, n calls without a failure return the next n numbers
  // in turn; a new boot starts at one.
  lemma {:induction false} CallsCountUp(s: SeqState, n: nat)
    requires s.memory.Some? && s.progress.Idle? && s.memory.value.sequence + n < SEQUENCE_MODULUS
    ensures SeqRun(s, Calls(n)).Some?
    ensures var after, first := SeqRun(s, Calls(n)).value, s.memory.value;
            && after.memory == Some(first.(sequence := first.sequence + n)) && after.progress.Idle?
            && |after.issued| == |s.issued| + n && s.issued <= after.issued
            && (forall k :: |s.issued| <= k < |s.issued| + n ==>
                  after.issued[k] == Stamp(first.bootId, first.sequence + k - |s.issued| + 1))
            && (n > 0 ==> after.file == Record(after.memory.value))
  {
    if n == 0 {
      assert s.issued <= SeqRun(s, Calls(0)).value.issued;
    } else {
      CallsCountUp(s, n - 1);
      WholeCall(SeqRun(s, Calls(n - 1)).value, s, Calls(n - 1));
    }
  }

  // What a store opens with: the record of this boot, and zero after any other one or none.
  lemma OpensWith(s: SeqState)
    requires s.memory.None?
    ensures SeqExec(s, SeqStep.Open).Some?
    ensures SeqExec(s, SeqStep.Open).value.memory
         == if s.file.Corrupt? then None
            else if s.file.Record? && s.file.stamp.bootId == s.bootId then Some(s.file.stamp)
            else Some(Stamp(s.bootId, 0))
  {
  }

  // The bound is needed: the counter is an unsigned 64-bit one and goes back to zero.
  lemma CounterWraps(s: SeqState)
    requires s.progress.Idle? && s.memory.Some? && s.memory.value.sequence == SEQUENCE_MODULUS - 1
    ensures SeqExec(s, Increment).value.memory == Some(s.memory.value.(sequence := 0))
  {
  }

  // ---------- The store object ----------

  // One call of Next, as far as it gets.
  function NextSteps(write: WriteResult, rename: bool): seq<SeqStep> {
    if !write.Complete? then [Increment, WriteTemp(write)]
    else if !rename then [Increment, WriteTemp(write), Rename(false)]
    else [Increment, WriteTemp(write), Rename(true), Return]
  }

  class Store {
    var state: Stamp
    var file: File
    var temp: File
    ghost var world: SeqState

    // The ghost world is the step system's state; file and temp are the two files it owns.
    ghost predicate Valid()
      reads this
    {
      && world.memory == Some(state)
      && world.progress.Idle?
      && world.file == file && world.temp == temp
    }

    constructor (state: Stamp, file: File, temp: File, ghost world: SeqState)
      ensures this.state == state && this.file == file && this.temp == temp && this.world == world
    {
      this.state, this.file, this.temp, this.world := state, file, temp, world;
    }

    // OpenSequenceStore: null stands for the decoding error.
    static method Open(bootId: string, file: File, temp: File, ghost world: SeqState) returns (store: Store?)
      requires world.memory.None? && world.progress.Idle?
      requires world.bootId == bootId && world.file == file && world.temp == temp
      ensures store == null <==> file.Corrupt?
      ensures store != null ==> fresh(store) && store.Valid() && SeqExec(world, SeqStep.Open) == Some(store.world)
      ensures store != null ==> store.file == file && store.temp == temp
      ensures store != null ==>
                store.state == if file.Record? && file.stamp.bootId == bootId then file.stamp else Stamp(bootId, 0)
    {
      var state := Stamp(bootId, 0);
      if file.Corrupt? { return null; }
      if file.Record? {
        state := file.stamp;
        if state.bootId != bootId { state := Stamp(bootId, 0); }
      }
      store := new Store(state, file, temp, world.(memory := Some(state)));
    }

    method Next(write: WriteResult, rename: bool) returns (r: Option<Stamp>)
      requires Valid()
      modifies this
      ensures Valid()
      ensures SeqRun(old(world), NextSteps(write, rename)) == Some(world)
      ensures r.Some? <==> write.Complete? && rename
      // The counter moves on whether or not the file can be written; it wraps at 64 bits.
      ensures state.bootId == old(state.bootId)
      ensures state.sequence == if old(state.sequence) == 0xffff_ffff_ffff_ffff then 0 else old(state.sequence) + 1
      ensures r.Some? ==> r.value == state && file == Record(state) && temp == NoFile
      ensures r.None? ==> file == old(file)
      ensures world.issued == if r.Some? then old(world).issued + [r.value] else old(world).issued
    {
      ghost var s0 := world;
      state := state.(sequence := (state.sequence + 1) % SEQUENCE_MODULUS);
      ghost var s1 := SeqExec(s0, Increment).value;
      RunNext(s0, [], Increment);
      assert [] + [Increment] == [Increment];
      match write {
        case Complete => temp := Record(state);
        case Partial => temp := Corrupt;
        case NotStarted =>
      }
      world := SeqExec(s1, WriteTemp(write)).value;
      RunNext(s0, [Increment], WriteTemp(write));
      assert [Increment] + [WriteTemp(write)] == [Increment, WriteTemp(write)];
      if !write.Complete? { return None; }
      ghost var s2 := world;
      RunNext(s0, [Increment, WriteTemp(write)], Rename(rename));
      assert [Increment, WriteTemp(write)] + [Rename(rename)] == [Increment, WriteTemp(write), Rename(rename)];
      world := SeqExec(s2, Rename(rename)).value;
      if !rename { return None; }
      file, temp := temp, NoFile;
      RunNext(s0, [Increment, WriteTemp(write), Rename(rename)], Return);
      assert [Increment, WriteTemp(write), Rename(rename)] + [Return] == NextSteps(write, rename);
      world := SeqExec(world, Return).value;
      r := Some(state);
    }
  }
}
