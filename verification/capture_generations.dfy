/** Two modules that fold the same log, each with one slot for a captured state, and the
    coordinator that pairs the captures: the value model and its runs. */
module CaptureGenerations {
  import opened BookTypes
  import opened ByteWords
  import opened WalCores

  /** What decoding a payload says; a save carries the generation it announces. */
  datatype Decoded = Undecodable | Ordinary | Save(generation: nat)

  type Decoder = Payload -> Decoded

  /** A module's state: how many records it has folded, the folded value, and the sticky flag. */
  datatype Folded<F> = Folded(processedEnd: nat, value: F, failed: bool)

  datatype Capture<F> = Capture(generation: nat, position: nat, processedEnd: nat, sequence: nat, state: Folded<F>)

  datatype Module<F> = Module(state: Folded<F>, capture: Option<Capture<F>>)

  predicate BadRecord(decode: Decoder, r: RecordView) {
    var d := decode(r.payload);
    d == Undecodable || (d.Save? && d.generation != r.position)
  }

  /** Whether the module accepts the record, and the module afterwards. */
  function Process<F>(decode: Decoder, fold: (F, RecordView) -> F, m: Module<F>, r: RecordView): (bool, Module<F>) {
    if m.state.failed || r.position != m.state.processedEnd || BadRecord(decode, r) then
      (false, m.(state := m.state.(failed := true)))
    else if decode(r.payload).Save? && m.capture.Some? then (false, m)
    else
      var state := Folded(m.state.processedEnd + 1, fold(m.state.value, r), m.state.failed);
      (true, Module(state,
          if decode(r.payload).Save?
            then Some(Capture(decode(r.payload).generation, r.position, state.processedEnd, r.sequence, state))
                           else m.capture))
  }

  /** Whether the capture was there, and the module without it. */
  function Release<F>(m: Module<F>, generation: nat, processedEnd: nat): (bool, Module<F>) {
    if m.capture == None || m.capture.value.generation != generation || m.capture.value.processedEnd != processedEnd
      then (false, m)
    else (true, m.(capture := None))
  }

  datatype CollectStatus = Complete | MissingParticipant | Mismatch | GenerationInFlight

  datatype Generation<A, B> = Generation(hash: Capture<A>, bits: Capture<B>)

  function CollectStatusOf<A, B>(generation: Option<Generation<A, B>>, hash: Module<A>,
                                 bits: Module<B>): CollectStatus {
    if generation.Some? then GenerationInFlight
    else if hash.capture == None || bits.capture == None then MissingParticipant
    else
      var a, b := hash.capture.value, bits.capture.value;
      if a.generation != b.generation || a.position != b.position || a.processedEnd != b.processedEnd
        || a.sequence != b.sequence
         || a.state.processedEnd != a.processedEnd || b.state.processedEnd != b.processedEnd then Mismatch
      else Complete
  }

  // ---------------------------------------------------------------- folding a log

  function FoldAll<F>(fold: (F, RecordView) -> F, start: F, log: seq<RecordView>): F {
    if log == [] then start else fold(FoldAll(fold, start, log[..|log| - 1]), log[|log| - 1])
  }

  predicate IsSave(decode: Decoder, r: RecordView) {
    decode(r.payload).Save?
  }

  /** The number of saves in a log. */
  function Saves(decode: Decoder, log: seq<RecordView>): nat {
    if log == [] then 0 else Saves(decode, log[..|log| - 1]) + (if IsSave(decode, log[|log| - 1]) then 1 else 0)
  }

  lemma {:induction false} SavesMonotonic(decode: Decoder, log: seq<RecordView>, m: nat, n: nat)
    requires m <= n <= |log|
    ensures Saves(decode, log[..m]) <= Saves(decode, log[..n])
    decreases n - m
  {
    if m < n {
      SavesMonotonic(decode, log, m, n - 1);
      assert log[..n][..n - 1] == log[..n - 1];
    }
  }

  /** The state a module has after the first `n` records. */
  function StateAfter<F>(fold: (F, RecordView) -> F, start: F, log: seq<RecordView>, n: nat): Folded<F>
    requires n <= |log|
  {
    Folded(n, FoldAll(fold, start, log[..n]), false)
  }

  /** The capture of the save at `p`. */
  function CaptureAt<F>(decode: Decoder, fold: (F, RecordView) -> F, start: F, log: seq<RecordView>, p: nat): Capture<F>
    requires p < |log|
  {
    Capture(p, p, p + 1, log[p].sequence, StateAfter(fold, start, log, p + 1))
  }

  ghost predicate LogOk(log: seq<RecordView>) {
    forall p :: 0 <= p < |log| ==> log[p].position == p
  }

  /** The records below `n` are well formed, and `failed` says that the one at `n` was refused for
      good. */
  ghost predicate RefusalInv(decode: Decoder, log: seq<RecordView>, n: nat, failed: bool) {
    && (forall p :: 0 <= p < n && p < |log| ==> !BadRecord(decode, log[p]))
    && (failed ==> n < |log| && BadRecord(decode, log[n]))
  }

  /** The module has folded a prefix of the log; its slot holds the last save of that prefix, and
      the saves before it are the `released` ones. */
  ghost predicate ModuleInv<F>(decode: Decoder, fold: (F, RecordView) -> F, start: F, log: seq<RecordView>,
                               released: nat, m: Module<F>) {
    var n := m.state.processedEnd;
    && n <= |log| && m.state.(failed := false) == StateAfter(fold, start, log, n)
    && RefusalInv(decode, log, n, m.state.failed)
    && match m.capture
       case None => Saves(decode, log[..n]) == released
       case Some(c) =>
         && c.position < n && IsSave(decode, log[c.position])
         && c == CaptureAt(decode, fold, start, log, c.position)
         && Saves(decode, log[..c.position]) == released && Saves(decode, log[..n]) == released + 1
  }

  lemma ProcessKeeps<F>(decode: Decoder, fold: (F, RecordView) -> F, start: F, log: seq<RecordView>, released: nat,
                        m: Module<F>)
    requires LogOk(log) && ModuleInv(decode, fold, start, log, released, m) && m.state.processedEnd < |log|
    ensures ModuleInv(decode, fold, start, log, released, Process(decode, fold, m, log[m.state.processedEnd]).1)
    ensures Process(decode, fold, m, log[m.state.processedEnd]).1.state.failed
      <==> BadRecord(decode, log[m.state.processedEnd])
  {
    var n := m.state.processedEnd;
    assert log[..n + 1][..n] == log[..n];
    assert log[n].position == n;
  }

  lemma ReleaseKeeps<F>(decode: Decoder, fold: (F, RecordView) -> F, start: F, log: seq<RecordView>, released: nat,
                        m: Module<F>)
    requires ModuleInv(decode, fold, start, log, released, m) && m.capture.Some?
    ensures ModuleInv(decode, fold, start, log, released + 1, m.(capture := None))
  {
  }

  lemma PublishKeeps<F>(decode: Decoder, fold: (F, RecordView) -> F, start: F, log: seq<RecordView>, released: nat,
                        m: Module<F>, r: RecordView)
    requires ModuleInv(decode, fold, start, log, released, m)
    ensures ModuleInv(decode, fold, start, log + [r], released, m)
  {
    var n := m.state.processedEnd;
    assert (log + [r])[..n] == log[..n];
    if m.capture.Some? {
      var p := m.capture.value.position;
      assert (log + [r])[..p] == log[..p] && (log + [r])[..p + 1] == log[..p + 1];
    }
  }

  /** Two modules with the same number of released captures hold the capture of the same save. */
  lemma SameSave<A, B>(decode: Decoder, foldA: (A, RecordView) -> A, startA: A, foldB: (B, RecordView) -> B, startB: B,
                       log: seq<RecordView>, released: nat, a: Module<A>, b: Module<B>)
    requires ModuleInv(decode, foldA, startA, log, released, a) && ModuleInv(decode, foldB, startB, log, released, b)
    requires a.capture.Some? && b.capture.Some?
    ensures a.capture.value.position == b.capture.value.position
  {
    var p, q := a.capture.value.position, b.capture.value.position;
    assert log[..p + 1][..p] == log[..p] && log[..q + 1][..q] == log[..q];
    if p < q {
      SavesMonotonic(decode, log, p + 1, q);
    } else if q < p {
      SavesMonotonic(decode, log, q + 1, p);
    }
  }

  // ---------------------------------------------------------------- the whole system

  /** `releasing` is the moment between the two releases of a generation; `released` counts the
      generations that have been released. */
  datatype System<A, B> = System(log: seq<RecordView>, hash: Module<A>, bits: Module<B>,
                                 generation: Option<Generation<A, B>>,
                                 releasing: bool, released: nat)

  datatype Step = Publish(payload: Payload, sequence: nat) | HashProcesses | BitsProcesses | Collects | ReleaseHash
      | ReleaseBits

  /** The decoder, the two folds and their starting values. */
  datatype Folds<!A, !B> = Folds(decode: Decoder, foldA: (A, RecordView) -> A, startA: A, foldB: (B, RecordView) -> B,
                                 startB: B)

  predicate Enabled<A, B>(s: System<A, B>, step: Step) {
    match step
    case Publish(_, _) => true
    case HashProcesses => s.hash.state.processedEnd < |s.log|
    case BitsProcesses => s.bits.state.processedEnd < |s.log|
    case Collects => true
    case ReleaseHash => s.generation.Some? && !s.releasing
    case ReleaseBits => s.generation.Some? && s.releasing
  }

  function Do<A, B>(f: Folds<A, B>, s: System<A, B>, step: Step): System<A, B>
    requires Enabled(s, step)
  {
    match step
    case Publish(payload, sequence) => s.(log := s.log + [RecordView(|s.log|, sequence, payload)])
    case HashProcesses => s.(hash := Process(f.decode, f.foldA, s.hash, s.log[s.hash.state.processedEnd]).1)
    case BitsProcesses => s.(bits := Process(f.decode, f.foldB, s.bits, s.log[s.bits.state.processedEnd]).1)
    case Collects =>
      if CollectStatusOf(s.generation, s.hash, s.bits) != Complete then s
      else s.(generation := Some(Generation(s.hash.capture.value, s.bits.capture.value)))
    case ReleaseHash =>
      var g := s.generation.value;
      s.(hash := Release(s.hash, g.hash.generation, g.hash.processedEnd).1, releasing := true)
    case ReleaseBits =>
      var g := s.generation.value;
      s.(bits := Release(s.bits, g.bits.generation, g.bits.processedEnd).1, generation := None, releasing := false,
          released := s.released + 1)
  }

  /** A generation is the two states after the same prefix of the log, up to and with a save. */
  ghost predicate GenerationOf<A, B>(f: Folds<A, B>, log: seq<RecordView>, g: Generation<A, B>) {
    var p := g.hash.position;
    p < |log| && IsSave(f.decode, log[p])
    && g.hash == CaptureAt(f.decode, f.foldA, f.startA, log, p)
    && g.bits == CaptureAt(f.decode, f.foldB, f.startB, log, p)
  }

  ghost predicate HashInv<A, B>(f: Folds<A, B>, s: System<A, B>) {
    ModuleInv(f.decode, f.foldA, f.startA, s.log, s.released + (if s.releasing then 1 else 0), s.hash)
  }

  ghost predicate BitsInv<A, B>(f: Folds<A, B>, s: System<A, B>) {
    ModuleInv(f.decode, f.foldB, f.startB, s.log, s.released, s.bits)
  }

  ghost predicate GenerationInv<A, B>(f: Folds<A, B>, s: System<A, B>) {
    match s.generation
    case None => !s.releasing
    case Some(g) =>
      && GenerationOf(f, s.log, g) && s.bits.capture == Some(g.bits)
      && (!s.releasing ==> s.hash.capture == Some(g.hash))
  }

  ghost predicate Inv<A, B>(f: Folds<A, B>, s: System<A, B>) {
    LogOk(s.log) && HashInv(f, s) && BitsInv(f, s) && GenerationInv(f, s)
  }

  /** A collection never finds the two captures to differ; what it takes is a generation. */
  lemma NeverMismatch<A, B>(f: Folds<A, B>, s: System<A, B>)
    requires Inv(f, s)
    ensures CollectStatusOf(s.generation, s.hash, s.bits) != Mismatch
    ensures CollectStatusOf(s.generation, s.hash, s.bits) == Complete ==>
      GenerationOf(f, s.log, Generation(s.hash.capture.value, s.bits.capture.value))
  {
    hide FoldAll, Saves, LogOk;
    if s.generation == None && s.hash.capture.Some? && s.bits.capture.Some? {
      SameSave(f.decode, f.foldA, f.startA, f.foldB, f.startB, s.log, s.released, s.hash, s.bits);
    }
  }

  /** A release of the held generation always finds both captures. */
  lemma ReleaseSucceeds<A, B>(f: Folds<A, B>, s: System<A, B>)
    requires Inv(f, s) && s.generation.Some?
    ensures var g := s.generation.value;
      && g.hash.generation == g.bits.generation && g.hash.processedEnd == g.bits.processedEnd
      && (!s.releasing ==> Release(s.hash, g.hash.generation, g.hash.processedEnd) == (true, s.hash.(capture := None)))
      && Release(s.bits, g.bits.generation, g.bits.processedEnd) == (true, s.bits.(capture := None))
  {
    hide FoldAll, Saves, LogOk, HashInv, BitsInv;
  }

  lemma PublishStepKeeps<A, B>(f: Folds<A, B>, s: System<A, B>, step: Step)
    requires Inv(f, s) && step.Publish?
    ensures Inv(f, Do(f, s, step))
  {
    hide ModuleInv, FoldAll, Saves;
    var r := RecordView(|s.log|, step.sequence, step.payload);
    PublishKeeps(f.decode, f.foldA, f.startA, s.log, s.released + (if s.releasing then 1 else 0), s.hash, r);
    PublishKeeps(f.decode, f.foldB, f.startB, s.log, s.released, s.bits, r);
    if s.generation.Some? {
      var p := s.generation.value.hash.position;
      assert (s.log + [r])[..p + 1] == s.log[..p + 1];
    }
  }

  lemma ProcessStepKeeps<A, B>(f: Folds<A, B>, s: System<A, B>, step: Step)
    requires Inv(f, s) && Enabled(s, step) && (step.HashProcesses? || step.BitsProcesses?)
    ensures Inv(f, Do(f, s, step))
  {
    hide ModuleInv, LogOk, GenerationOf;
    if step.HashProcesses? {
      ProcessKeeps(f.decode, f.foldA, f.startA, s.log, s.released + (if s.releasing then 1 else 0), s.hash);
    } else {
      ProcessKeeps(f.decode, f.foldB, f.startB, s.log, s.released, s.bits);
    }
  }

  lemma StepKeeps<A, B>(f: Folds<A, B>, s: System<A, B>, step: Step)
    requires Inv(f, s) && Enabled(s, step)
    ensures Inv(f, Do(f, s, step))
  {
    hide ModuleInv, LogOk, GenerationOf, Process, Release, CollectStatusOf;
    match step
    case Publish(_, _) => PublishStepKeeps(f, s, step);
    case HashProcesses => ProcessStepKeeps(f, s, step);
    case BitsProcesses => ProcessStepKeeps(f, s, step);
    case Collects => CollectKeeps(f, s);
    case ReleaseHash =>
      ReleaseSucceeds(f, s);
      ReleaseKeeps(f.decode, f.foldA, f.startA, s.log, s.released, s.hash);
    case ReleaseBits =>
      ReleaseSucceeds(f, s);
      ReleaseKeeps(f.decode, f.foldB, f.startB, s.log, s.released, s.bits);
  }

  lemma CollectKeeps<A, B>(f: Folds<A, B>, s: System<A, B>)
    requires Inv(f, s)
    ensures Inv(f, Do(f, s, Collects))
  {
    hide ModuleInv, LogOk, GenerationOf;
    NeverMismatch(f, s);
  }

  // ---------------------------------------------------------------- every schedule

  ghost predicate Schedule<A(!new), B(!new)>(f: Folds<A, B>, s: System<A, B>, steps: seq<Step>)
    decreases |steps|
  {
    steps != [] ==> Enabled(s, steps[0]) && Schedule(f, Do(f, s, steps[0]), steps[1..])
  }

  ghost function Execute<A(!new), B(!new)>(f: Folds<A, B>, s: System<A, B>, steps: seq<Step>): System<A, B>
    requires Schedule(f, s, steps)
    decreases |steps|
  {
    if steps == [] then s else Execute(f, Do(f, s, steps[0]), steps[1..])
  }

  function Begin<A, B>(f: Folds<A, B>): System<A, B> {
    System([], Module(Folded(0, f.startA, false), None), Module(Folded(0, f.startB, false), None), None, false, 0)
  }

  /** Where a log stops being processed: at its first malformed record, or at its end. */
  ghost predicate Settled(decode: Decoder, log: seq<RecordView>, n: nat) {
    && n <= |log| && (forall p :: 0 <= p < n ==> !BadRecord(decode, log[p]))
    && (n < |log| ==> BadRecord(decode, log[n]))
  }

  /** A module that has folded the whole log or has failed has the one state that log leads to,
      flag included, whatever backpressure it met on the way. */
  lemma FinalState<F>(decode: Decoder, fold: (F, RecordView) -> F, start: F, log: seq<RecordView>, released: nat,
                      m: Module<F>, n: nat)
    requires ModuleInv(decode, fold, start, log, released, m) && Settled(decode, log, n)
    ensures m.state.processedEnd <= n
    ensures m.state.failed || m.state.processedEnd == |log| ==>
      m.state.processedEnd == n && m.state == StateAfter(fold, start, log, n).(failed := m.state.failed)
      && (m.state.failed <==> n < |log|)
  {
    hide FoldAll, Saves;
    assert RefusalInv(decode, log, m.state.processedEnd, m.state.failed);
  }

  /** For every schedule: no collection reports a mismatch; a held generation pairs the two states
      after the same prefix of the log; and a module that has folded everything, or has failed,
      holds the one state the log leads to, whatever backpressure it met on the way. */
  lemma {:induction false} RunIsSafe<A(!new), B(!new)>(f: Folds<A, B>, s: System<A, B>, steps: seq<Step>)
    requires Inv(f, s) && Schedule(f, s, steps)
    ensures var t := Execute(f, s, steps);
      && Inv(f, t) && CollectStatusOf(t.generation, t.hash, t.bits) != Mismatch
      && (t.generation.Some? ==> GenerationOf(f, t.log, t.generation.value))
      && (t.hash.state.processedEnd == |t.log| ==>
          t.hash.state == Folded(|t.log|, FoldAll(f.foldA, f.startA, t.log), false))
      && (t.bits.state.processedEnd == |t.log| ==>
          t.bits.state == Folded(|t.log|, FoldAll(f.foldB, f.startB, t.log), false))
      && forall n: nat :: Settled(f.decode, t.log, n) ==>
           && (t.hash.state.failed ==>
               n < |t.log| && t.hash.state == StateAfter(f.foldA, f.startA, t.log, n).(failed := true))
           && (t.bits.state.failed ==>
               n < |t.log| && t.bits.state == StateAfter(f.foldB, f.startB, t.log, n).(failed := true))
    decreases |steps|
  {
    hide Enabled, Do, Saves, FoldAll, GenerationOf, CollectStatusOf, LogOk;
    if steps == [] {
      NeverMismatch(f, s);
      assert s.log[..|s.log|] == s.log;
      forall n: nat | Settled(f.decode, s.log, n)
        ensures s.hash.state.failed ==>
          n < |s.log| && s.hash.state == StateAfter(f.foldA, f.startA, s.log, n).(failed := true)
        ensures s.bits.state.failed ==>
          n < |s.log| && s.bits.state == StateAfter(f.foldB, f.startB, s.log, n).(failed := true)
      {
        FinalState(f.decode, f.foldA, f.startA, s.log, s.released + (if s.releasing then 1 else 0), s.hash, n);
        FinalState(f.decode, f.foldB, f.startB, s.log, s.released, s.bits, n);
      }
    } else {
      StepKeeps(f, s, steps[0]);
      hide Inv;
      RunIsSafe(f, Do(f, s, steps[0]), steps[1..]);
    }
  }

  lemma BeginInv<A, B>(f: Folds<A, B>)
    ensures Inv(f, Begin(f))
  {
    var log := Begin(f).log;
    assert log[..0] == [];
  }
}
