/**
 The file commit protocol (`syseba_copy_file`, src/fs.c) against a writer that
 changes the source at any moment.  Every system call of the copier and every
 change by the writer is one step.  The writer is assumed to leave traces:
 whenever it changes the file, size and time together take a value they never
 had before.
 */
module CopyProtocol {

  type Name = string

  /** A file as it is at one instant. */
  datatype Version = Version(content: seq<bv8>, mtime: int)

  function Signature(v: Version): (nat, int) {
    (|v.content|, v.mtime)
  }

  /** The copier's descriptor: closed, on the file that the source path names, or on a
      file that the path named until it was replaced. */
  datatype Descriptor = Shut | Live | Detached(version: nat)

  /** Where the copier is.  `at` is the version its first `fstat` saw. */
  datatype Place =
    | Ready
    | Named(temp: Name)
    | Opened(temp: Name)
    | Statted(temp: Name, at: nat)
    | Copying(temp: Name, at: nat, pos: nat, buffer: seq<bv8>)
    | AtEnd(temp: Name, at: nat)
    | Checked(temp: Name, at: nat)
    | Replaced(temp: Name)
    | Cleaning(temp: Name)
    | Succeeded
    | Failed

  /** `versions` are all the states of the source so far, and of the file that the copier has open when that was
      replaced; `current` is the one the source path names, `named` are those it ever named; `folder` is the
      destination directory, `temps` the temporary names used. */
  datatype State = State(versions: seq<Version>, current: nat, named: set<nat>, fd: Descriptor,
                         folder: map<Name, Version>, dest: Name, attempt: nat, attempts: nat, place: Place,
                         temps: set<Name>)

  datatype Step =
    | WriteInPlace(v: Version)
    | ReplaceSource(v: Version)
    | WriteDetached(v: Version)
    | Begin(temp: Name)
    | Open
    | Stat
    | Create
    | Read(count: nat)
    | ReadEnd
    | Write(count: nat)
    | Restat
    | Rename
    | Flush
    | Trouble
    | Clean(removed: bool)
    | GiveUp

  const BUFFER_SIZE := 1024 * 1024

  /** The version the descriptor reads from. */
  function Seen(s: State): nat
    requires s.versions != []
  {
    if s.fd.Detached? then s.fd.version else s.current
  }

  predicate New(s: State, v: Version) {
    forall i :: 0 <= i < |s.versions| ==> Signature(s.versions[i]) != Signature(v)
  }

  predicate Sane(s: State) {
    && s.versions != [] && s.current < |s.versions| && Seen(s) < |s.versions|
    && match s.place
       case Statted(_, at) => at < |s.versions|
       case Copying(temp, at, _, _) => at < |s.versions| && temp in s.folder
       case AtEnd(temp, at) => at < |s.versions| && temp in s.folder
       case Checked(temp, at) => at < |s.versions| && temp in s.folder
       case _ => true
  }

  predicate Enabled(s: State, step: Step) {
    && Sane(s)
    && match step
       case WriteInPlace(v) => New(s, v)
       case ReplaceSource(v) => New(s, v)
       case WriteDetached(v) => New(s, v) && s.fd.Detached?
       case Begin(temp) => s.place == Ready && s.attempt < s.attempts && temp != s.dest
       case Open => s.place.Named?
       case Stat => s.place.Opened?
       case Create => s.place.Statted?
       case Read(n) =>
         && s.place.Copying? && s.place.buffer == [] && 0 < n <= BUFFER_SIZE
         && s.place.pos + n <= |s.versions[Seen(s)].content|
       case ReadEnd => s.place.Copying? && s.place.buffer == [] && s.place.pos >= |s.versions[Seen(s)].content|
       case Write(n) => s.place.Copying? && 0 < n <= |s.place.buffer|
       case Restat => s.place.AtEnd?
       case Rename => s.place.Checked?
       case Flush => s.place.Replaced?
       case Trouble =>
         !s.place.Ready? && !s.place.Cleaning? && !s.place.Succeeded? && !s.place.Failed?
       case Clean(_) => s.place.Cleaning?
       case GiveUp => s.place == Ready
  }

  /** The source path names a new version. */
  function Show(s: State, v: Version): State {
    s.(versions := s.versions + [v], current := |s.versions|, named := s.named + {|s.versions|})
  }

  function Next(s: State, step: Step): State
    requires Enabled(s, step)
  {
    match step
    case WriteInPlace(v) => Show(s, v)
    case ReplaceSource(v) => Show(s, v).(fd := if s.fd == Live then Detached(s.current) else s.fd)
    case WriteDetached(v) => s.(versions := s.versions + [v], fd := Detached(|s.versions|))
    case Begin(temp) => s.(place := Named(temp), temps := s.temps + {temp})
    case Open => s.(place := Opened(s.place.temp), fd := Live)
    case Stat => s.(place := Statted(s.place.temp, Seen(s)))
    case Create =>
      if s.place.temp in s.folder then s.(place := Cleaning(s.place.temp))
      else s.(place := Copying(s.place.temp, s.place.at, 0, []), folder := s.folder[s.place.temp := Version([], 0)])
    case Read(n) =>
      var pos := s.place.pos;
      s.(place := s.place.(pos := pos + n, buffer := s.versions[Seen(s)].content[pos..pos + n]))
    case ReadEnd => s.(place := AtEnd(s.place.temp, s.place.at))
    case Write(n) =>
      var file := s.folder[s.place.temp];
      s.(place := s.place.(buffer := s.place.buffer[n..]),
         folder := s.folder[s.place.temp := file.(content := file.content + s.place.buffer[..n])])
    case Restat =>
      var file, first := s.folder[s.place.temp], s.versions[s.place.at];
      if Signature(s.versions[Seen(s)]) == Signature(first) && |file.content| == |first.content| then
        s.(place := Checked(s.place.temp, s.place.at),
           folder := s.folder[s.place.temp := file.(mtime := first.mtime)])
      else s.(place := Cleaning(s.place.temp))
    case Rename =>
      s.(place := Replaced(s.place.temp),
         folder := (s.folder - {s.place.temp})[s.dest := s.folder[s.place.temp]])
    case Flush => s.(place := Succeeded, fd := Shut)
    case Trouble => s.(place := Cleaning(s.place.temp))
    case Clean(removed) =>
      s.(place := if s.attempt + 1 < s.attempts then Ready else Failed, fd := Shut, attempt := s.attempt + 1,
         folder := if removed then s.folder - {s.place.temp} else s.folder)
    case GiveUp => s.(place := Failed)
  }

  predicate Initial(s: State) {
    && s.versions != [] && s.current == |s.versions| - 1 && s.current in s.named
    && (forall i :: i in s.named ==> i < |s.versions|)
    && s.fd == Shut && s.attempt == 0 < s.attempts && s.place == Ready && s.temps == {}
    && forall i, j :: 0 <= i < j < |s.versions| ==> Signature(s.versions[i]) != Signature(s.versions[j])
  }

  /** The steps can be taken one after the other, from `s`. */
  predicate Runs(s: State, steps: seq<Step>)
    decreases |steps|
  {
    steps == [] || (Enabled(s, steps[0]) && Runs(Next(s, steps[0]), steps[1..]))
  }

  function After(s: State, steps: seq<Step>): State
    requires Runs(s, steps)
    decreases |steps|
  {
    if steps == [] then s else After(Next(s, steps[0]), steps[1..])
  }

  // ---------------------------------------------------------------------------
  // What every step keeps
  // ---------------------------------------------------------------------------

  /** Some state that the source, or the file open as the source, had since `start`. */
  ghost predicate Complete(s: State, start: nat, v: Version) {
    exists i :: start <= i < |s.versions| && s.versions[i] == v
  }

  ghost predicate SameEntry(f: map<Name, Version>, g: map<Name, Version>, n: Name) {
    (n in f <==> n in g) && (n in f ==> f[n] == g[n])
  }

  /** The destination is as before the call, or a complete version of the source. */
  ghost predicate OldOrComplete(s0: State, s: State)
    requires s0.versions != []
  {
    || SameEntry(s0.folder, s.folder, s.dest)
    || (s.dest in s.folder && Complete(s, |s0.versions| - 1, s.folder[s.dest]))
  }

  /** What the place of the copier says about the temporary file. */
  ghost predicate PlaceInv(s: State, start: nat)
    requires Sane(s)
  {
    match s.place
    case Ready => true
    case Named(temp) => temp != s.dest
    case Opened(temp) => temp != s.dest && start <= Seen(s)
    case Statted(temp, at) => temp != s.dest && start <= at <= Seen(s)
    case Copying(temp, at, pos, buffer) =>
      && temp != s.dest && start <= at <= Seen(s)
      && (Seen(s) == at ==>
            pos <= |s.versions[at].content| && s.folder[temp].content + buffer == s.versions[at].content[..pos])
    case AtEnd(temp, at) =>
      && temp != s.dest && start <= at <= Seen(s)
      && (Seen(s) == at ==> s.folder[temp].content == s.versions[at].content)
    case Checked(temp, at) => temp != s.dest && start <= at && s.folder[temp] == s.versions[at]
    case Replaced(temp) => temp != s.dest && s.dest in s.folder && Complete(s, start, s.folder[s.dest])
    case Cleaning(temp) => temp != s.dest
    case Succeeded => s.dest in s.folder && Complete(s, start, s.folder[s.dest])
    case Failed => true
  }

  ghost predicate Inv(s0: State, s: State) {
    && Sane(s) && s0.versions != [] && s.dest == s0.dest && s0.versions <= s.versions
    && |s0.versions| - 1 <= s.current
    && (forall i, j :: 0 <= i < j < |s.versions| ==> Signature(s.versions[i]) != Signature(s.versions[j]))
    && PlaceInv(s, |s0.versions| - 1)
    && OldOrComplete(s0, s)
  }

  lemma InitialInv(s: State)
    requires Initial(s)
    ensures Inv(s, s)
  {
  }

  lemma CompleteGrows(s: State, t: State, start: nat, v: Version)
    requires s.versions <= t.versions && Complete(s, start, v)
    ensures Complete(t, start, v)
  {
    var i :| start <= i < |s.versions| && s.versions[i] == v;
    assert t.versions[i] == v;
  }

  /** The writer moves away from the version that was seen first, and never back. */
  lemma WriterInv(s0: State, s: State, step: Step)
    requires Inv(s0, s) && Enabled(s, step) && (step.WriteInPlace? || step.ReplaceSource? || step.WriteDetached?)
    ensures Inv(s0, Next(s, step))
  {
    var t, start := Next(s, step), |s0.versions| - 1;
    assert t.versions == s.versions + [step.v];
    assert forall i :: 0 <= i < |s.versions| ==> t.versions[i] == s.versions[i];
    if s.dest in s.folder && Complete(s, start, s.folder[s.dest]) {
      CompleteGrows(s, t, start, s.folder[s.dest]);
    }
  }

  lemma ReadInv(s0: State, s: State, n: nat)
    requires Inv(s0, s) && Enabled(s, Read(n))
    ensures Inv(s0, Next(s, Read(n)))
  {
    var c, pos := s.versions[Seen(s)].content, s.place.pos;
    assert c[..pos] + c[pos..pos + n] == c[..pos + n];
  }

  lemma WriteInv(s0: State, s: State, n: nat)
    requires Inv(s0, s) && Enabled(s, Write(n))
    ensures Inv(s0, Next(s, Write(n)))
  {
    var done, buffer := s.folder[s.place.temp].content, s.place.buffer;
    assert (done + buffer[..n]) + buffer[n..] == done + buffer;
  }

  /** An unchanged signature means an unchanged file, so that the copy is whole. */
  lemma RestatInv(s0: State, s: State)
    requires Inv(s0, s) && Enabled(s, Restat)
    ensures Inv(s0, Next(s, Restat))
  {
    if Signature(s.versions[Seen(s)]) == Signature(s.versions[s.place.at]) {
      assert Seen(s) == s.place.at;
    }
  }

  lemma RenameInv(s0: State, s: State)
    requires Inv(s0, s) && Enabled(s, Rename)
    ensures Inv(s0, Next(s, Rename))
  {
    var t := Next(s, Rename);
    assert t.versions[s.place.at] == t.folder[t.dest];
  }

  lemma CreateInv(s0: State, s: State)
    requires Inv(s0, s) && Enabled(s, Create)
    ensures Inv(s0, Next(s, Create))
  {
  }

  lemma CleanInv(s0: State, s: State, removed: bool)
    requires Inv(s0, s) && Enabled(s, Clean(removed))
    ensures Inv(s0, Next(s, Clean(removed)))
  {
  }

  lemma StepInv(s0: State, s: State, step: Step)
    requires Inv(s0, s) && Enabled(s, step)
    ensures Inv(s0, Next(s, step))
  {
    match step
    case WriteInPlace(_) => WriterInv(s0, s, step);
    case ReplaceSource(_) => WriterInv(s0, s, step);
    case WriteDetached(_) => WriterInv(s0, s, step);
    case Read(n) => ReadInv(s0, s, n);
    case Write(n) => WriteInv(s0, s, n);
    case Restat => RestatInv(s0, s);
    case Rename => RenameInv(s0, s);
    case Create => CreateInv(s0, s);
    case Clean(removed) => CleanInv(s0, s, removed);
    case _ =>
  }

  lemma {:induction false} RunInv(s0: State, s: State, steps: seq<Step>)
    requires Inv(s0, s) && Runs(s, steps)
    ensures Inv(s0, After(s, steps))
    decreases |steps|
  {
    if steps != [] {
      StepInv(s0, s, steps[0]);
      RunInv(s0, Next(s, steps[0]), steps[1..]);
    }
  }

  // ---------------------------------------------------------------------------
  // The theorems
  // ---------------------------------------------------------------------------

  /** No partial file is ever visible: under every interleaving, across all chunks and retries, the
      destination is what it was or a complete version of the source. */
  lemma NeverPartial(s: State, steps: seq<Step>)
    requires Initial(s) && Runs(s, steps)
    ensures OldOrComplete(s, After(s, steps))
  {
    InitialInv(s);
    RunInv(s, s, steps);
  }

  /** Success means that the destination is, in content, size and time, a version that the file opened as the source
      had during the call. */
  lemma SuccessIsComplete(s: State, steps: seq<Step>)
    requires Initial(s) && Runs(s, steps) && After(s, steps).place == Succeeded
    ensures var t := After(s, steps); s.dest in t.folder && Complete(t, |s.versions| - 1, t.folder[s.dest])
  {
    InitialInv(s);
    RunInv(s, s, steps);
  }

  /** Over a standing source the copy equals the source. */
  lemma QuietCopyIsExact(s: State, steps: seq<Step>)
    requires Initial(s) && Runs(s, steps) && After(s, steps).place == Succeeded
    requires After(s, steps).versions == s.versions
    ensures s.dest in After(s, steps).folder
    ensures After(s, steps).folder[s.dest] == s.versions[|s.versions| - 1]
  {
    SuccessIsComplete(s, steps);
  }

  // ---------------------------------------------------------------------------
  // Copies that succeed
  // ---------------------------------------------------------------------------

  /** A step in which nobody writes to the source, nothing goes wrong and nobody gives up; temporary names are new. */
  predicate QuietStep(s: State, step: Step) {
    && !step.WriteInPlace? && !step.ReplaceSource? && !step.WriteDetached? && !step.Trouble? && !step.GiveUp?
    && (step.Begin? ==> step.temp !in s.folder)
  }

  predicate QuietRun(s: State, steps: seq<Step>)
    requires Runs(s, steps)
    decreases |steps|
  {
    steps == [] || (QuietStep(s, steps[0]) && QuietRun(Next(s, steps[0]), steps[1..]))
  }

  /** The copier is on its way to a complete copy of the current version. */
  ghost predicate OnTrack(s: State) {
    && Sane(s)
    && var v := s.versions[s.current];
       match s.place
       case Ready => true
       case Named(temp) => temp !in s.folder && temp != s.dest
       case Opened(temp) => temp !in s.folder && temp != s.dest && s.fd == Live
       case Statted(temp, at) => temp !in s.folder && temp != s.dest && s.fd == Live && at == s.current
       case Copying(temp, at, pos, buffer) =>
         && temp != s.dest && s.fd == Live && at == s.current && pos <= |v.content|
         && s.folder[temp].content + buffer == v.content[..pos]
       case AtEnd(temp, at) =>
         temp != s.dest && s.fd == Live && at == s.current && s.folder[temp].content == v.content
       case Checked(temp, at) => temp != s.dest && at == s.current && s.folder[temp] == v
       case Replaced(_) => s.dest in s.folder && s.folder[s.dest] == v
       case Succeeded => s.dest in s.folder && s.folder[s.dest] == v
       case _ => false
  }

  lemma StaysOnTrack(s: State, step: Step)
    requires OnTrack(s) && Enabled(s, step) && QuietStep(s, step)
    ensures OnTrack(Next(s, step)) && Next(s, step).versions == s.versions && Next(s, step).current == s.current
  {
    match step
    case Read(n) =>
      var c, pos := s.versions[s.current].content, s.place.pos;
      assert c[..pos] + c[pos..pos + n] == c[..pos + n];
    case Write(n) =>
      var done, buffer := s.folder[s.place.temp].content, s.place.buffer;
      assert (done + buffer[..n]) + buffer[n..] == done + buffer;
    case ReadEnd =>
      var c := s.versions[s.current].content;
      assert c[..|c|] == c && s.folder[s.place.temp].content + [] == s.folder[s.place.temp].content;
    case _ =>
  }

  /** A quiet run never has to clean up and never fails, and when it succeeds the copy is the source. */
  lemma {:induction false} QuietRunNeverFails(s: State, steps: seq<Step>)
    requires OnTrack(s) && Runs(s, steps) && QuietRun(s, steps)
    ensures var t := After(s, steps);
            && OnTrack(t) && !t.place.Cleaning? && t.place != Failed
            && t.versions == s.versions && t.current == s.current
            && (t.place == Succeeded ==> t.dest in t.folder && t.folder[t.dest] == s.versions[s.current])
    decreases |steps|
  {
    if steps != [] {
      StaysOnTrack(s, steps[0]);
      QuietRunNeverFails(Next(s, steps[0]), steps[1..]);
    }
  }

  // ---------------------------------------------------------------------------
  // Temporary files
  // ---------------------------------------------------------------------------

  /** The temporary name of the attempt under way. */
  function InUse(s: State): set<Name> {
    if s.place.Ready? || s.place.Succeeded? || s.place.Failed? || s.place.Replaced? then {} else {s.place.temp}
  }

  /** Besides what was there, the directory has the destination and the temporary file in use. */
  ghost predicate NoOtherTemp(s0: State, s: State) {
    s.dest == s0.dest && forall n :: n in s.folder ==> n in s0.folder || n == s0.dest || n in InUse(s)
  }

  /** Whatever happens, if every clean-up removes its file, no temporary file is left when the call ends. */
  lemma {:induction false} NoTempLeft(s0: State, s: State, steps: seq<Step>)
    requires NoOtherTemp(s0, s) && Runs(s, steps) && forall k :: 0 <= k < |steps| ==> steps[k] != Clean(false)
    ensures NoOtherTemp(s0, After(s, steps))
    decreases |steps|
  {
    if steps != [] {
      assert forall k :: 0 <= k < |steps| - 1 ==> steps[1..][k] == steps[k + 1];
      assert steps[0] != Clean(false);
      NoTempLeft(s0, Next(s, steps[0]), steps[1..]);
    }
  }

  lemma {:induction false} QuietLeavesNoTemp(s0: State, s: State, steps: seq<Step>)
    requires NoOtherTemp(s0, s) && OnTrack(s) && Runs(s, steps) && QuietRun(s, steps)
    ensures NoOtherTemp(s0, After(s, steps))
    decreases |steps|
  {
    if steps != [] {
      StaysOnTrack(s, steps[0]);
      QuietLeavesNoTemp(s0, Next(s, steps[0]), steps[1..]);
    }
  }

  /** The steps are a quiet run from one state to another. */
  ghost predicate Leads(s: State, steps: seq<Step>, t: State) {
    Runs(s, steps) && QuietRun(s, steps) && After(s, steps) == t
  }

  lemma StepFirst(s: State, step: Step, steps: seq<Step>, t: State)
    requires Enabled(s, step) && QuietStep(s, step) && Leads(Next(s, step), steps, t)
    ensures Leads(s, [step] + steps, t)
  {
    assert ([step] + steps)[1..] == steps;
  }

  /** The loop over the chunks gets to the end of every content. */
  lemma {:induction false} ReadsToTheEnd(s: State) returns (steps: seq<Step>, t: State)
    requires OnTrack(s) && s.place.Copying? && s.place.buffer == []
    ensures Leads(s, steps, t) && OnTrack(t) && t.place.AtEnd? && t.versions == s.versions && t.current == s.current
    ensures t.dest == s.dest
    decreases |s.versions[s.current].content| - s.place.pos
  {
    var left := |s.versions[s.current].content| - s.place.pos;
    if left == 0 {
      t := Next(s, ReadEnd);
      StaysOnTrack(s, ReadEnd);
      StepFirst(s, ReadEnd, [], t);
      steps := [ReadEnd] + [];
    } else {
      var n := if left < BUFFER_SIZE then left else BUFFER_SIZE;
      var s1 := Next(s, Read(n));
      StaysOnTrack(s, Read(n));
      var s2 := Next(s1, Write(n));
      StaysOnTrack(s1, Write(n));
      var rest;
      rest, t := ReadsToTheEnd(s2);
      StepFirst(s1, Write(n), rest, t);
      StepFirst(s, Read(n), [Write(n)] + rest, t);
      steps := [Read(n)] + ([Write(n)] + rest);
    }
  }

  lemma Commits(s: State) returns (steps: seq<Step>, t: State)
    requires OnTrack(s) && s.place.AtEnd?
    ensures Leads(s, steps, t) && t.place == Succeeded && t.dest == s.dest
  {
    var s1 := Next(s, Restat);
    StaysOnTrack(s, Restat);
    var s2 := Next(s1, Rename);
    StaysOnTrack(s1, Rename);
    t := Next(s2, Flush);
    StepFirst(s2, Flush, [], t);
    StepFirst(s1, Rename, [Flush] + [], t);
    StepFirst(s, Restat, [Rename] + ([Flush] + []), t);
    steps := [Restat] + ([Rename] + ([Flush] + []));
  }

  lemma {:induction false} LeadsOn(s: State, first: seq<Step>, m: State, second: seq<Step>, t: State)
    requires Leads(s, first, m) && Leads(m, second, t)
    ensures Leads(s, first + second, t)
    decreases |first|
  {
    if first == [] {
      assert first + second == second;
    } else {
      LeadsOn(Next(s, first[0]), first[1..], m, second, t);
      StepFirst(s, first[0], first[1..] + second, t);
      assert first + second == [first[0]] + (first[1..] + second);
    }
  }

  /** Whenever an attempt is left, for every content and every unused temporary name, a quiet run copies the source. */
  lemma CopySucceeds(s: State, temp: Name) returns (steps: seq<Step>)
    requires Sane(s) && s.place == Ready && s.attempt < s.attempts && temp !in s.folder && temp != s.dest
    ensures Runs(s, steps) && QuietRun(s, steps) && After(s, steps).place == Succeeded
    ensures After(s, steps).dest == s.dest && s.dest in After(s, steps).folder
    ensures After(s, steps).folder[s.dest] == s.versions[s.current]
    ensures forall n :: n in After(s, steps).folder ==> n in s.folder || n == s.dest
  {
    var s1 := Next(s, Begin(temp));
    var s2 := Next(s1, Open);
    var s3 := Next(s2, Stat);
    var s4 := Next(s3, Create);
    var reading, m := ReadsToTheEnd(s4);
    var committing, t := Commits(m);
    LeadsOn(s4, reading, m, committing, t);
    StepFirst(s3, Create, reading + committing, t);
    StepFirst(s2, Stat, [Create] + (reading + committing), t);
    StepFirst(s1, Open, [Stat] + ([Create] + (reading + committing)), t);
    steps := [Begin(temp)] + ([Open] + ([Stat] + ([Create] + (reading + committing))));
    StepFirst(s, Begin(temp), [Open] + ([Stat] + ([Create] + (reading + committing))), t);
    QuietRunNeverFails(s, steps);
    QuietLeavesNoTemp(s, s, steps);
  }

  // ---------------------------------------------------------------------------
  // Retries
  // ---------------------------------------------------------------------------

  /** How many attempts ended in a clean-up. */
  function Cleanups(steps: seq<Step>): nat {
    if steps == [] then 0 else (if steps[0].Clean? then 1 else 0) + Cleanups(steps[1..])
  }

  predicate NoGiveUp(steps: seq<Step>) {
    forall k :: 0 <= k < |steps| ==> steps[k] != GiveUp
  }

  /** A state of which the attempts are counted right. */
  predicate Counted(s: State) {
    if s.place == Failed then s.attempt == s.attempts else s.attempt < s.attempts
  }

  lemma {:induction false} TriesAreCounted(s: State, steps: seq<Step>)
    requires Counted(s) && Runs(s, steps) && NoGiveUp(steps)
    ensures var t := After(s, steps);
            Counted(t) && t.attempt == s.attempt + Cleanups(steps) && t.attempts == s.attempts
    decreases |steps|
  {
    if steps != [] {
      assert NoGiveUp(steps[1..]) by {
        assert forall k :: 0 <= k < |steps| - 1 ==> steps[1..][k] == steps[k + 1];
      }
      assert steps[0] != GiveUp;
      TriesAreCounted(Next(s, steps[0]), steps[1..]);
    }
  }

  /** The call fails only after all its attempts ended in a clean-up, unless it gives up. */
  lemma FailsOnlyAfterAll(s: State, steps: seq<Step>)
    requires Initial(s) && Runs(s, steps) && NoGiveUp(steps)
    ensures After(s, steps).place == Failed <==> Cleanups(steps) == s.attempts
  {
    TriesAreCounted(s, steps);
  }

  /** However many attempts were troubled, as long as one is left the copy can still succeed. */
  lemma RetrySucceeds(s: State, steps: seq<Step>, temp: Name) returns (more: seq<Step>)
    requires Initial(s) && Runs(s, steps) && NoGiveUp(steps)
    requires After(s, steps).place.Cleaning? || After(s, steps).place == Ready
    requires Cleanups(steps) + (if After(s, steps).place.Cleaning? then 1 else 0) < s.attempts
    requires temp !in After(s, steps).folder && temp != s.dest
    ensures var m := After(s, steps);
            && Runs(m, more) && After(m, more).place == Succeeded && s.dest in After(m, more).folder
            && After(m, more).folder[s.dest] == m.versions[m.current]
  {
    var m := After(s, steps);
    InitialInv(s);
    RunInv(s, s, steps);
    TriesAreCounted(s, steps);
    if m.place == Ready {
      more := CopySucceeds(m, temp);
    } else {
      var n := Next(m, Clean(true));
      var rest := CopySucceeds(n, temp);
      OneStep(m, Clean(true), rest, After(n, rest));
      more := [Clean(true)] + rest;
    }
  }

  // ---------------------------------------------------------------------------
  // Versions that the source path named
  // ---------------------------------------------------------------------------

  /** The writer does not write to a file that was replaced after the copier opened it and before it looked at it. */
  predicate Careful(s: State, steps: seq<Step>)
    requires Runs(s, steps)
    decreases |steps|
  {
    steps == [] || (!(steps[0].WriteDetached? && s.place.Opened?) && Careful(Next(s, steps[0]), steps[1..]))
  }

  ghost predicate NamedComplete(s: State, start: nat, v: Version) {
    exists i :: start <= i < |s.versions| && i in s.named && s.versions[i] == v
  }

  /** What is being copied was named by the source path. */
  ghost predicate NamedInv(s: State, start: nat)
    requires Sane(s)
  {
    && s.current in s.named
    && match s.place
       case Opened(_) => Seen(s) in s.named
       case Statted(_, at) => at in s.named
       case Copying(_, at, _, _) => at in s.named
       case AtEnd(_, at) => at in s.named
       case Checked(_, at) => at in s.named
       case Replaced(_) => s.dest in s.folder && NamedComplete(s, start, s.folder[s.dest])
       case Succeeded => s.dest in s.folder && NamedComplete(s, start, s.folder[s.dest])
       case _ => true
  }

  lemma NamedGrows(s: State, t: State, start: nat, v: Version)
    requires s.versions <= t.versions && s.named <= t.named && NamedComplete(s, start, v)
    ensures NamedComplete(t, start, v)
  {
    var i :| start <= i < |s.versions| && i in s.named && s.versions[i] == v;
    assert t.versions[i] == v;
  }

  lemma NamedStep(s0: State, s: State, step: Step)
    requires Inv(s0, s) && NamedInv(s, |s0.versions| - 1) && Enabled(s, step)
    requires !(step.WriteDetached? && s.place.Opened?) && Sane(Next(s, step))
    ensures NamedInv(Next(s, step), |s0.versions| - 1)
  {
    var t, start := Next(s, step), |s0.versions| - 1;
    if step.Rename? {
      assert t.versions[s.place.at] == t.folder[t.dest];
    } else if s.place.Replaced? || s.place.Succeeded? {
      NamedGrows(s, t, start, s.folder[s.dest]);
    }
  }

  lemma {:induction false} NamedRun(s0: State, s: State, steps: seq<Step>)
    requires Inv(s0, s) && NamedInv(s, |s0.versions| - 1) && Runs(s, steps) && Careful(s, steps)
    ensures Inv(s0, After(s, steps)) && NamedInv(After(s, steps), |s0.versions| - 1)
    decreases |steps|
  {
    if steps != [] {
      StepInv(s0, s, steps[0]);
      NamedStep(s0, s, steps[0]);
      NamedRun(s0, Next(s, steps[0]), steps[1..]);
    }
  }

  /** With such a writer a successful copy is a version that the source path named during the call. */
  lemma SuccessWasNamed(s: State, steps: seq<Step>)
    requires Initial(s) && Runs(s, steps) && Careful(s, steps) && After(s, steps).place == Succeeded
    ensures var t := After(s, steps); s.dest in t.folder && NamedComplete(t, |s.versions| - 1, t.folder[s.dest])
  {
    InitialInv(s);
    NamedRun(s, s, steps);
  }

  // ---------------------------------------------------------------------------
  // The other names in the directory
  // ---------------------------------------------------------------------------

  lemma {:induction false} OthersUntouched(s: State, steps: seq<Step>, n: Name)
    requires Runs(s, steps) && PlaceNamed(s)
    ensures PlaceNamed(After(s, steps)) && s.temps <= After(s, steps).temps && After(s, steps).dest == s.dest
    ensures n != s.dest && n !in After(s, steps).temps ==> SameEntry(s.folder, After(s, steps).folder, n)
    decreases |steps|
  {
    if steps != [] {
      OthersUntouched(Next(s, steps[0]), steps[1..], n);
    }
  }

  /** The temporary name in use is among the ones recorded. */
  ghost predicate PlaceNamed(s: State) {
    !s.place.Ready? && !s.place.Succeeded? && !s.place.Failed? ==> s.place.temp in s.temps
  }

  /** The call leaves every other file of the directory alone, provided the temporary names it makes up
      are not in use. */
  lemma OtherFilesSafe(s: State, steps: seq<Step>, n: Name)
    requires Initial(s) && Runs(s, steps) && n in s.folder && n != s.dest
    requires forall temp :: temp in After(s, steps).temps ==> temp !in s.folder
    ensures n in After(s, steps).folder && After(s, steps).folder[n] == s.folder[n]
  {
    OthersUntouched(s, steps, n);
  }

  lemma OneStep(s: State, step: Step, rest: seq<Step>, last: State)
    requires Enabled(s, step) && Runs(Next(s, step), rest) && After(Next(s, step), rest) == last
    ensures Runs(s, [step] + rest) && After(s, [step] + rest) == last
  {
    assert ([step] + rest)[1..] == rest;
  }

  /** The proviso is needed: a file that happens to have the temporary name is deleted, because the
      clean-up after a failed exclusive creation removes the name it could not create. */
  lemma TempNameInUseIsDeleted(s: State, temp: Name) returns (steps: seq<Step>)
    requires Initial(s) && temp in s.folder && temp != s.dest
    ensures Runs(s, steps) && After(s, steps).temps == {temp} && temp !in After(s, steps).folder
  {
    var s1 := Next(s, Begin(temp));
    var s2 := Next(s1, Open);
    var rest, last := CreateFails(s2, temp);
    OneStep(s1, Open, rest, last);
    steps := [Begin(temp)] + ([Open] + rest);
    OneStep(s, Begin(temp), [Open] + rest, last);
  }

  lemma CreateFails(s: State, temp: Name) returns (steps: seq<Step>, last: State)
    requires Sane(s) && s.place == Opened(temp) && temp in s.folder
    ensures Runs(s, steps) && After(s, steps) == last && last.temps == s.temps && temp !in last.folder
  {
    var s1 := Next(s, Stat);
    var s2 := Next(s1, Create);
    last := Next(s2, Clean(true));
    OneStep(s2, Clean(true), [], last);
    OneStep(s1, Create, [Clean(true)] + [], last);
    steps := [Stat] + ([Create] + ([Clean(true)] + []));
    OneStep(s, Stat, [Create] + ([Clean(true)] + []), last);
  }

  /** A file that is replaced after it was opened, and written to before it is looked at, is copied in a state that the
      source path never named. */
  lemma DetachedCopy(s: State, temp: Name, v: Version, w: Version) returns (steps: seq<Step>)
    requires Initial(s) && temp !in s.folder && temp != s.dest && w.content == []
    requires New(s, v) && New(s, w) && Signature(v) != Signature(w)
    ensures Runs(s, steps) && After(s, steps).place == Succeeded
    ensures s.dest in After(s, steps).folder && After(s, steps).folder[s.dest] == w
    ensures forall i :: 0 <= i < |After(s, steps).versions| && After(s, steps).versions[i] == w ==>
              i !in After(s, steps).named
  {
    var s1 := Next(s, Begin(temp));
    var s2 := Next(s1, Open);
    var s3 := Next(s2, ReplaceSource(v));
    assert s3.versions == s.versions + [v];
    var s4 := Next(s3, WriteDetached(w));
    var copying, last := CopyEmpty(s4, temp, w);
    OneStep(s3, WriteDetached(w), copying, last);
    OneStep(s2, ReplaceSource(v), [WriteDetached(w)] + copying, last);
    OneStep(s1, Open, [ReplaceSource(v)] + ([WriteDetached(w)] + copying), last);
    steps := [Begin(temp)] + ([Open] + ([ReplaceSource(v)] + ([WriteDetached(w)] + copying)));
    OneStep(s, Begin(temp), [Open] + ([ReplaceSource(v)] + ([WriteDetached(w)] + copying)), last);
  }

  /** An empty file that stands still is copied. */
  lemma CopyEmpty(s: State, temp: Name, w: Version) returns (steps: seq<Step>, last: State)
    requires Sane(s) && s.place == Opened(temp) && temp !in s.folder && temp != s.dest
    requires s.versions[Seen(s)] == w && w.content == []
    ensures Runs(s, steps) && After(s, steps) == last && last.place == Succeeded
    ensures s.dest in last.folder && last.folder[s.dest] == w
    ensures last.versions == s.versions && last.named == s.named
  {
    var s1 := Next(s, Stat);
    var s2 := Next(s1, Create);
    var s3 := Next(s2, ReadEnd);
    var rest;
    rest, last := CommitEmpty(s3, temp, w);
    OneStep(s2, ReadEnd, rest, last);
    OneStep(s1, Create, [ReadEnd] + rest, last);
    steps := [Stat] + ([Create] + ([ReadEnd] + rest));
    OneStep(s, Stat, [Create] + ([ReadEnd] + rest), last);
  }

  lemma CommitEmpty(s: State, temp: Name, w: Version) returns (steps: seq<Step>, last: State)
    requires Sane(s) && s.place == AtEnd(temp, Seen(s)) && s.folder[temp].content == [] && temp != s.dest
    requires s.versions[Seen(s)] == w && w.content == []
    ensures Runs(s, steps) && After(s, steps) == last && last.place == Succeeded
    ensures s.dest in last.folder && last.folder[s.dest] == w
    ensures last.versions == s.versions && last.named == s.named
  {
    var s1 := Next(s, Restat);
    var s2 := Next(s1, Rename);
    last := Next(s2, Flush);
    OneStep(s2, Flush, [], last);
    OneStep(s1, Rename, [Flush] + [], last);
    steps := [Restat] + ([Rename] + ([Flush] + []));
    OneStep(s, Restat, [Rename] + ([Flush] + []), last);
  }

  /** The file `n` is left alone by every run whose temporary names are among `names`. */
  ghost predicate AlwaysSafe(s: State, n: Name, names: set<Name>) {
    forall steps | Runs(s, steps) && After(s, steps).temps <= names :: SameEntry(s.folder, After(s, steps).folder, n)
  }

  /** Another file of the directory is safe if and only if its name is none that the copier may make up. */
  lemma OtherFilesSafeIff(s: State, n: Name, names: set<Name>)
    requires Initial(s) && n in s.folder && n != s.dest
    ensures AlwaysSafe(s, n, names) <==> n !in names
  {
    if n in names {
      var steps := TempNameInUseIsDeleted(s, n);
      assert Runs(s, steps) && After(s, steps).temps <= names;
      assert !SameEntry(s.folder, After(s, steps).folder, n);
    } else {
      forall steps | Runs(s, steps) && After(s, steps).temps <= names
        ensures SameEntry(s.folder, After(s, steps).folder, n)
      {
        OthersUntouched(s, steps, n);
      }
    }
  }

  /** Every successful copy is a version that the source path named, over all runs, or over those with a careful
      writer. */
  ghost predicate AlwaysNamed(s: State, careful: bool)
    requires s.versions != []
  {
    forall steps | Runs(s, steps) && After(s, steps).place == Succeeded && (careful ==> Careful(s, steps)) ::
      s.dest in After(s, steps).folder
      && NamedComplete(After(s, steps), |s.versions| - 1, After(s, steps).folder[s.dest])
  }

  /** That holds if and only if the writer is careful. */
  lemma AlwaysNamedIff(s: State, careful: bool, temp: Name, v: Version, w: Version)
    requires Initial(s) && temp !in s.folder && temp != s.dest && w.content == []
    requires New(s, v) && New(s, w) && Signature(v) != Signature(w)
    ensures AlwaysNamed(s, careful) <==> careful
  {
    if careful {
      forall steps | Runs(s, steps) && After(s, steps).place == Succeeded && Careful(s, steps)
        ensures s.dest in After(s, steps).folder
        ensures NamedComplete(After(s, steps), |s.versions| - 1, After(s, steps).folder[s.dest])
      {
        SuccessWasNamed(s, steps);
      }
    } else {
      var steps := DetachedCopy(s, temp, v, w);
      assert Runs(s, steps) && After(s, steps).place == Succeeded;
    }
  }
}
