/**
 Staging the scanner on a remote host: upload, execution and teardown as a step system in which the
 client, the shell that receives the upload and the shell that cleans up take steps in any order,
 any command may fail, and the client may give up at any moment.
 */
module Staging {
  import opened Wrappers
  import opened Text

  datatype File = File(data: string, exec: bool)

  /** What was put on the host: a directory of ours, or one file at the operator's path. */
  datatype Artifact =
    | OwnedDir(dir: string, bin: string)
    | UploadedFile(bin: string, part: string)

  datatype Cmd = RemoveTree(dir: string) | RemoveFile(path: string)

  function TeardownCmd(a: Artifact, replaced: bool): Cmd {
    match a
    case OwnedDir(dir, _) => RemoveTree(dir)
    case UploadedFile(bin, part) => if replaced then RemoveFile(bin) else RemoveFile(part)
  }

  function PartOf(a: Artifact): string {
    match a
    case OwnedDir(dir, _) => dir + "/.owlzops-upload.part"
    case UploadedFile(_, part) => part
  }

  /** The options of a run, the binary to upload and the remote files before it. */
  datatype Config = Config(copy: bool, keep: bool, path: Option<string>, binary: string, before: map<string, File>)

  /** `mktemp -d` is asked for a directory only if the operator gave no path. */
  function ArtifactFor(c: Config, made: string): Artifact {
    if c.path.Some? then UploadedFile(c.path.value, c.path.value + ".part")
    else OwnedDir(made, made + "/owlzops-mapper")
  }

  datatype Client = Starting | Staged | Uploading | Running | Closing | Ended

  /**
   The shell behind the upload channel: rm the part; open it anew; cat, with `written` bytes so
   far; chmod; mv. `Moved` is a completed mv, whether or not the exit status ever arrives.
   */
  datatype Shell =
    | Idle
    | Clearing
    | Opening
    | Filling(written: nat)
    | Marking(written: nat)
    | Moving(written: nat)
    | Moved(written: nat)
    | Failed

  datatype Cleaner = Off | Working(cmd: Cmd) | Done(cmd: Cmd) | GaveUp

  datatype State = State(
    cfg: Config, client: Client, artifact: Option<Artifact>, uploaded: bool, sent: nat, eof: bool,
    cut: bool,
    shell: Shell, cleaner: Cleaner, files: map<string, File>, removed: set<string>,
    executed: seq<Option<File>>)

  datatype Event =
    | Stage(made: string)
    | UseRemote
    | OpenUpload
    | Send
    | SendEof
    | ShellClears
    | ShellOpens
    | ShellWrites
    | ShellReadsEof
    | ShellMarks
    | ShellMoves
    | ShellFails
    | Status
    | Execute
    | Quit
    | Cut
    | CleanerUnlinks(path: string)
    | CleanerFinishes
    | CleanerFails
    | Confirm
    | Hangup

  function Start(c: Config): State {
    State(c, Starting, None, false, 0, false, false, Idle, Off, c.before, {}, [])
  }

  predicate Under(dir: string, path: string) { StartsWith(path, dir + "/") }

  ghost predicate NoneUnder(files: map<string, File>, dir: string) {
    forall p :: p in files ==> !Under(dir, p)
  }

  /** The client has left the scan. */
  predicate Left(s: State) { s.client.Closing? || s.client.Ended? }

  /**
   Nothing more can reach the upload channel, because the client has left or because the transport
   is gone while the client still waits: the remote `cat` sees the end of its input.
   */
  predicate Dropped(s: State) { s.cut || Left(s) }

  /** Leaving the scan, for whatever reason: keep the binary, or order the teardown if it can still be sent. */
  function Leave(s: State): State {
    if s.cut || s.artifact.None? || (s.cfg.keep && s.uploaded) then s.(client := Ended)
    else s.(client := Closing, cleaner := Working(TeardownCmd(s.artifact.value, s.uploaded)))
  }

  /** What has arrived of the binary after n bytes. */
  function Taken(binary: string, n: nat): string { if n < |binary| then binary[..n] else binary }

  function FileAt(files: map<string, File>, path: string): Option<File> {
    if path in files then Some(files[path]) else None
  }

  /** Where the scan executes: what it staged, or the operator's path. */
  function Target(s: State): string {
    if s.artifact.Some? then s.artifact.value.bin else if s.cfg.path.Some? then s.cfg.path.value else ""
  }

  /** One step of the client over a transport that works. */
  ghost function TalkStep(s: State, e: Event): Option<State> {
    if s.cut then None
    else match e
      case Stage(made) =>
        var a := ArtifactFor(s.cfg, made);
        if s.client.Starting? && s.cfg.copy && (a.OwnedDir? ==> NoneUnder(s.files, made)) then
          Some(s.(client := Staged, artifact := Some(a)))
        else None
      case UseRemote =>
        if s.client.Starting? && !s.cfg.copy && s.cfg.path.Some? then Some(s.(client := Running)) else None
      case OpenUpload =>
        if s.client.Staged? then Some(s.(client := Uploading, shell := Clearing)) else None
      case Send =>
        if s.client.Uploading? && s.sent < |s.cfg.binary| then Some(s.(sent := s.sent + 1)) else None
      case SendEof =>
        if s.client.Uploading? && s.sent == |s.cfg.binary| then Some(s.(eof := true)) else None
      case Status =>
        if !s.client.Uploading? then None
        else if s.shell.Moved? then Some(s.(client := Running, uploaded := true))
        else if s.shell.Failed? then Some(Leave(s))
        else None
      case Execute =>
        if s.client.Running? then Some(s.(executed := s.executed + [FileAt(s.files, Target(s))])) else None
      case _ => None
  }

  /**
   One step of the client, which can always leave and then waits for the teardown's status or gives up
   on it, or of the transport, which can fail at any time.
   */
  ghost function ClientStep(s: State, e: Event): Option<State> {
    match e
    case Quit => if Left(s) then None else Some(Leave(s))
    case Confirm => if s.client.Closing? && (s.cleaner.Done? || s.cleaner.GaveUp?) then Some(s.(client := Ended)) else None
    case Hangup => if s.client.Closing? then Some(s.(client := Ended)) else None
    case Cut => if s.cut then None else Some(s.(cut := true))
    case _ => TalkStep(s, e)
  }

  /** One step of the shell behind the upload. */
  ghost function ShellStep(s: State, e: Event): Option<State> {
    if s.artifact.None? then None
    else
      var bin, part := s.artifact.value.bin, PartOf(s.artifact.value);
      match e
      case ShellClears =>
        if s.shell.Clearing? then Some(s.(shell := Opening, files := s.files - {part})) else None
      case ShellOpens =>
        if s.shell.Opening? && part !in s.files && (forall d :: d in s.removed ==> !Under(d, part)) then
          Some(s.(shell := Filling(0), files := s.files[part := File("", false)]))
        else None
      case ShellWrites =>
        if s.shell.Filling? && s.shell.written < s.sent <= |s.cfg.binary| then
          var n := s.shell.written + 1;
          Some(s.(shell := Filling(n),
                  files := if part in s.files then s.files[part := File(Taken(s.cfg.binary, n), false)] else s.files))
        else None
      case ShellReadsEof =>
        if s.shell.Filling? && ((s.eof && s.shell.written == s.sent) || Dropped(s)) then
          Some(s.(shell := Marking(s.shell.written)))
        else None
      case ShellMarks =>
        if s.shell.Marking? && part in s.files then
          Some(s.(shell := Moving(s.shell.written), files := s.files[part := s.files[part].(exec := true)]))
        else None
      case ShellMoves =>
        if s.shell.Moving? && part in s.files then
          Some(s.(shell := Moved(s.shell.written), files := (s.files - {part})[bin := s.files[part]]))
        else None
      case ShellFails =>
        if s.shell.Idle? || s.shell.Moved? then None else Some(s.(shell := Failed))
      case _ => None
  }

  /** One step of the teardown command; a tree goes file by file, then the empty directory. */
  ghost function CleanerStep(s: State, e: Event): Option<State> {
    if !s.cleaner.Working? then None
    else match e
      case CleanerUnlinks(path) =>
        if s.cleaner.cmd.RemoveTree? && Under(s.cleaner.cmd.dir, path) then Some(s.(files := s.files - {path})) else None
      case CleanerFinishes =>
        match s.cleaner.cmd {
          case RemoveFile(path) => Some(s.(cleaner := Done(s.cleaner.cmd), files := s.files - {path}))
          case RemoveTree(dir) =>
            if NoneUnder(s.files, dir) then Some(s.(cleaner := Done(s.cleaner.cmd), removed := s.removed + {dir}))
            else None
        }
      case CleanerFails => Some(s.(cleaner := GaveUp))
      case _ => None
  }

  ghost function Step(s: State, e: Event): Option<State> {
    match e
    case CleanerUnlinks(_) => CleanerStep(s, e)
    case CleanerFinishes => CleanerStep(s, e)
    case CleanerFails => CleanerStep(s, e)
    case ShellClears => ShellStep(s, e)
    case ShellOpens => ShellStep(s, e)
    case ShellWrites => ShellStep(s, e)
    case ShellReadsEof => ShellStep(s, e)
    case ShellMarks => ShellStep(s, e)
    case ShellMoves => ShellStep(s, e)
    case ShellFails => ShellStep(s, e)
    case _ => ClientStep(s, e)
  }

  ghost function After(c: Config, run: seq<Event>): Option<State> {
    if run == [] then Some(Start(c))
    else match After(c, run[..|run| - 1])
      case None => None
      case Some(s) => Step(s, run[|run| - 1])
  }

  // ---- The invariant

  /** Files the run may touch. */
  predicate Ours(a: Artifact, path: string) {
    match a
    case OwnedDir(dir, _) => Under(dir, path)
    case UploadedFile(bin, part) => path == bin || path == part
  }

  predicate SameAt(m: map<string, File>, n: map<string, File>, path: string) {
    FileAt(m, path) == FileAt(n, path)
  }

  ghost predicate Shaped(c: Config, a: Artifact) {
    && (a.UploadedFile? <==> c.path.Some?)
    && (a.UploadedFile? ==> a.bin == c.path.value && a.part == a.bin + ".part")
    && (a.OwnedDir? ==> a.bin == a.dir + "/owlzops-mapper" && NoneUnder(c.before, a.dir))
  }

  lemma ArtifactPaths(c: Config, a: Artifact)
    requires Shaped(c, a)
    ensures PartOf(a) != a.bin && Ours(a, PartOf(a)) && Ours(a, a.bin)
  {
    if a.OwnedDir? {
      assert a.bin == (a.dir + "/") + "owlzops-mapper" && PartOf(a) == (a.dir + "/") + ".owlzops-upload.part";
      assert |a.bin| != |PartOf(a)|;
    }
  }

  /** How far the upload has come, and what the part then holds if its name is still there. */
  ghost predicate PartState(s: State, part: string) {
    match s.shell
    case Filling(n) => n <= s.sent && (part in s.files ==> s.files[part] == File(Taken(s.cfg.binary, n), false))
    case Marking(n) => Delivered(s, n) && (part in s.files ==> s.files[part] == File(Taken(s.cfg.binary, n), false))
    case Moving(n) => Delivered(s, n) && (part in s.files ==> s.files[part] == File(Taken(s.cfg.binary, n), true))
    case Moved(n) => Delivered(s, n) && part !in s.files
    case _ => true
  }

  /** A finished `cat` has the whole binary unless the channel was dropped. */
  predicate Delivered(s: State, n: nat) {
    n <= |s.cfg.binary| && (n == |s.cfg.binary| || Dropped(s))
  }

  /** Nothing changes the file at `bin` but the mv and, after it, the teardown. */
  ghost predicate BinState(s: State, bin: string) {
    if !s.shell.Moved? then SameAt(s.files, s.cfg.before, bin)
    else
      && (bin in s.files ==> s.files[bin] == File(Taken(s.cfg.binary, s.shell.written), true))
      && (s.cleaner.Off? ==> bin in s.files)
  }

  ghost predicate CleanerState(s: State, a: Artifact) {
    && (s.cleaner.Off? || (Left(s) && !(s.cfg.keep && s.uploaded)))
    && (s.cleaner.Working? || s.cleaner.Done? ==> s.cleaner.cmd == TeardownCmd(a, s.uploaded))
    && (s.cleaner.Done? && a.OwnedDir? ==> a.dir in s.removed)
    && (s.cleaner.Done? && a.UploadedFile? && s.uploaded ==> a.bin !in s.files)
  }

  ghost predicate StagedInv(s: State, a: Artifact) {
    && s.cfg.copy && Shaped(s.cfg, a) && !s.client.Starting?
    && (s.client.Staged? ==> s.shell.Idle?)
    && (forall p :: !Ours(a, p) ==> SameAt(s.files, s.cfg.before, p))
    && (forall d :: d in s.removed ==> a.OwnedDir? && d == a.dir && NoneUnder(s.files, d))
    && PartState(s, PartOf(a)) && BinState(s, a.bin) && CleanerState(s, a)
    && (a.UploadedFile? && s.shell.Moved? && !s.uploaded ==> a.bin in s.files)
  }

  ghost predicate Inv(s: State) {
    && s.sent <= |s.cfg.binary| && (s.eof ==> s.sent == |s.cfg.binary|)
    && (s.cfg.copy && (s.client.Running? || s.executed != []) ==> s.uploaded)
    && (s.uploaded ==> s.shell == Moved(|s.cfg.binary|))
    && (s.uploaded ==> s.client.Running? || Left(s))
    && (s.cfg.copy ==> forall k :: 0 <= k < |s.executed| ==> s.executed[k] == Some(File(s.cfg.binary, true)))
    && match s.artifact
       case None =>
         && s.files == s.cfg.before && s.removed == {} && s.shell.Idle? && s.cleaner.Off?
         && (s.client.Starting? || s.client.Ended? || (s.client.Running? && !s.cfg.copy))
       case Some(a) => StagedInv(s, a)
  }

  lemma ClientStepKeepsInv(s: State, e: Event)
    requires Inv(s) && ClientStep(s, e).Some?
    ensures Inv(ClientStep(s, e).value)
  {
    hide Inv, TalkStep;
    match e
    case Quit => LeaveKeepsInv(s);
    case Confirm => EndKeepsInv(s, e);
    case Hangup => EndKeepsInv(s, e);
    case Cut => CutKeepsInv(s);
    case _ => TalkKeepsInv(s, e);
  }

  lemma EndKeepsInv(s: State, e: Event)
    requires Inv(s) && (e.Confirm? || e.Hangup?) && ClientStep(s, e).Some?
    ensures Inv(ClientStep(s, e).value)
  {
    hide Under, NoneUnder, Taken;
  }

  lemma CutKeepsInv(s: State)
    requires Inv(s) && !s.cut
    ensures Inv(s.(cut := true))
  {
    hide Under, NoneUnder, Taken;
  }

  lemma TalkKeepsInv(s: State, e: Event)
    requires Inv(s) && TalkStep(s, e).Some?
    ensures Inv(TalkStep(s, e).value)
  {
    hide Inv, Leave;
    match e
    case Stage(_) => StageKeepsInv(s, e);
    case Status => StatusKeepsInv(s, e);
    case Execute => ExecuteKeepsInv(s, e);
    case _ => SendKeepsInv(s, e);
  }

  lemma SendKeepsInv(s: State, e: Event)
    requires Inv(s) && (e.UseRemote? || e.OpenUpload? || e.Send? || e.SendEof?) && TalkStep(s, e).Some?
    ensures Inv(TalkStep(s, e).value)
  {
    hide Under, NoneUnder, Taken;
  }

  lemma LeaveKeepsInv(s: State)
    requires Inv(s) && !Left(s)
    ensures Inv(Leave(s))
  {
    hide Under, NoneUnder, Taken;
  }

  lemma StageKeepsInv(s: State, e: Event)
    requires Inv(s) && e.Stage? && TalkStep(s, e).Some?
    ensures Inv(TalkStep(s, e).value)
  {
    hide Under, NoneUnder, Taken;
  }

  lemma StatusKeepsInv(s: State, e: Event)
    requires Inv(s) && e.Status? && TalkStep(s, e).Some?
    ensures Inv(TalkStep(s, e).value)
  {
    hide Under, NoneUnder, Taken;
    if s.shell.Failed? {
      LeaveKeepsInv(s);
    }
  }

  lemma ExecuteKeepsInv(s: State, e: Event)
    requires Inv(s) && e.Execute? && TalkStep(s, e).Some?
    ensures Inv(TalkStep(s, e).value)
  {
    hide Under, NoneUnder;
  }

  lemma ShellStepKeepsInv(s: State, e: Event)
    requires Inv(s) && ShellStep(s, e).Some?
    ensures Inv(ShellStep(s, e).value)
  {
    hide Inv;
    match e
    case ShellClears => ClearsKeepsInv(s, e);
    case ShellOpens => OpensKeepsInv(s, e);
    case ShellWrites => WritesKeepsInv(s, e);
    case ShellMarks => MarksKeepsInv(s, e);
    case ShellMoves => MovesKeepsInv(s, e);
    case _ => StopsKeepsInv(s, e);
  }

  lemma ClearsKeepsInv(s: State, e: Event)
    requires Inv(s) && e.ShellClears? && ShellStep(s, e).Some?
    ensures Inv(ShellStep(s, e).value)
  {
    hide Under, NoneUnder, Taken;
    var a := s.artifact.value;
    ArtifactPaths(s.cfg, a);
    StillNone(s.files, ShellStep(s, e).value.files, s.removed);
  }

  lemma OpensKeepsInv(s: State, e: Event)
    requires Inv(s) && e.ShellOpens? && ShellStep(s, e).Some?
    ensures Inv(ShellStep(s, e).value)
  {
    hide Under, NoneUnder;
    ArtifactPaths(s.cfg, s.artifact.value);
    assert s.artifact.value.OwnedDir? ==> Under(s.artifact.value.dir, PartOf(s.artifact.value));
  }

  lemma WritesKeepsInv(s: State, e: Event)
    requires Inv(s) && e.ShellWrites? && ShellStep(s, e).Some?
    ensures Inv(ShellStep(s, e).value)
  {
    hide Under, NoneUnder, Taken;
    ArtifactPaths(s.cfg, s.artifact.value);
    StillNone(s.files, ShellStep(s, e).value.files, s.removed);
  }

  lemma MarksKeepsInv(s: State, e: Event)
    requires Inv(s) && e.ShellMarks? && ShellStep(s, e).Some?
    ensures Inv(ShellStep(s, e).value)
  {
    hide Under, NoneUnder, Taken;
    ArtifactPaths(s.cfg, s.artifact.value);
    StillNone(s.files, ShellStep(s, e).value.files, s.removed);
  }

  lemma MovesKeepsInv(s: State, e: Event)
    requires Inv(s) && e.ShellMoves? && ShellStep(s, e).Some?
    ensures Inv(ShellStep(s, e).value)
  {
    hide Under, Taken;
    ArtifactPaths(s.cfg, s.artifact.value);
  }

  lemma StopsKeepsInv(s: State, e: Event)
    requires Inv(s) && (e.ShellReadsEof? || e.ShellFails?) && ShellStep(s, e).Some?
    ensures Inv(ShellStep(s, e).value)
  {
    hide Under, NoneUnder, Taken;
  }

  /** A directory without files stays so while no new names appear. */
  lemma StillNone(m: map<string, File>, n: map<string, File>, dirs: set<string>)
    requires n.Keys <= m.Keys
    ensures forall d :: d in dirs && NoneUnder(m, d) ==> NoneUnder(n, d)
  {
  }

  lemma CleanerStepKeepsInv(s: State, e: Event)
    requires Inv(s) && CleanerStep(s, e).Some?
    ensures Inv(CleanerStep(s, e).value)
  {
    hide Under;
    match e
    case CleanerUnlinks(path) => UnlinksKeepsInv(s, path);
    case CleanerFinishes => FinishKeepsInv(s);
    case CleanerFails =>
  }

  lemma UnlinksKeepsInv(s: State, path: string)
    requires Inv(s) && CleanerStep(s, CleanerUnlinks(path)).Some?
    ensures Inv(CleanerStep(s, CleanerUnlinks(path)).value)
  {
    hide Under, Taken;
    ArtifactPaths(s.cfg, s.artifact.value);
  }

  lemma FinishKeepsInv(s: State)
    requires Inv(s) && CleanerStep(s, CleanerFinishes).Some?
    ensures Inv(CleanerStep(s, CleanerFinishes).value)
  {
    hide Under, Taken;
    ArtifactPaths(s.cfg, s.artifact.value);
  }

  lemma StepKeepsInv(s: State, e: Event)
    requires Inv(s) && Step(s, e).Some?
    ensures Inv(Step(s, e).value)
  {
    hide Inv, ClientStep, ShellStep, CleanerStep;
    match e
    case CleanerUnlinks(_) => CleanerStepKeepsInv(s, e);
    case CleanerFinishes => CleanerStepKeepsInv(s, e);
    case CleanerFails => CleanerStepKeepsInv(s, e);
    case ShellClears => ShellStepKeepsInv(s, e);
    case ShellOpens => ShellStepKeepsInv(s, e);
    case ShellWrites => ShellStepKeepsInv(s, e);
    case ShellReadsEof => ShellStepKeepsInv(s, e);
    case ShellMarks => ShellStepKeepsInv(s, e);
    case ShellMoves => ShellStepKeepsInv(s, e);
    case ShellFails => ShellStepKeepsInv(s, e);
    case _ => ClientStepKeepsInv(s, e);
  }

  lemma {:induction false} RunsKeepInv(c: Config, run: seq<Event>)
    requires After(c, run).Some?
    ensures Inv(After(c, run).value) && After(c, run).value.cfg == c
    decreases |run|
  {
    hide Inv;
    if run == [] {
      assert Inv(Start(c)) by { StartInv(c); }
    } else {
      RunsKeepInv(c, run[..|run| - 1]);
      StepKeepsInv(After(c, run[..|run| - 1]).value, run[|run| - 1]);
    }
  }

  lemma StartInv(c: Config)
    ensures Inv(Start(c))
  {
  }

  // ---- What every run guarantees

  /** Whatever happens, no file but ours changes; without a copy nothing changes at all. */
  lemma OnlyOurFilesChange(c: Config, run: seq<Event>, path: string)
    requires After(c, run).Some?
    ensures var s := After(c, run).value;
            s.artifact.None? || !Ours(s.artifact.value, path) ==> FileAt(s.files, path) == FileAt(c.before, path)
    ensures !c.copy ==> After(c, run).value.files == c.before
  {
    hide After, Under;
    RunsKeepInv(c, run);
  }

  /**
   The operator's file at `bin`: untouched until the mv landed, there in every run that did not
   report the upload, and removed only after a reported one.
   */
  lemma OperatorFileIsSafe(c: Config, run: seq<Event>)
    requires After(c, run).Some? && c.copy && c.path.Some?
    ensures var s := After(c, run).value;
            var bin := c.path.value;
            && (!s.shell.Moved? ==> FileAt(s.files, bin) == FileAt(c.before, bin))
            && (bin in c.before && !s.uploaded ==> bin in s.files)
            && (bin in c.before && bin !in s.files ==> s.uploaded && !c.keep)
  {
    hide After;
    RunsKeepInv(c, run);
  }

  /** A run that copies executes only what it uploaded, whole, and only after exit status 0. */
  lemma OnlyTheWholeBinaryRuns(c: Config, run: seq<Event>)
    requires After(c, run).Some? && c.copy
    ensures var s := After(c, run).value;
            && (s.executed != [] ==> s.uploaded)
            && forall k :: 0 <= k < |s.executed| ==> s.executed[k] == Some(File(c.binary, true))
  {
    hide After;
    RunsKeepInv(c, run);
  }

  /** A directory of ours torn down successfully has nothing below it, then and ever after. */
  lemma TornDownStaysEmpty(c: Config, run: seq<Event>, more: seq<Event>)
    requires After(c, run).Some? && After(c, run + more).Some?
    requires var s := After(c, run).value; s.cleaner.Done? && s.artifact.Some? && s.artifact.value.OwnedDir?
    ensures NoneUnder(After(c, run + more).value.files, After(c, run).value.artifact.value.dir)
  {
    hide Inv;
    RunsKeepInv(c, run);
    RunsKeepInv(c, run + more);
    var dir := After(c, run).value.artifact.value.dir;
    assert dir in After(c, run).value.removed by { DoneRemoves(After(c, run).value); }
    RemovedStays(c, run, more, dir);
    RemovedIsEmpty(After(c, run + more).value, dir);
  }

  lemma DoneRemoves(s: State)
    requires Inv(s) && s.cleaner.Done? && s.artifact.Some? && s.artifact.value.OwnedDir?
    ensures s.artifact.value.dir in s.removed
  {
  }

  lemma RemovedIsEmpty(s: State, dir: string)
    requires Inv(s) && dir in s.removed
    ensures NoneUnder(s.files, dir)
  {
  }

  lemma {:induction false} RemovedStays(c: Config, run: seq<Event>, more: seq<Event>, dir: string)
    requires After(c, run).Some? && After(c, run + more).Some? && dir in After(c, run).value.removed
    ensures dir in After(c, run + more).value.removed
    decreases |more|
  {
    hide Step;
    if more == [] {
      Empties(run);
    } else {
      var n := |more| - 1;
      assert (run + more)[..|run + more| - 1] == run + more[..n];
      RemovedStays(c, run, more[..n], dir);
      RemovedGrows(After(c, run + more[..n]).value, more[n]);
    }
  }

  lemma RemovedGrows(s: State, e: Event)
    requires Step(s, e).Some?
    ensures s.removed <= Step(s, e).value.removed
  {
    hide Under, NoneUnder;
  }

  /** The teardown after a reported upload leaves neither the binary nor the part behind. */
  lemma TeardownAfterUploadIsComplete(c: Config, run: seq<Event>, path: string)
    requires After(c, run).Some?
    requires var s := After(c, run).value;
             s.uploaded && s.cleaner.Done? && s.artifact.Some? && Ours(s.artifact.value, path)
    ensures path !in After(c, run).value.files
  {
    hide After, Under;
    RunsKeepInv(c, run);
    ArtifactPaths(c, After(c, run).value.artifact.value);
  }

  /** With --keep-binary a reported upload stays in place, whole, whatever comes after. */
  lemma KeptBinaryStays(c: Config, run: seq<Event>)
    requires After(c, run).Some? && c.keep
    requires After(c, run).value.uploaded
    ensures var s := After(c, run).value;
            s.artifact.Some? && FileAt(s.files, s.artifact.value.bin) == Some(File(c.binary, true)) && s.cleaner.Off?
  {
    hide After;
    RunsKeepInv(c, run);
  }

  // ---- A landed mv need not be a whole upload

  lemma AfterNext(c: Config, run: seq<Event>, e: Event)
    requires After(c, run).Some?
    ensures After(c, run + [e]) == Step(After(c, run).value, e)
  {
    assert (run + [e])[..|run|] == run;
  }

  /** What the mv put in place is whole exactly if all bytes had arrived; less only once the channel is gone. */
  lemma LandedIsWholeUnlessDropped(c: Config, run: seq<Event>)
    requires After(c, run).Some? && After(c, run).value.shell.Moved?
    ensures var s := After(c, run).value;
            s.shell.written < |c.binary| ==> Dropped(s) && !s.uploaded
    ensures var s := After(c, run).value;
            s.artifact.Some?
            && (FileAt(s.files, s.artifact.value.bin).Some? ==>
                  (FileAt(s.files, s.artifact.value.bin) == Some(File(c.binary, true)) <==> s.shell.written == |c.binary|))
  {
    hide After;
    RunsKeepInv(c, run);
  }

  /** The mv has not put anything but the whole binary in place. */
  ghost predicate LandedWhole(s: State) {
    s.shell.Moved? && s.artifact.Some? && s.artifact.value.bin in s.files ==>
      s.files[s.artifact.value.bin] == File(s.cfg.binary, true)
  }

  /** The caller's condition: once exit status 0 has come back, what landed is whole. */
  lemma UploadedIsWhole(c: Config, run: seq<Event>)
    requires After(c, run).Some? && After(c, run).value.uploaded
    ensures LandedWhole(After(c, run).value) && After(c, run).value.shell == Moved(|c.binary|)
  {
    hide After;
    RunsKeepInv(c, run);
  }

  /**
   Without that status nothing of the kind holds: for every configuration that copies, staged or
   operator-supplied, all runs land the whole binary or nothing exactly if there are no bytes to lose.
   */
  lemma LandsWholeExactly(c: Config)
    requires c.copy
    ensures (forall run :: After(c, run).Some? ==> LandedWhole(After(c, run).value)) <==> c.binary == ""
  {
    hide After, LandedWhole, Inv;
    if c.binary == "" {
      forall run | After(c, run).Some? ensures LandedWhole(After(c, run).value) {
        EmptyIsWhole(c, run);
      }
    } else {
      var run := SomeLandsEmpty(c);
    }
  }

  lemma SomeLandsEmpty(c: Config) returns (run: seq<Event>)
    requires c.copy && c.binary != ""
    ensures After(c, run).Some? && !LandedWhole(After(c, run).value)
  {
    hide After, Inv;
    var made := FreshDir(c.before);
    run := InterruptedUploadCanLand(c, made, Cut);
    RunsKeepInv(c, run);
  }

  lemma EmptyIsWhole(c: Config, run: seq<Event>)
    requires After(c, run).Some? && c.binary == ""
    ensures LandedWhole(After(c, run).value)
  {
    hide After;
    RunsKeepInv(c, run);
  }

  /** A directory no file lies below: a name longer than every path. */
  lemma FreshDir(files: map<string, File>) returns (dir: string)
    ensures NoneUnder(files, dir)
  {
    var n := LongestKey(files.Keys);
    dir := seq(n, _ => 'd');
  }

  lemma {:induction false} LongestKey(keys: set<string>) returns (n: nat)
    ensures forall k :: k in keys ==> |k| <= n
    decreases |keys|
  {
    if keys == {} {
      n := 0;
    } else {
      var k :| k in keys;
      var m := LongestKey(keys - {k});
      n := if m < |k| then |k| else m;
    }
  }

  /**
   An upload interrupted before its first byte, by the client leaving or by the transport failing
   while the client waits: the shell takes the end of its input for the end of the file and leaves an
   empty executable in place.
   */
  lemma InterruptedUploadCanLand(c: Config, made: string, how: Event) returns (run: seq<Event>)
    requires c.copy && (c.path.None? ==> NoneUnder(c.before, made)) && (how.Quit? || how.Cut?)
    ensures After(c, run).Some?
    ensures var s := After(c, run).value;
            !s.uploaded && s.shell == Moved(0) && s.artifact == Some(ArtifactFor(c, made))
            && FileAt(s.files, s.artifact.value.bin) == Some(File("", true))
            && (how.Cut? ==> s.client.Uploading?)
  {
    hide After, Step;
    var s;
    s, run := ChannelLost(c, made, how);
    var t := ShellGoesOn(s);
    AfterNext(c, run, ShellClears);
    run := run + [ShellClears];
    AfterNext(c, run, ShellOpens);
    run := run + [ShellOpens];
    AfterNext(c, run, ShellReadsEof);
    run := run + [ShellReadsEof];
    AfterNext(c, run, ShellMarks);
    run := run + [ShellMarks];
    AfterNext(c, run, ShellMoves);
    run := run + [ShellMoves];
  }

  lemma ChannelLost(c: Config, made: string, how: Event) returns (s: State, run: seq<Event>)
    requires c.copy && (c.path.None? ==> NoneUnder(c.before, made)) && (how.Quit? || how.Cut?)
    ensures After(c, run) == Some(s)
    ensures s.artifact == Some(ArtifactFor(c, made)) && s.shell.Clearing? && s.removed == {} && !s.uploaded
    ensures PartOf(s.artifact.value) != s.artifact.value.bin && Dropped(s) && (how.Cut? ==> s.client.Uploading?)
  {
    hide After, Under;
    run := [];
    StartsThere(c);
    AfterNext(c, run, Stage(made));
    run := run + [Stage(made)];
    AfterNext(c, run, OpenUpload);
    run := run + [OpenUpload];
    AfterNext(c, run, how);
    run := run + [how];
    s := After(c, run).value;
    ArtifactPaths(c, s.artifact.value);
  }

  /** The five steps of a shell whose input ended before its first byte. */
  lemma ShellGoesOn(s: State) returns (t: State)
    requires s.artifact.Some? && PartOf(s.artifact.value) != s.artifact.value.bin
    requires Dropped(s) && s.shell.Clearing? && s.removed == {}
    ensures Step(s, ShellClears).Some?
    ensures var s1 := Step(s, ShellClears).value;
            Step(s1, ShellOpens).Some?
            && var s2 := Step(s1, ShellOpens).value;
               Step(s2, ShellReadsEof).Some?
               && var s3 := Step(s2, ShellReadsEof).value;
                  Step(s3, ShellMarks).Some?
                  && var s4 := Step(s3, ShellMarks).value;
                     Step(s4, ShellMoves) == Some(t)
    ensures t.uploaded == s.uploaded && t.shell == Moved(0) && t.artifact == s.artifact && t.client == s.client
    ensures FileAt(t.files, s.artifact.value.bin) == Some(File("", true))
  {
    hide PartOf, Under;
    var s1 := Step(s, ShellClears).value;
    var s2 := Step(s1, ShellOpens).value;
    var s3 := Step(s2, ShellReadsEof).value;
    var s4 := Step(s3, ShellMarks).value;
    t := Step(s4, ShellMoves).value;
  }

  lemma StartsThere(c: Config)
    ensures After(c, []) == Some(Start(c))
  {
  }

  // ---- Nothing above is empty: an undisturbed upload is reported

  /** The state of an upload of n bytes, sent and written, with nothing else going on. */
  ghost predicate FilledTo(s: State, c: Config, made: string, n: nat) {
    && s.cfg == c && s.client.Uploading? && s.artifact == Some(ArtifactFor(c, made))
    && s.sent == n <= |c.binary| && !s.eof && !s.cut && s.shell == Filling(n)
    && PartOf(s.artifact.value) in s.files
  }

  lemma OpensUpload(c: Config, made: string) returns (run: seq<Event>)
    requires c.copy && (c.path.None? ==> NoneUnder(c.before, made))
    ensures After(c, run).Some? && FilledTo(After(c, run).value, c, made, 0)
  {
    hide After, Under;
    run := [];
    StartsThere(c);
    AfterNext(c, run, Stage(made));
    run := run + [Stage(made)];
    AfterNext(c, run, OpenUpload);
    run := run + [OpenUpload];
    AfterNext(c, run, ShellClears);
    run := run + [ShellClears];
    AfterNext(c, run, ShellOpens);
    run := run + [ShellOpens];
  }

  lemma {:induction false} FillsAll(c: Config, made: string, n: nat, from: seq<Event>) returns (run: seq<Event>)
    requires After(c, from).Some? && FilledTo(After(c, from).value, c, made, n)
    ensures After(c, run).Some? && FilledTo(After(c, run).value, c, made, |c.binary|)
    decreases |c.binary| - n
  {
    hide After, Under, PartOf, ArtifactFor;
    if n == |c.binary| {
      run := from;
    } else {
      AfterNext(c, from, Send);
      AfterNext(c, from + [Send], ShellWrites);
      run := FillsAll(c, made, n + 1, from + [Send] + [ShellWrites]);
    }
  }

  /** From a filled part to the end of its input. */
  lemma ReadsEnd(c: Config, made: string, from: seq<Event>) returns (run: seq<Event>)
    requires After(c, from).Some? && FilledTo(After(c, from).value, c, made, |c.binary|)
    ensures After(c, run).Some? && InPlaceNext(After(c, run).value)
  {
    hide After, Under, PartOf, ArtifactFor;
    run := from;
    AfterNext(c, run, SendEof);
    run := run + [SendEof];
    AfterNext(c, run, ShellReadsEof);
    run := run + [ShellReadsEof];
  }

  ghost predicate InPlaceNext(s: State) {
    s.client.Uploading? && !s.cut && s.shell.Marking? && s.artifact.Some? && PartOf(s.artifact.value) in s.files
  }

  /** Every copy run can reach exit status 0, whatever the binary and whatever lay on the host before. */
  lemma UploadCanSucceed(c: Config, made: string) returns (run: seq<Event>)
    requires c.copy && (c.path.None? ==> NoneUnder(c.before, made))
    ensures After(c, run).Some? && After(c, run).value.uploaded
  {
    hide After, Under, PartOf, FilledTo, NoneUnder;
    var lead := OpensUpload(c, made);
    run := FillsAll(c, made, 0, lead);
    run := ReadsEnd(c, made, run);
    AfterNext(c, run, ShellMarks);
    run := run + [ShellMarks];
    AfterNext(c, run, ShellMoves);
    run := run + [ShellMoves];
    AfterNext(c, run, Status);
    run := run + [Status];
  }
}
