/**
 How a staged scan is torn down: what leaving orders, that an ordered teardown can be completed, and
 what a run that was not disturbed leaves on the host. The paths are spelled out.
 */
module Teardown {
  import opened Wrappers
  import opened Text
  import opened Staging

  // ---- What was staged

  /** The artifact is the one the run staged, at the paths the options say. */
  ghost predicate StagedBy(c: Config, run: seq<Event>, a: Option<Artifact>) {
    match a
    case None => forall e :: e in run ==> !e.Stage?
    case Some(UploadedFile(bin, part)) => c.path == Some(bin) && part == bin + ".part"
    case Some(OwnedDir(dir, bin)) => c.path.None? && Stage(dir) in run && bin == dir + "/owlzops-mapper"
  }

  /** What only the client decides. */
  predicate SameClient(s: State, t: State) {
    t.cfg == s.cfg && t.client == s.client && t.artifact == s.artifact && t.uploaded == s.uploaded && t.cut == s.cut
  }

  lemma OthersLeaveTheClient(s: State, e: Event)
    ensures ShellStep(s, e).Some? ==> SameClient(s, ShellStep(s, e).value)
    ensures CleanerStep(s, e).Some? ==> SameClient(s, CleanerStep(s, e).value)
  {
    hide Under, NoneUnder, PartOf, Taken;
  }

  lemma StagesAs(s: State, e: Event)
    requires Step(s, e).Some?
    ensures Step(s, e).value.cfg == s.cfg
    ensures Step(s, e).value.artifact == if e.Stage? then Some(ArtifactFor(s.cfg, e.made)) else s.artifact
  {
    hide NoneUnder, ShellStep, CleanerStep, ArtifactFor;
    OthersLeaveTheClient(s, e);
  }

  lemma {:induction false} ArtifactOfRun(c: Config, run: seq<Event>)
    requires After(c, run).Some?
    ensures StagedBy(c, run, After(c, run).value.artifact) && After(c, run).value.cfg == c
    decreases |run|
  {
    hide Step;
    if run != [] {
      var n := |run| - 1;
      ArtifactOfRun(c, run[..n]);
      StagesAs(After(c, run[..n]).value, run[n]);
      assert run == run[..n] + [run[n]];
    }
  }

  /** With an operator's path, no file changes but that path and its `.part`. */
  lemma OnlyThePathChanges(c: Config, run: seq<Event>, path: string)
    requires After(c, run).Some? && c.path.Some? && path != c.path.value && path != c.path.value + ".part"
    ensures FileAt(After(c, run).value.files, path) == FileAt(c.before, path)
  {
    hide After;
    ArtifactOfRun(c, run);
    OnlyOurFilesChange(c, run, path);
  }

  /** Without one, no file changes but those below a directory the run was given by `mktemp`. */
  lemma OnlyTheDirChanges(c: Config, run: seq<Event>, path: string)
    requires After(c, run).Some? && c.path.None?
    requires forall made :: Stage(made) in run ==> !(made + "/" <= path)
    ensures FileAt(After(c, run).value.files, path) == FileAt(c.before, path)
  {
    hide After;
    ArtifactOfRun(c, run);
    OnlyOurFilesChange(c, run, path);
  }

  // ---- Leaving

  /** The command for what was staged: the whole directory, or the one file that is ours by now. */
  ghost predicate Orders(c: Config, a: Artifact, uploaded: bool, cmd: Cmd) {
    if c.path.None? then a.OwnedDir? && cmd == RemoveTree(a.dir)
    else cmd == RemoveFile(if uploaded then c.path.value else c.path.value + ".part")
  }

  /**
   However the client leaves, by quitting or on the status of a failed upload, the teardown of what it
   staged is ordered, unless the transport is gone or a reported upload is to be kept.
   */
  lemma LeavingOrdersTeardown(c: Config, run: seq<Event>, e: Event)
    requires After(c, run).Some? && After(c, run + [e]).Some?
    requires !Left(After(c, run).value) && Left(After(c, run + [e]).value)
    ensures var s, t := After(c, run).value, After(c, run + [e]).value;
            if !s.cut && s.artifact.Some? && !(c.keep && s.uploaded)
            then t.client.Closing? && t.cleaner.Working? && Orders(c, s.artifact.value, s.uploaded, t.cleaner.cmd)
            else t.client.Ended? && t.cleaner.Off?
    ensures var s, t := After(c, run).value, After(c, run + [e]).value;
            t.artifact == s.artifact && t.uploaded == s.uploaded && t.files == s.files
  {
    hide After, Inv;
    RunsKeepInv(c, run);
    ArtifactOfRun(c, run);
    AfterNext(c, run, e);
    NotOrderedBefore(After(c, run).value);
    LeavesBy(After(c, run).value, e);
  }

  lemma NotOrderedBefore(s: State)
    requires Inv(s) && !Left(s)
    ensures s.cleaner.Off?
  {
  }

  lemma LeavesBy(s: State, e: Event)
    requires !Left(s) && s.cleaner.Off? && Step(s, e).Some? && Left(Step(s, e).value)
    ensures var t := Step(s, e).value;
            && t.artifact == s.artifact && t.uploaded == s.uploaded && t.files == s.files
            && if !s.cut && s.artifact.Some? && !(s.cfg.keep && s.uploaded)
               then t.client.Closing? && t.cleaner == Working(TeardownCmd(s.artifact.value, s.uploaded))
               else t.client.Ended? && t.cleaner.Off?
  {
    hide NoneUnder, TeardownCmd, ShellStep, CleanerStep, ArtifactFor;
    OthersLeaveTheClient(s, e);
  }

  /** The client can leave at any time, and does so when a failed upload is reported to it. */
  lemma CanLeave(c: Config, run: seq<Event>)
    requires After(c, run).Some? && !Left(After(c, run).value)
    ensures After(c, run + [Quit]).Some? && Left(After(c, run + [Quit]).value)
    ensures var s := After(c, run).value;
            s.client.Uploading? && s.shell.Failed? && !s.cut ==>
              After(c, run + [Status]).Some? && Left(After(c, run + [Status]).value)
  {
    hide After, Under, NoneUnder;
    AfterNext(c, run, Quit);
    AfterNext(c, run, Status);
  }

  // ---- Completing an ordered teardown

  predicate CleanerOnly(more: seq<Event>) {
    forall i :: 0 <= i < |more| ==> more[i].CleanerUnlinks? || more[i].CleanerFinishes?
  }

  /** The files below a directory. */
  function Below(files: map<string, File>, dir: string): set<string> { set p | p in files && Under(dir, p) }

  lemma {:induction false} UnlinksAll(c: Config, run: seq<Event>) returns (more: seq<Event>)
    requires After(c, run).Some?
    requires After(c, run).value.cleaner.Working? && After(c, run).value.cleaner.cmd.RemoveTree?
    ensures CleanerOnly(more) && After(c, run + more).Some?
    ensures var s, t := After(c, run).value, After(c, run + more).value;
            t == s.(files := t.files) && NoneUnder(t.files, s.cleaner.cmd.dir)
    decreases |Below(After(c, run).value.files, After(c, run).value.cleaner.cmd.dir)|
  {
    hide After, Step, Under;
    var s := After(c, run).value;
    var dir := s.cleaner.cmd.dir;
    if p :| p in Below(s.files, dir) {
      var e := CleanerUnlinks(p);
      AfterNext(c, run, e);
      UnlinkStep(s, p);
      var t := After(c, run + [e]).value;
      assert Below(t.files, dir) == Below(s.files, dir) - {p};
      var rest := UnlinksAll(c, run + [e]);
      more := [e] + rest;
      Assoc(run, [e], rest);
    } else {
      more := [];
      Empties(run);
      forall p | p in s.files ensures !Under(dir, p) {
        assert p !in Below(s.files, dir);
      }
    }
  }

  lemma UnlinkStep(s: State, p: string)
    requires s.cleaner.Working? && s.cleaner.cmd.RemoveTree? && Under(s.cleaner.cmd.dir, p)
    ensures Step(s, CleanerUnlinks(p)) == Some(s.(files := s.files - {p}))
  {
  }

  /** Whatever state it meets, an ordered teardown can be carried through: its target is then gone. */
  lemma TeardownCanComplete(c: Config, run: seq<Event>) returns (more: seq<Event>)
    requires After(c, run).Some? && After(c, run).value.cleaner.Working?
    ensures CleanerOnly(more) && After(c, run + more).Some?
    ensures var s, t := After(c, run).value, After(c, run + more).value;
            && t.cleaner == Done(s.cleaner.cmd) && t.client == s.client && t.uploaded == s.uploaded && t.artifact == s.artifact
            && match s.cleaner.cmd
               case RemoveTree(dir) => forall p :: p in t.files ==> !(dir + "/" <= p)
               case RemoveFile(path) => path !in t.files
  {
    hide After;
    var s := After(c, run).value;
    if s.cleaner.cmd.RemoveTree? {
      more := UnlinksAll(c, run);
    } else {
      more := [];
      Empties(run);
    }
    AfterNext(c, run + more, CleanerFinishes);
    Assoc(run, more, [CleanerFinishes]);
    more := more + [CleanerFinishes];
  }

  /**
   After a reported upload that is not to be kept, whenever and however the client leaves a working
   transport, the run can go on to an end at which no path of ours is left.
   */
  lemma UploadCanBeRemoved(c: Config, run: seq<Event>, e: Event) returns (more: seq<Event>)
    requires After(c, run).Some? && After(c, run + [e]).Some?
    requires !Left(After(c, run).value) && Left(After(c, run + [e]).value)
    requires var s := After(c, run).value; s.uploaded && !s.cut && !c.keep && s.artifact.Some?
    ensures After(c, run + [e] + more).Some?
    ensures var t := After(c, run + [e] + more).value;
            t.client.Ended? && t.cleaner.Done? && forall p :: Ours(After(c, run).value.artifact.value, p) ==> p !in t.files
  {
    hide After, Step, Ours;
    LeavingOrdersTeardown(c, run, e);
    var torn := TeardownCanComplete(c, run + [e]);
    var s := After(c, run + [e] + torn).value;
    AfterNext(c, run + [e] + torn, Confirm);
    ConfirmStep(s);
    Assoc(run + [e], torn, [Confirm]);
    more := torn + [Confirm];
    forall p | Ours(After(c, run).value.artifact.value, p) ensures p !in s.files {
      TeardownAfterUploadIsComplete(c, run + [e] + torn, p);
    }
  }

  lemma ConfirmStep(s: State)
    requires s.client.Closing? && s.cleaner.Done?
    ensures Step(s, Confirm) == Some(s.(client := Ended))
  {
  }

  // ---- Runs nothing went wrong in

  /** Neither the transport nor the teardown failed, and the client did not give up on the teardown. */
  ghost predicate Undisturbed(run: seq<Event>) { Cut !in run && Hangup !in run && CleanerFails !in run }

  /** While nothing goes wrong a client that has left has a teardown at work or done, and ends only when it is done. */
  ghost predicate Orderly(s: State) {
    && !s.cut && !s.cleaner.GaveUp?
    && (s.artifact.Some? && !(s.cfg.keep && s.uploaded) ==>
          && (s.client.Closing? ==> s.cleaner.Working? || s.cleaner.Done?)
          && (s.client.Ended? ==> s.cleaner.Done?))
  }

  lemma StepIsOrderly(s: State, e: Event)
    requires Orderly(s) && Inv(s) && Step(s, e).Some? && !e.Cut? && !e.Hangup? && !e.CleanerFails?
    ensures Orderly(Step(s, e).value)
  {
    hide Under, NoneUnder, TeardownCmd, PartState, BinState, Shaped;
  }

  lemma {:induction false} UndisturbedIsOrderly(c: Config, run: seq<Event>)
    requires After(c, run).Some? && Undisturbed(run)
    ensures Orderly(After(c, run).value)
    decreases |run|
  {
    hide Step, Inv;
    if run != [] {
      var n := |run| - 1;
      assert run == run[..n] + [run[n]];
      UndisturbedIsOrderly(c, run[..n]);
      RunsKeepInv(c, run[..n]);
      StepIsOrderly(After(c, run[..n]).value, run[n]);
    }
  }

  /**
   What is on the host when the client has ended and nothing went wrong: a reported upload, whole, if
   and only if it was to be kept, and otherwise no path of ours at all. Before exit status 0 the staged
   directory is gone, too.
   */
  lemma EndsCleanExactly(c: Config, run: seq<Event>)
    requires After(c, run).Some? && Undisturbed(run)
    requires var s := After(c, run).value; s.client.Ended? && s.artifact.Some?
    ensures var s := After(c, run).value;
            var a := s.artifact.value;
            && (s.uploaded ==> FileAt(s.files, a.bin) == if c.keep then Some(File(c.binary, true)) else None)
            && (s.uploaded && !c.keep ==> forall p :: Ours(a, p) ==> p !in s.files)
            && (c.path.None? && !(s.uploaded && c.keep) ==>
                  a.OwnedDir? && forall p :: p in s.files ==> !(a.dir + "/" <= p))
  {
    hide After, Ours;
    RunsKeepInv(c, run);
    UndisturbedIsOrderly(c, run);
    var s := After(c, run).value;
    if s.uploaded && !c.keep {
      forall p | Ours(s.artifact.value, p) ensures p !in s.files {
        TeardownAfterUploadIsComplete(c, run, p);
      }
      ArtifactPaths(c, s.artifact.value);
    }
    if s.uploaded && c.keep {
      KeptBinaryStays(c, run);
    }
    if c.path.None? && !(s.uploaded && c.keep) {
      DoneRemoves(s);
      RemovedIsEmpty(s, s.artifact.value.dir);
    }
  }
}
