/**
 Where a scan may stage its binary: the mount-table lookup and the choice of a staging directory.
 */
module Mounts {
  import opened Wrappers
  import opened Text

  datatype Mount = Mount(point: string, noexec: bool)

  /** A line of the table: device, mount point, file system, options; shorter lines are skipped. */
  function MountOf(line: string): seq<Mount> {
    var w := Words(line);
    if |w| < 4 then [] else [Mount(w[1], "noexec" in Split(w[3], ','))]
  }

  function MountsOf(lines: seq<string>): seq<Mount> {
    if lines == [] then [] else MountsOf(lines[..|lines| - 1]) + MountOf(lines[|lines| - 1])
  }

  predicate Covers(point: string, dir: string) {
    point == "/" || dir == point || (StartsWith(dir, point) && |dir| > |point| && dir[|point|] == '/')
  }

  /** The last of the longest mount points that cover the directory; lengths are in bytes. */
  ghost predicate Deepest(ms: seq<Mount>, dir: string, i: nat) {
    && i < |ms| && Covers(ms[i].point, dir)
    && forall j :: 0 <= j < |ms| && Covers(ms[j].point, dir) ==> Below(ms, j, i)
  }

  predicate Below(ms: seq<Mount>, j: nat, i: nat)
    requires j < |ms| && i < |ms|
  {
    var a, b := Utf8Len(ms[j].point), Utf8Len(ms[i].point);
    a < b || (a == b && j <= i)
  }

  ghost predicate IsNoexec(ms: seq<Mount>, dir: string) {
    exists i: nat :: Deepest(ms, dir, i) && ms[i].noexec
  }

  method MountIsNoexec(mounts: string, dir: string) returns (noexec: bool)
    ensures noexec <==> IsNoexec(MountsOf(Lines(mounts)), dir)
  {
    hide Covers, MountOf;
    var lines := Lines(mounts);
    var best: nat := 0;
    noexec := false;
    ghost var found: Option<nat> := None;
    for i := 0 to |lines|
      invariant Found(MountsOf(lines[..i]), dir, found)
      invariant best == if found.Some? then Utf8Len(MountsOf(lines[..i])[found.value].point) else 0
      invariant noexec == (found.Some? && MountsOf(lines[..i])[found.value].noexec)
    {
      assert lines[..i + 1][..i] == lines[..i];
      var entry := MountOf(lines[i]);
      ghost var seen := MountsOf(lines[..i]);
      if entry != [] {
        assert entry == [entry[0]] by { MountOfIsOne(lines[i]); }
        if Covers(entry[0].point, dir) && Utf8Len(entry[0].point) >= best {
          best := Utf8Len(entry[0].point);
          noexec := entry[0].noexec;
          found := Some(|seen|);
        }
      } else {
        Empties(seen);
      }
    }
    assert lines[..|lines|] == lines;
    if found.Some? {
      OnlyOneDeepest(MountsOf(lines), dir, found.value);
    }
  }

  lemma MountOfIsOne(line: string)
    ensures |MountOf(line)| <= 1
  {
  }

  /** A line of four words or more: the second is the mount point, the fourth a list that may hold `noexec`. */
  lemma MountReads(dev: string, b1: string, point: string, b2: string, fs: string, b3: string, opts: string, more: string)
    requires dev != "" && point != "" && fs != "" && opts != ""
    requires Spaceless(dev) && Spaceless(point) && Spaceless(fs) && Spaceless(opts)
    requires b1 != "" && b2 != "" && b3 != "" && Blank(b1) && Blank(b2) && Blank(b3) && (more == "" || IsSpace(more[0]))
    ensures var m := MountOf(dev + b1 + (point + b2 + (fs + b3 + (opts + more))));
            && |m| == 1 && m[0].point == point
            && (m[0].noexec <==> exists i: nat, j: nat :: IsPiece(opts, ',', i, j) && opts[i..j] == "noexec")
  {
    hide Words, Split, IsPiece;
    WordAhead(dev, b1, point + b2 + (fs + b3 + (opts + more)));
    WordAhead(point, b2, fs + b3 + (opts + more));
    WordAhead(fs, b3, opts + more);
    WordFirst(opts, more);
    SplitExactly(opts, ',', "noexec");
    var rest := Words(opts + more);
    assert ([dev] + ([point] + ([fs] + rest)))[1] == point && ([dev] + ([point] + ([fs] + rest)))[3] == rest[0];
  }

  ghost predicate Found(ms: seq<Mount>, dir: string, found: Option<nat>) {
    match found
    case Some(i) => Deepest(ms, dir, i)
    case None => forall j :: 0 <= j < |ms| ==> !Covers(ms[j].point, dir)
  }

  lemma OnlyOneDeepest(ms: seq<Mount>, dir: string, i: nat)
    requires Deepest(ms, dir, i)
    ensures forall j: nat :: Deepest(ms, dir, j) ==> j == i
  {
    forall j: nat | Deepest(ms, dir, j) ensures j == i {
      assert Below(ms, j, i) && Below(ms, i, j);
    }
  }

  // ---- What covering means

  function Components(path: string): seq<string> { Split(path, '/') }

  lemma {:induction false} SplitAtSlash(cur: string, a: string, b: string)
    ensures SplitFrom(cur, a + "/" + b, '/') == SplitFrom(cur, a, '/') + SplitFrom("", b, '/')
    decreases |a|
  {
    var s := a + "/" + b;
    if a == "" {
      assert s[1..] == b;
    } else {
      assert s[1..] == a[1..] + "/" + b;
      if a[0] == '/' {
        SplitAtSlash("", a[1..], b);
        Assoc([cur], SplitFrom("", a[1..], '/'), SplitFrom("", b, '/'));
      } else {
        SplitAtSlash(cur + [a[0]], a[1..], b);
      }
    }
  }

  lemma {:induction false} JoinOfSplit(cur: string, s: string)
    ensures Join(SplitFrom(cur, s, '/'), "/") == cur + s
    decreases |s|
  {
    if s == "" {
      assert cur + s == cur;
    } else if s[0] == '/' {
      JoinOfSplit("", s[1..]);
      var rest := SplitFrom("", s[1..], '/');
      assert ([cur] + rest)[1..] == rest;
      assert cur + "/" + ("" + s[1..]) == cur + s;
    } else {
      JoinOfSplit(cur + [s[0]], s[1..]);
      assert cur + [s[0]] + s[1..] == cur + s;
    }
  }

  lemma {:induction false} JoinAppend(a: seq<string>, b: seq<string>)
    requires a != [] && b != []
    ensures Join(a + b, "/") == Join(a, "/") + "/" + Join(b, "/")
    decreases |a|
  {
    DropHead(a, b);
    if |a| == 1 {
      Empties(b);
    } else {
      JoinAppend(a[1..], b);
      Assoc(a[0] + "/", Join(a[1..], "/") + "/", Join(b, "/"));
      Assoc(a[0] + "/", Join(a[1..], "/"), "/");
    }
  }

  /** The root covers everything; other points go by whole path components: `/va` does not cover `/var`. */
  lemma CoversByComponents(point: string, dir: string)
    ensures Covers(point, dir) <==> point == "/" || Components(point) <= Components(dir)
  {
    hide Split, SplitFrom, Join;
    if Covers(point, dir) && dir != point && point != "/" {
      BelowHasComponents(point, dir);
    }
    if Components(point) <= Components(dir) {
      ComponentsPrefixCovers(point, dir);
    }
  }

  lemma BelowHasComponents(point: string, dir: string)
    requires StartsWith(dir, point) && |dir| > |point| && dir[|point|] == '/'
    ensures Components(point) <= Components(dir)
  {
    hide SplitFrom;
    var rest := dir[|point| + 1..];
    assert dir == point + "/" + rest;
    SplitAtSlash("", point, rest);
  }

  lemma ComponentsPrefixCovers(point: string, dir: string)
    requires Components(point) <= Components(dir)
    ensures Covers(point, dir)
  {
    hide SplitFrom, Join;
    var a, b := Components(point), Components(dir)[|Components(point)|..];
    assert Components(dir) == a + b;
    JoinOfSplit("", point);
    JoinOfSplit("", dir);
    Empties(point);
    Empties(dir);
    if b == [] {
      Empties(a);
    } else {
      JoinAppend(a, b);
      var rest := Join(b, "/");
      assert dir == point + "/" + rest;
      assert dir[..|point|] == point;
    }
  }

  predicate Absolute(dir: string) { dir != "" && dir[0] == '/' }

  lemma {:induction false} LongerPrefix(a: string, b: string)
    requires a <= b
    ensures Utf8Len(a) <= Utf8Len(b)
    ensures Utf8Len(a) == Utf8Len(b) ==> a == b
    decreases |a|
  {
    if a == "" {
      assert b != "" ==> Utf8Len(b) > 0;
    } else {
      assert a[1..] <= b[1..];
      LongerPrefix(a[1..], b[1..]);
      assert a == [a[0]] + a[1..] && b == [b[0]] + b[1..];
    }
  }

  lemma CoveringIsPrefix(point: string, dir: string)
    requires Absolute(dir) && Covers(point, dir)
    ensures point <= dir
  {
  }

  /** Of two mount points that cover one directory the longer lies below the other; equal lengths mean one path. */
  lemma CoveringPointsNest(a: string, b: string, dir: string)
    requires Absolute(dir) && Covers(a, dir) && Covers(b, dir) && b != ""
    ensures Utf8Len(a) <= Utf8Len(b) <==> Covers(a, b)
    ensures Utf8Len(a) == Utf8Len(b) <==> a == b
  {
    CoveringIsPrefix(a, dir);
    CoveringIsPrefix(b, dir);
    if |a| <= |b| {
      assert a == b[..|a|];
      LongerPrefix(a, b);
    } else {
      assert b == a[..|b|];
      LongerPrefix(b, a);
    }
  }

  /** For an absolute directory: below every other covering mount point, and the last one mounted there. */
  ghost predicate Nearest(ms: seq<Mount>, dir: string, i: nat) {
    && i < |ms| && Covers(ms[i].point, dir)
    && forall j :: 0 <= j < |ms| && Covers(ms[j].point, dir) ==>
         Covers(ms[j].point, ms[i].point) && (ms[j].point == ms[i].point ==> j <= i)
  }

  /** Every line names its mount point. */
  predicate Named(ms: seq<Mount>) { forall j :: 0 <= j < |ms| ==> ms[j].point != "" }

  lemma {:induction false} MountsAreNamed(lines: seq<string>)
    ensures Named(MountsOf(lines))
    decreases |lines|
  {
    if lines != [] {
      var n := |lines| - 1;
      MountsAreNamed(lines[..n]);
      WordsAreNonempty("", lines[n]);
    }
  }

  lemma {:induction false} WordsAreNonempty(cur: string, s: string)
    ensures forall i :: 0 <= i < |WordsFrom(cur, s)| ==> WordsFrom(cur, s)[i] != ""
    decreases |s|
  {
    if s != "" {
      WordsAreNonempty(if IsSpace(s[0]) then "" else cur + [s[0]], s[1..]);
    }
  }

  lemma DeepestIsNearest(ms: seq<Mount>, dir: string, i: nat)
    requires Absolute(dir) && Named(ms)
    ensures Deepest(ms, dir, i) <==> Nearest(ms, dir, i)
  {
    hide Covers;
    if i < |ms| && Covers(ms[i].point, dir) {
      forall j | 0 <= j < |ms| && Covers(ms[j].point, dir)
        ensures Below(ms, j, i)
           <==> Covers(ms[j].point, ms[i].point) && (ms[j].point == ms[i].point ==> j <= i)
      {
        CoveringPointsNest(ms[j].point, ms[i].point, dir);
      }
    }
  }

  lemma {:induction false} SomeDeepest(ms: seq<Mount>, dir: string, k: nat) returns (i: nat)
    requires k < |ms| && Covers(ms[k].point, dir)
    ensures Deepest(ms, dir, i)
    decreases |ms|
  {
    hide Covers;
    var n := |ms| - 1;
    var rest := ms[..n];
    if Covers(ms[n].point, dir) {
      if j :| 0 <= j < n && Covers(rest[j].point, dir) {
        i := SomeDeepest(rest, dir, j);
        if Utf8Len(ms[i].point) <= Utf8Len(ms[n].point) {
          forall m | 0 <= m < |ms| && Covers(ms[m].point, dir) ensures Below(ms, m, n) {
            assert m < n ==> Covers(rest[m].point, dir) && Below(rest, m, i);
          }
          i := n;
        } else {
          forall m | 0 <= m < |ms| && Covers(ms[m].point, dir) ensures Below(ms, m, i) {
            assert m < n ==> Covers(rest[m].point, dir) && Below(rest, m, i);
          }
        }
      } else {
        assert forall m :: 0 <= m < n ==> ms[m] == rest[m];
        i := n;
      }
    } else {
      assert rest[k] == ms[k];
      i := SomeDeepest(rest, dir, k);
      forall m | 0 <= m < |ms| && Covers(ms[m].point, dir) ensures Below(ms, m, i) {
        assert Covers(rest[m].point, dir) && Below(rest, m, i);
      }
    }
  }

  /**
   The flag of the nearest covering mount decides: with none covering, and with the nearest one
   exec-capable, the answer is false whatever the other lines say.
   */
  lemma NearestDecides(ms: seq<Mount>, dir: string)
    requires Absolute(dir) && Named(ms)
    ensures IsNoexec(ms, dir) <==> exists i: nat :: Nearest(ms, dir, i) && ms[i].noexec
    ensures !IsNoexec(ms, dir) <==> NoneCovers(ms, dir) || exists i: nat :: Nearest(ms, dir, i) && !ms[i].noexec
  {
    hide Covers, Below;
    forall i: nat ensures Deepest(ms, dir, i) <==> Nearest(ms, dir, i) {
      DeepestIsNearest(ms, dir, i);
    }
    if k :| 0 <= k < |ms| && Covers(ms[k].point, dir) {
      var i := SomeDeepest(ms, dir, k);
      OnlyOneDeepest(ms, dir, i);
    }
  }

  ghost predicate NoneCovers(ms: seq<Mount>, dir: string) {
    forall j :: 0 <= j < |ms| ==> !Covers(ms[j].point, dir)
  }

  // ---- Choosing the staging directory

  const STAGING_ROOTS: seq<string> := ["/var/tmp", "/tmp"]

  /** Exactly `{root}/owlzops-` and one to 32 letters or digits. */
  predicate SaneDir(dir: string, root: string) {
    var lead := root + "/owlzops-";
    StartsWith(dir, lead) && 0 < |dir| - |lead| <= 32 && forall i :: |lead| <= i < |dir| ==> IsAlnum(dir[i])
  }

  predicate LettersOrDigits(s: string) {
    forall i :: 0 <= i < |s| ==> '0' <= s[i] <= '9' || 'a' <= s[i] <= 'z' || 'A' <= s[i] <= 'Z'
  }

  /** The root, `/owlzops-`, and one to 32 ASCII letters or digits. */
  lemma SaneDirExactly(dir: string, root: string)
    ensures SaneDir(dir, root) <==> exists rand :: dir == root + "/owlzops-" + rand && 1 <= |rand| <= 32 && LettersOrDigits(rand)
  {
    var lead := root + "/owlzops-";
    if SaneDir(dir, root) {
      var rand := dir[|lead|..];
      assert dir == lead + rand;
    }
    if rand :| dir == lead + rand && 1 <= |rand| <= 32 && LettersOrDigits(rand) {
      assert dir[..|lead|] == lead;
      assert forall i :: |lead| <= i < |dir| ==> dir[i] == rand[i - |lead|];
    }
  }

  datatype StagingError = NoExecRoot | UnusablePath

  datatype Owned = Owned(dir: string, bin: string)

  /** The answer by the two roots alone. */
  function ChoiceOf(varTmpBarred: bool, tmpBarred: bool, made: string -> string): Result<Owned, StagingError> {
    if varTmpBarred && tmpBarred then Err(NoExecRoot)
    else
      var root := if varTmpBarred then "/tmp" else "/var/tmp";
      var dir := Trim(made(root));
      if SaneDir(dir, root) then Ok(Owned(dir, dir + "/owlzops-mapper")) else Err(UnusablePath)
  }

  /** `made` is what the remote `mktemp -d` printed for a root. */
  method MakeRemoteStaging(mounts: string, made: string -> string) returns (r: Result<Owned, StagingError>)
    ensures match r
            case Ok(o) => exists k: nat :: StagesAt(mounts, made, k, o)
            case Err(UnusablePath) => exists k: nat :: RefusesAt(mounts, made, k)
            case Err(NoExecRoot) => forall k :: 0 <= k < |STAGING_ROOTS| ==> Barred(mounts, k)
    ensures r == ChoiceOf(IsNoexec(MountsOf(Lines(mounts)), "/var/tmp"), IsNoexec(MountsOf(Lines(mounts)), "/tmp"), made)
  {
    hide IsNoexec, MountsOf, Lines, SaneDir, Trim;
    var k: nat := 0;
    while k < |STAGING_ROOTS|
      invariant k <= |STAGING_ROOTS|
      invariant forall j :: 0 <= j < k ==> Barred(mounts, j)
    {
      var noexec := MountIsNoexec(mounts, STAGING_ROOTS[k]);
      if !noexec {
        assert k > 0 ==> Barred(mounts, 0);
        var dir := Trim(made(STAGING_ROOTS[k]));
        if !SaneDir(dir, STAGING_ROOTS[k]) {
          assert RefusesAt(mounts, made, k);
          return Err(UnusablePath);
        }
        var o := Owned(dir, dir + "/owlzops-mapper");
        assert StagesAt(mounts, made, k, o);
        return Ok(o);
      }
      k := k + 1;
    }
    assert Barred(mounts, 0) && Barred(mounts, 1);
    r := Err(NoExecRoot);
  }

  ghost predicate Barred(mounts: string, k: nat)
    requires k < |STAGING_ROOTS|
  {
    IsNoexec(MountsOf(Lines(mounts)), STAGING_ROOTS[k])
  }

  /** The first root that may execute. */
  ghost predicate FirstOpen(mounts: string, k: nat) {
    k < |STAGING_ROOTS| && !Barred(mounts, k) && forall j :: 0 <= j < k ==> Barred(mounts, j)
  }

  ghost predicate StagesAt(mounts: string, made: string -> string, k: nat, o: Owned) {
    FirstOpen(mounts, k) && o.dir == Trim(made(STAGING_ROOTS[k])) && SaneDir(o.dir, STAGING_ROOTS[k])
    && o.bin == o.dir + "/owlzops-mapper"
  }

  ghost predicate RefusesAt(mounts: string, made: string -> string, k: nat) {
    FirstOpen(mounts, k) && !SaneDir(Trim(made(STAGING_ROOTS[k])), STAGING_ROOTS[k])
  }

  /** What `rm -rf` will be given: one plain component below the root, nothing for a shell to expand. */
  lemma SaneDirIsOneComponent(dir: string, root: string)
    requires SaneDir(dir, root)
    ensures var leaf := dir[|root| + 1..];
            && Components(dir) == Components(root) + [leaf]
            && "owlzops-" <= leaf && forall i :: 0 <= i < |leaf| ==> IsAlnum(leaf[i]) || leaf[i] == '-'
  {
    hide SplitFrom;
    var leaf := dir[|root| + 1..];
    LeafIsPlain(dir, root);
    assert dir == root + "/" + leaf;
    SplitAtSlash("", root, leaf);
    SplitWithout("", leaf, '/');
    Empties(leaf);
  }

  lemma LeafIsPlain(dir: string, root: string)
    requires SaneDir(dir, root)
    ensures |root| < |dir| && dir[..|root|] == root && dir[|root|] == '/' && "owlzops-" <= dir[|root| + 1..]
    ensures forall i :: |root| < i < |dir| ==> IsAlnum(dir[i]) || dir[i] == '-'
  {
    var lead := root + "/owlzops-";
    assert lead[|root|..] == "/owlzops-" && lead[..|root|] == root;
    assert dir[..|lead|] == lead && dir[|root| + 1..|lead|] == "owlzops-";
    forall i | |root| < i < |dir| ensures IsAlnum(dir[i]) || dir[i] == '-' {
      if i < |lead| {
        assert dir[i] == "owlzops-"[i - |root| - 1];
      }
    }
  }

  /** A mount point covers a directory made below the root exactly if it covers the root or is that directory. */
  lemma CoversTheMadeDir(point: string, dir: string, root: string)
    requires SaneDir(dir, root)
    ensures Covers(point, dir) <==> Covers(point, root) || point == dir
  {
    hide SaneDir;
    LeafIsPlain(dir, root);
    if StartsWith(dir, point) && |dir| > |point| && dir[|point|] == '/' {
      assert |point| <= |root|;
      assert point == dir[..|point|] == root[..|point|];
    }
    if StartsWith(root, point) {
      assert point == root[..|point|] == dir[..|point|];
    }
  }

  /** The directory made below a root, itself no mount point, may execute exactly if the root may. */
  lemma MadeDirExecutesAsItsRoot(ms: seq<Mount>, dir: string, root: string)
    requires SaneDir(dir, root)
    requires forall j :: 0 <= j < |ms| ==> ms[j].point != dir
    ensures IsNoexec(ms, dir) <==> IsNoexec(ms, root)
  {
    hide SaneDir, Covers, Below;
    forall j | 0 <= j < |ms| ensures Covers(ms[j].point, dir) <==> Covers(ms[j].point, root) {
      CoversTheMadeDir(ms[j].point, dir, root);
    }
    assert forall i: nat :: Deepest(ms, dir, i) <==> Deepest(ms, root, i);
  }
}
