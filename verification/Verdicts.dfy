/** The verdict read off the findings themselves: which ids compromise a host and which are critical. */
module Verdicts {
  import opened Reports
  import opened Scoring

  /** A finding that alone forces exit code 3. */
  predicate Compromises(f: Finding) {
    f.suppressed.None? &&
    f.id in {"SEC-015", "SEC-016", "SEC-017", "SEC-019", "SEC-020", "SEC-021", "SEC-022", "SEC-023",
             "SEC-024", "SEC-028", "SEC-040", "DOCK-010", "SEC-042", "SEC-043", "SEC-052", "SEC-055"}
  }

  /** A finding that alone is critical. */
  predicate IsCritical(f: Finding) {
    f.suppressed.None? &&
    f.id in {"SEC-001", "SEC-002", "SEC-003", "SEC-004", "REL-001", "REL-002", "SEC-005", "SEC-012", "HYG-001"}
  }

  predicate IsSysctl(f: Finding) { f.suppressed.None? && f.id == "SEC-007" }

  ghost predicate SomeCompromise(fs: seq<Finding>) { exists i :: 0 <= i < |fs| && Compromises(fs[i]) }

  ghost predicate SomeCritical(fs: seq<Finding>) {
    || (exists i :: 0 <= i < |fs| && IsCritical(fs[i]))
    || Three(fs)
  }

  lemma IdListsAre(id: string)
    ensures id in COMPROMISE_IDS <==>
      id in {"SEC-015", "SEC-016", "SEC-017", "SEC-019", "SEC-020", "SEC-021", "SEC-022", "SEC-023",
             "SEC-024", "SEC-028", "SEC-040", "DOCK-010", "SEC-042", "SEC-043", "SEC-052", "SEC-055"}
    ensures id in CRITICAL_IDS <==>
      id in {"SEC-001", "SEC-002", "SEC-003", "SEC-004", "REL-001", "REL-002", "SEC-005", "SEC-012", "HYG-001"}
  {
  }

  lemma HasOneOf(fs: seq<Finding>, ids: seq<string>)
    ensures (exists i :: 0 <= i < |ids| && Has(fs, ids[i])) <==>
            (exists i :: 0 <= i < |fs| && fs[i].suppressed.None? && fs[i].id in ids)
  {
    if i :| 0 <= i < |ids| && Has(fs, ids[i]) {
      var j :| 0 <= j < |fs| && fs[j].id == ids[i] && fs[j].suppressed.None?;
      assert fs[j].id in ids;
    }
    if j :| 0 <= j < |fs| && fs[j].suppressed.None? && fs[j].id in ids {
      var i :| 0 <= i < |ids| && ids[i] == fs[j].id;
      assert Has(fs, ids[i]);
    }
  }

  // ---- Three live findings of one kind

  lemma {:induction false} OneAtLeast(fs: seq<Finding>)
    ensures SysctlCount(fs) >= 1 <==> exists i :: 0 <= i < |fs| && IsSysctl(fs[i])
    decreases |fs|
  {
    if fs != [] {
      OneAtLeast(fs[1..]);
      assert forall i :: 0 < i < |fs| ==> fs[i] == fs[1..][i - 1];
      if i :| 0 <= i < |fs| - 1 && IsSysctl(fs[1..][i]) {
        assert IsSysctl(fs[i + 1]);
      }
    }
  }

  lemma {:induction false} TwoAtLeast(fs: seq<Finding>)
    ensures SysctlCount(fs) >= 2 <==> Two(fs)
    decreases |fs|
  {
    if fs != [] {
      var rest := fs[1..];
      OneAtLeast(rest);
      TwoAtLeast(rest);
      assert forall i :: 0 < i < |fs| ==> fs[i] == rest[i - 1];
      if i, j :| 0 <= i < j < |rest| && IsSysctl(rest[i]) && IsSysctl(rest[j]) {
        assert IsSysctl(fs[i + 1]) && IsSysctl(fs[j + 1]);
      }
      if i :| 0 <= i < |rest| && IsSysctl(rest[i]) && IsSysctl(fs[0]) {
        assert IsSysctl(fs[i + 1]);
      }
      if i, j :| 0 <= i < j < |fs| && IsSysctl(fs[i]) && IsSysctl(fs[j]) {
        assert IsSysctl(rest[j - 1]);
        if i > 0 {
          assert IsSysctl(rest[i - 1]);
        }
      }
    }
  }

  ghost predicate Two(fs: seq<Finding>) {
    exists i, j :: 0 <= i < j < |fs| && IsSysctl(fs[i]) && IsSysctl(fs[j])
  }

  ghost predicate Three(fs: seq<Finding>) {
    exists i: nat, j: nat, k: nat :: At(fs, i, j, k)
  }

  /** Three live findings at these places. */
  predicate At(fs: seq<Finding>, i: nat, j: nat, k: nat) {
    i < j < k < |fs| && IsSysctl(fs[i]) && IsSysctl(fs[j]) && IsSysctl(fs[k])
  }

  lemma ThreeCons(f: Finding, rest: seq<Finding>)
    ensures Three([f] + rest) <==> Three(rest) || (IsSysctl(f) && Two(rest))
  {
    hide IsSysctl;
    var fs := [f] + rest;
    if Three(rest) {
      var i: nat, j: nat, k: nat :| At(rest, i, j, k);
      assert At(fs, i + 1, j + 1, k + 1);
    }
    if IsSysctl(f) && Two(rest) {
      var i: nat, j: nat :| i < j < |rest| && IsSysctl(rest[i]) && IsSysctl(rest[j]);
      assert At(fs, 0, i + 1, j + 1);
    }
    if Three(fs) {
      var i: nat, j: nat, k: nat :| At(fs, i, j, k);
      assert fs[j] == rest[j - 1] && fs[k] == rest[k - 1];
      if i > 0 {
        assert At(rest, i - 1, j - 1, k - 1);
      } else {
        assert Two(rest) by {
          assert IsSysctl(rest[j - 1]) && IsSysctl(rest[k - 1]);
        }
      }
    }
  }

  lemma {:induction false} ThreeAtLeast(fs: seq<Finding>)
    ensures SysctlCount(fs) >= 3 <==> Three(fs)
    decreases |fs|
  {
    hide Two, Three;
    if fs == [] {
      NoneIsThree();
    } else {
      assert fs == [fs[0]] + fs[1..];
      TwoAtLeast(fs[1..]);
      ThreeAtLeast(fs[1..]);
      ThreeCons(fs[0], fs[1..]);
    }
  }

  lemma NoneIsThree()
    ensures !Three([])
  {
  }

  /** The verdict on any list of findings, by their ids and suppressions. */
  lemma VerdictMeaning(fs: seq<Finding>)
    ensures VerdictOf(fs) == Compromised <==> SomeCompromise(fs)
    ensures VerdictOf(fs) == Critical <==> !SomeCompromise(fs) && SomeCritical(fs)
    ensures VerdictOf(fs) == Clean <==> !SomeCompromise(fs) && !SomeCritical(fs)
  {
    hide Has, SysctlCount, Live;
    VerdictReadsLive(fs);
    HasOneOf(fs, COMPROMISE_IDS);
    HasOneOf(fs, CRITICAL_IDS);
    ThreeAtLeast(fs);
    forall i | 0 <= i < |fs|
      ensures Compromises(fs[i]) <==> fs[i].suppressed.None? && fs[i].id in COMPROMISE_IDS
      ensures IsCritical(fs[i]) <==> fs[i].suppressed.None? && fs[i].id in CRITICAL_IDS
    {
      IdListsAre(fs[i].id);
    }
  }
}
