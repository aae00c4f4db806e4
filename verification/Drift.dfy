/** Capability masks as sets of bits. */
module Masks {
  /** Some bit of `now` is not in `was`. */
  predicate Gained(was: bv64, now: bv64) { (now & !was) != 0 }

  predicate Within(now: bv64, was: bv64) { now & was == now }

  lemma NothingGained(was: bv64, now: bv64)
    requires !Gained(was, now)
    ensures Within(now, was)
  {
  }

  lemma WithinGainsNothing(was: bv64, now: bv64)
    requires Within(now, was)
    ensures !Gained(was, now)
  {
  }

  lemma GainedOrWithin(was: bv64, now: bv64)
    ensures Gained(was, now) <==> !Within(now, was)
  {
    hide Gained, Within;
    if Within(now, was) {
      WithinGainsNothing(was, now);
    }
    if !Gained(was, now) {
      NothingGained(was, now);
    }
  }
}

/**
 Snapshot drift: the sections of the comparison that difference sets and keyed maps. The maps and
 sets are iterated in arbitrary order, and the final sort makes the result independent of it.
 */
module Drift {
  import opened Wrappers
  import opened Changes
  import opened Lists
  import Masks

  // The fields of the report the modelled sections write.
  const UID_ZERO := "security.account_hygiene.duplicate_uid_zero"
  const KEYS_WRITABLE := "security.account_hygiene.authorized_keys_writable"
  const SETUID_FILES := "security.setuid_files"
  const FILE_CAPS := "security.file_capabilities"
  const HARDENING := "security.systemd_hardening"

  // ---- Iterating a set in whatever order it comes

  /** The changes the keys of a set give rise to, counted with multiplicity. */
  ghost function Gather(keys: set<string>, f: string -> seq<Change>): multiset<Change> {
    if keys == {} then multiset{}
    else
      var k :| k in keys;
      multiset(f(k)) + Gather(keys - {k}, f)
  }

  lemma {:induction false} GatherAny(keys: set<string>, f: string -> seq<Change>, k: string)
    requires k in keys
    ensures Gather(keys, f) == multiset(f(k)) + Gather(keys - {k}, f)
    decreases keys
  {
    var p :| p in keys && Gather(keys, f) == multiset(f(p)) + Gather(keys - {p}, f);
    if p != k {
      GatherAny(keys - {p}, f, k);
      GatherAny(keys - {k}, f, p);
      assert keys - {p} - {k} == keys - {k} - {p};
    }
  }

  /** One pass over a hash map or set, pushing what each key yields. The order is not determined. */
  method PushForEach(out: seq<Change>, keys: set<string>, f: string -> seq<Change>) returns (r: seq<Change>)
    ensures multiset(r) == multiset(out) + Gather(keys, f)
  {
    r := out;
    var todo := keys;
    while todo != {}
      invariant multiset(out) + Gather(keys, f) == multiset(r) + Gather(todo, f)
      decreases todo
    {
      var k :| k in todo;
      GatherAny(todo, f, k);
      r := r + f(k);
      todo := todo - {k};
    }
  }

  lemma {:induction false} InGather(keys: set<string>, f: string -> seq<Change>, c: Change)
    ensures c in Gather(keys, f) <==> exists k :: k in keys && c in f(k)
    decreases keys
  {
    if keys != {} {
      var k :| k in keys && Gather(keys, f) == multiset(f(k)) + Gather(keys - {k}, f);
      InGather(keys - {k}, f, c);
    }
  }

  // ---- Sets of strings

  function Appeared(field: string): string -> seq<Change> { x => [Change(field, None, Some(x), Degraded)] }

  function Vanished(field: string): string -> seq<Change> { x => [Change(field, Some(x), None, Improved)] }

  /** Appearance is degraded, disappearance improved. */
  ghost function StrSetDiff(field: string, before: set<string>, after: set<string>): multiset<Change> {
    Gather(after - before, Appeared(field)) + Gather(before - after, Vanished(field))
  }

  method DiffStrSet(out: seq<Change>, field: string, before: seq<string>, after: seq<string>) returns (r: seq<Change>)
    ensures multiset(r) == multiset(out) + StrSetDiff(field, Elements(before), Elements(after))
  {
    var b, a := Elements(before), Elements(after);
    r := PushForEach(out, a - b, Appeared(field));
    r := PushForEach(r, b - a, Vanished(field));
  }

  ghost predicate Removes(cs: multiset<Change>, field: string, x: string) {
    exists c :: c in cs && c.field == field && c.before == Some(x) && c.after.None?
  }

  ghost predicate Adds(cs: multiset<Change>, field: string, x: string) {
    exists c :: c in cs && c.field == field && c.after == Some(x) && c.before.None?
  }

  lemma OneAppeared(keys: set<string>, field: string, c: Change)
    ensures c in Gather(keys, Appeared(field)) <==> c == Change(field, None, c.after, Degraded) && c.after.Some? && c.after.value in keys
  {
    InGather(keys, Appeared(field), c);
    assert c.after.Some? ==> Appeared(field)(c.after.value) == [Change(field, None, c.after, Degraded)];
  }

  lemma OneVanished(keys: set<string>, field: string, c: Change)
    ensures c in Gather(keys, Vanished(field)) <==> c == Change(field, c.before, None, Improved) && c.before.Some? && c.before.value in keys
  {
    InGather(keys, Vanished(field), c);
    assert c.before.Some? ==> Vanished(field)(c.before.value) == [Change(field, c.before, None, Improved)];
  }

  lemma StrSetDiffFacts(field: string, before: set<string>, after: set<string>, x: string)
    ensures Adds(StrSetDiff(field, before, after), field, x) <==> x in after - before
    ensures Removes(StrSetDiff(field, before, after), field, x) <==> x in before - after
  {
    hide Gather, Appeared, Vanished;
    var cs := StrSetDiff(field, before, after);
    forall c ensures c in cs <==>
      || (c == Change(field, None, c.after, Degraded) && c.after.Some? && c.after.value in after - before)
      || (c == Change(field, c.before, None, Improved) && c.before.Some? && c.before.value in before - after)
    {
      OneAppeared(after - before, field, c);
      OneVanished(before - after, field, c);
    }
    assert x in after - before ==> Change(field, None, Some(x), Degraded) in cs;
    assert x in before - after ==> Change(field, Some(x), None, Improved) in cs;
  }

  // ---- Keyed sections

  datatype Setuid = Setuid(setuid: bool, setgid: bool)

  datatype Caps = Caps(permitted: bv64, inheritable: bv64, effective: bool)

  /** Collecting into a map: the last entry of a key stays. */
  function LastOf<T>(entries: seq<(string, T)>): map<string, T> {
    if entries == [] then map[]
    else
      var n := |entries| - 1;
      LastOf(entries[..n])[entries[n].0 := entries[n].1]
  }

  function BitsLabel(b: Setuid): string {
    if b.setuid && b.setgid then "setuid+setgid" else if b.setuid then "setuid" else if b.setgid then "setgid" else "no-bits"
  }

  /** Some bit is set after that was not set before. */
  predicate BitsGained(b: Setuid, a: Setuid) { (a.setuid && !b.setuid) || (a.setgid && !b.setgid) }

  predicate Escalated(b: Caps, a: Caps) {
    Masks.Gained(b.permitted, a.permitted) || Masks.Gained(b.inheritable, a.inheritable) || (a.effective && !b.effective)
  }

  function SetuidNow(before: map<string, Setuid>, after: map<string, Setuid>): string -> seq<Change> {
    path =>
      if path !in after then []
      else if path !in before then
        [Change(SETUID_FILES, None, Some(path + " newly " + BitsLabel(after[path])), Degraded)]
      else if before[path] != after[path] then
        [Change(SETUID_FILES, Some(path + " was " + BitsLabel(before[path])), Some("now " + BitsLabel(after[path])),
                if BitsGained(before[path], after[path]) then Degraded else Improved)]
      else []
  }

  function SetuidGone(before: map<string, Setuid>, after: map<string, Setuid>): string -> seq<Change> {
    path =>
      if path !in before || path in after then []
      else [Change(SETUID_FILES, Some(path + " was " + BitsLabel(before[path])), None, Improved)]
  }

  /** The capability names of the two masks; their rendering stays abstract. */
  type CapsLabel = (bv64, bv64) -> string

  function CapsNow(before: map<string, Caps>, after: map<string, Caps>, render: CapsLabel): string -> seq<Change> {
    path =>
      if path !in after then []
      else
        var a := after[path];
        var now := render(a.permitted, a.inheritable);
        if path !in before then [Change(FILE_CAPS, None, Some(path + " gained caps: " + now), Degraded)]
        else
          var b := before[path];
          if b != a then
            [Change(FILE_CAPS, Some(path + ": " + render(b.permitted, b.inheritable)), Some(now),
                    if Escalated(b, a) then Degraded else Improved)]
          else []
  }

  function CapsGone(before: map<string, Caps>, after: map<string, Caps>, render: CapsLabel): string -> seq<Change> {
    path =>
      if path !in before || path in after then []
      else
        var b := before[path];
        [Change(FILE_CAPS, Some(path + " had caps: " + render(b.permitted, b.inheritable)), None, Improved)]
  }

  /** A set of directives joined by commas; stays abstract. */
  type SetLabel = set<string> -> string

  function HardeningNow(before: map<string, set<string>>, after: map<string, set<string>>, join: SetLabel): string -> seq<Change> {
    unit =>
      if unit !in after then []
      else if unit !in before then
        [Change(HARDENING, None, Some(unit + " below baseline — missing " + join(after[unit])), Degraded)]
      else if before[unit] != after[unit] then
        [Change(HARDENING, Some(unit + " — missing " + join(before[unit])), Some(unit + " — missing " + join(after[unit])),
                if !(after[unit] <= before[unit]) then Degraded else Improved)]
      else []
  }

  /** A unit that left the list was hardened or removed, which the scanner cannot tell apart. */
  function HardeningGone(before: map<string, set<string>>, after: map<string, set<string>>, join: SetLabel): string -> seq<Change> {
    unit =>
      if unit !in before || unit in after then []
      else [Change(HARDENING, Some(unit + " was below baseline — missing " + join(before[unit])), None, Changed)]
  }

  // ---- Containment of capability sets

  predicate CapsWithin(a: Caps, b: Caps) {
    Masks.Within(a.permitted, b.permitted) && Masks.Within(a.inheritable, b.inheritable) && (a.effective ==> b.effective)
  }

  lemma EscalatedOrWithin(b: Caps, a: Caps)
    ensures Escalated(b, a) <==> !CapsWithin(a, b)
  {
    Masks.GainedOrWithin(b.permitted, a.permitted);
    Masks.GainedOrWithin(b.inheritable, a.inheritable);
  }

  // ---- The whole comparison

  datatype Snapshot = Snapshot(
    hostname: string,
    riskScore: nat,
    rootUsers: seq<string>,
    writableKeys: seq<string>,
    setuidFiles: seq<(string, Setuid)>,
    fileCaps: seq<(string, Caps)>,
    hardening: seq<(string, set<string>)>)

  datatype Labels = Labels(caps: CapsLabel, join: SetLabel)

  ghost function AllChanges(b: Snapshot, a: Snapshot, l: Labels): multiset<Change> {
    var (bs, as_) := (LastOf(b.setuidFiles), LastOf(a.setuidFiles));
    var (bc, ac) := (LastOf(b.fileCaps), LastOf(a.fileCaps));
    var (bh, ah) := (LastOf(b.hardening), LastOf(a.hardening));
    StrSetDiff(UID_ZERO, Elements(b.rootUsers), Elements(a.rootUsers))
    + StrSetDiff(KEYS_WRITABLE, Elements(b.writableKeys), Elements(a.writableKeys))
    + Gather(as_.Keys, SetuidNow(bs, as_)) + Gather(bs.Keys, SetuidGone(bs, as_))
    + Gather(ac.Keys, CapsNow(bc, ac, l.caps)) + Gather(bc.Keys, CapsGone(bc, ac, l.caps))
    + Gather(ah.Keys, HardeningNow(bh, ah, l.join)) + Gather(bh.Keys, HardeningGone(bh, ah, l.join))
  }

  ghost predicate IsDiff(cs: seq<Change>, b: Snapshot, a: Snapshot, l: Labels) {
    SortedChanges(cs) && multiset(cs) == AllChanges(b, a, l)
  }

  method CompareReports(b: Snapshot, a: Snapshot, l: Labels) returns (changes: seq<Change>)
    ensures IsDiff(changes, b, a, l)
  {
    changes := [];
    changes := DiffStrSet(changes, UID_ZERO, b.rootUsers, a.rootUsers);
    changes := DiffStrSet(changes, KEYS_WRITABLE, b.writableKeys, a.writableKeys);
    var bs, as_ := LastOf(b.setuidFiles), LastOf(a.setuidFiles);
    changes := PushForEach(changes, as_.Keys, SetuidNow(bs, as_));
    changes := PushForEach(changes, bs.Keys, SetuidGone(bs, as_));
    var bc, ac := LastOf(b.fileCaps), LastOf(a.fileCaps);
    changes := PushForEach(changes, ac.Keys, CapsNow(bc, ac, l.caps));
    changes := PushForEach(changes, bc.Keys, CapsGone(bc, ac, l.caps));
    var bh, ah := LastOf(b.hardening), LastOf(a.hardening);
    changes := PushForEach(changes, ah.Keys, HardeningNow(bh, ah, l.join));
    changes := PushForEach(changes, bh.Keys, HardeningGone(bh, ah, l.join));
    changes := Sort(changes);
  }

  /** Whatever order the hash maps iterate in, there is one diff of two snapshots. */
  lemma DiffIsDetermined(x: seq<Change>, y: seq<Change>, b: Snapshot, a: Snapshot, l: Labels)
    requires IsDiff(x, b, a, l) && IsDiff(y, b, a, l)
    ensures x == y
  {
    SortIsCanonical(x, y);
  }

  lemma {:induction false} GatherNothing(keys: set<string>, f: string -> seq<Change>)
    ensures Gather(keys, f) == multiset{} <==> forall k :: k in keys ==> f(k) == []
    decreases keys
  {
    if keys != {} {
      var k :| k in keys && Gather(keys, f) == multiset(f(k)) + Gather(keys - {k}, f);
      GatherNothing(keys - {k}, f);
      assert |multiset(f(k))| == |f(k)|;
      assert forall x :: x in keys <==> x == k || x in keys - {k};
    }
  }

  lemma NoStrSetDrift(field: string, before: set<string>, after: set<string>)
    ensures StrSetDiff(field, before, after) == multiset{} <==> before == after
  {
    GatherNothing(after - before, Appeared(field));
    GatherNothing(before - after, Vanished(field));
    assert forall k :: Appeared(field)(k) != [] && Vanished(field)(k) != [];
    if before != after {
      var x :| (x in after - before) || (x in before - after);
    }
  }

  lemma NoMapDrift<T(!new)>(before: map<string, T>, after: map<string, T>, now: string -> seq<Change>, gone: string -> seq<Change>)
    requires forall k :: k in after ==> (now(k) == [] <==> k in before && before[k] == after[k])
    requires forall k :: k in before ==> (gone(k) == [] <==> k in after)
    ensures Gather(after.Keys, now) + Gather(before.Keys, gone) == multiset{} <==> before == after
  {
    GatherNothing(after.Keys, now);
    GatherNothing(before.Keys, gone);
  }

  /** The two snapshots say the same about everything the comparison looks at. */
  ghost predicate Agree(b: Snapshot, a: Snapshot) {
    && Elements(b.rootUsers) == Elements(a.rootUsers) && Elements(b.writableKeys) == Elements(a.writableKeys)
    && LastOf(b.setuidFiles) == LastOf(a.setuidFiles)
    && LastOf(b.fileCaps) == LastOf(a.fileCaps)
    && LastOf(b.hardening) == LastOf(a.hardening)
  }

  /** An empty diff means agreement, and agreement an empty diff. */
  lemma NoDriftExactly(b: Snapshot, a: Snapshot, l: Labels)
    ensures AllChanges(b, a, l) == multiset{} <==> Agree(b, a)
  {
    hide Gather, LastOf;
    var (bs, as_) := (LastOf(b.setuidFiles), LastOf(a.setuidFiles));
    var (bc, ac) := (LastOf(b.fileCaps), LastOf(a.fileCaps));
    var (bh, ah) := (LastOf(b.hardening), LastOf(a.hardening));
    NoStrSetDrift(UID_ZERO, Elements(b.rootUsers), Elements(a.rootUsers));
    NoStrSetDrift(KEYS_WRITABLE, Elements(b.writableKeys), Elements(a.writableKeys));
    NoMapDrift(bs, as_, SetuidNow(bs, as_), SetuidGone(bs, as_));
    NoMapDrift(bc, ac, CapsNow(bc, ac, l.caps), CapsGone(bc, ac, l.caps));
    NoMapDrift(bh, ah, HardeningNow(bh, ah, l.join), HardeningGone(bh, ah, l.join));
    EightParts(StrSetDiff(UID_ZERO, Elements(b.rootUsers), Elements(a.rootUsers)),
               StrSetDiff(KEYS_WRITABLE, Elements(b.writableKeys), Elements(a.writableKeys)),
               Gather(as_.Keys, SetuidNow(bs, as_)), Gather(bs.Keys, SetuidGone(bs, as_)),
               Gather(ac.Keys, CapsNow(bc, ac, l.caps)), Gather(bc.Keys, CapsGone(bc, ac, l.caps)),
               Gather(ah.Keys, HardeningNow(bh, ah, l.join)), Gather(bh.Keys, HardeningGone(bh, ah, l.join)));
  }

  lemma EightParts(p: multiset<Change>, q: multiset<Change>, r: multiset<Change>, s: multiset<Change>,
                   t: multiset<Change>, u: multiset<Change>, v: multiset<Change>, w: multiset<Change>)
    ensures p + q + r + s + t + u + v + w == multiset{}
       <==> p == multiset{} && q == multiset{} && r + s == multiset{} && t + u == multiset{} && v + w == multiset{}
  {
    assert |p + q + r + s + t + u + v + w| == |p| + |q| + |r| + |s| + |t| + |u| + |v| + |w|;
  }
}
