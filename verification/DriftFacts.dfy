/**
 What the list of changes the comparison returns says: it loses nothing of the string sets, swaps with
 its arguments, and flatters no keyed entry.
 */
module DriftFacts {
  import opened Wrappers
  import opened Changes
  import opened Lists
  import opened Drift

  lemma FieldsDiffer()
    ensures UID_ZERO != KEYS_WRITABLE && UID_ZERO != SETUID_FILES && UID_ZERO != FILE_CAPS && UID_ZERO != HARDENING
    ensures KEYS_WRITABLE != SETUID_FILES && KEYS_WRITABLE != FILE_CAPS && KEYS_WRITABLE != HARDENING
    ensures SETUID_FILES != FILE_CAPS && SETUID_FILES != HARDENING && FILE_CAPS != HARDENING
  {
    assert |UID_ZERO| != |KEYS_WRITABLE| && |UID_ZERO| != |SETUID_FILES| && |UID_ZERO| != |FILE_CAPS|;
    assert |KEYS_WRITABLE| != |SETUID_FILES| && |KEYS_WRITABLE| != |FILE_CAPS| && |SETUID_FILES| != |FILE_CAPS|;
    assert |HARDENING| == |FILE_CAPS| && HARDENING[9] == 's' && FILE_CAPS[9] == 'f';
  }

  // ---- Which section an entry comes from

  ghost predicate From(keys: set<string>, f: string -> seq<Change>, c: Change) {
    exists k :: k in keys && c in f(k)
  }

  ghost predicate FromSetuid(b: Snapshot, a: Snapshot, c: Change) {
    var (bs, as_) := (LastOf(b.setuidFiles), LastOf(a.setuidFiles));
    From(as_.Keys, SetuidNow(bs, as_), c) || From(bs.Keys, SetuidGone(bs, as_), c)
  }

  ghost predicate FromCaps(b: Snapshot, a: Snapshot, l: Labels, c: Change) {
    var (bc, ac) := (LastOf(b.fileCaps), LastOf(a.fileCaps));
    From(ac.Keys, CapsNow(bc, ac, l.caps), c) || From(bc.Keys, CapsGone(bc, ac, l.caps), c)
  }

  ghost predicate FromHardening(b: Snapshot, a: Snapshot, l: Labels, c: Change) {
    var (bh, ah) := (LastOf(b.hardening), LastOf(a.hardening));
    From(ah.Keys, HardeningNow(bh, ah, l.join), c) || From(bh.Keys, HardeningGone(bh, ah, l.join), c)
  }

  lemma TwoGathers(keys: set<string>, f: string -> seq<Change>, more: set<string>, g: string -> seq<Change>, c: Change)
    ensures c in Gather(keys, f) + Gather(more, g) <==> From(keys, f, c) || From(more, g, c)
  {
    InGather(keys, f, c);
    InGather(more, g, c);
  }

  lemma InEight(p: multiset<Change>, q: multiset<Change>, r: multiset<Change>, s: multiset<Change>,
                t: multiset<Change>, u: multiset<Change>, v: multiset<Change>, w: multiset<Change>, c: Change)
    ensures c in p + q + r + s + t + u + v + w
       <==> c in p || c in q || c in r + s || c in t + u || c in v + w
  {
  }

  /** Every entry comes from one section, and every entry of a section is there. */
  lemma InDiff(cs: seq<Change>, b: Snapshot, a: Snapshot, l: Labels, c: Change)
    requires IsDiff(cs, b, a, l)
    ensures c in cs <==>
      || c in StrSetDiff(UID_ZERO, Elements(b.rootUsers), Elements(a.rootUsers))
      || c in StrSetDiff(KEYS_WRITABLE, Elements(b.writableKeys), Elements(a.writableKeys))
      || FromSetuid(b, a, c) || FromCaps(b, a, l, c) || FromHardening(b, a, l, c)
  {
    hide Gather, StrSetDiff, LastOf, SetuidNow, SetuidGone, CapsNow, CapsGone, HardeningNow, HardeningGone, Elements, From;
    var (bs, as_) := (LastOf(b.setuidFiles), LastOf(a.setuidFiles));
    var (bc, ac) := (LastOf(b.fileCaps), LastOf(a.fileCaps));
    var (bh, ah) := (LastOf(b.hardening), LastOf(a.hardening));
    assert c in cs <==> c in multiset(cs);
    TwoGathers(as_.Keys, SetuidNow(bs, as_), bs.Keys, SetuidGone(bs, as_), c);
    TwoGathers(ac.Keys, CapsNow(bc, ac, l.caps), bc.Keys, CapsGone(bc, ac, l.caps), c);
    TwoGathers(ah.Keys, HardeningNow(bh, ah, l.join), bh.Keys, HardeningGone(bh, ah, l.join), c);
    InEight(StrSetDiff(UID_ZERO, Elements(b.rootUsers), Elements(a.rootUsers)),
            StrSetDiff(KEYS_WRITABLE, Elements(b.writableKeys), Elements(a.writableKeys)),
            Gather(as_.Keys, SetuidNow(bs, as_)), Gather(bs.Keys, SetuidGone(bs, as_)),
            Gather(ac.Keys, CapsNow(bc, ac, l.caps)), Gather(bc.Keys, CapsGone(bc, ac, l.caps)),
            Gather(ah.Keys, HardeningNow(bh, ah, l.join)), Gather(bh.Keys, HardeningGone(bh, ah, l.join)), c);
  }

  lemma SetField(field: string, before: set<string>, after: set<string>, c: Change)
    ensures c in StrSetDiff(field, before, after) ==> c.field == field && (c.before.None? || c.after.None?)
  {
    OneAppeared(after - before, field, c);
    OneVanished(before - after, field, c);
  }

  lemma KeyedFields(b: Snapshot, a: Snapshot, l: Labels, c: Change)
    ensures FromSetuid(b, a, c) ==> c.field == SETUID_FILES
    ensures FromCaps(b, a, l, c) ==> c.field == FILE_CAPS
    ensures FromHardening(b, a, l, c) ==> c.field == HARDENING
  {
    hide FromSetuid, FromCaps, FromHardening;
    SetuidField(b, a, c);
    CapsField(b, a, l, c);
    HardeningField(b, a, l, c);
  }

  lemma SetuidField(b: Snapshot, a: Snapshot, c: Change)
    ensures FromSetuid(b, a, c) ==> c.field == SETUID_FILES
  {
    hide LastOf, BitsLabel;
  }

  lemma CapsField(b: Snapshot, a: Snapshot, l: Labels, c: Change)
    ensures FromCaps(b, a, l, c) ==> c.field == FILE_CAPS
  {
    hide LastOf, Escalated;
  }

  lemma HardeningField(b: Snapshot, a: Snapshot, l: Labels, c: Change)
    ensures FromHardening(b, a, l, c) ==> c.field == HARDENING
  {
    hide LastOf;
  }

  // ---- Nothing is lost of the string sets

  /** In the returned list the entries of a string-set field are those of its section. */
  lemma SetEntries(cs: seq<Change>, b: Snapshot, a: Snapshot, l: Labels, c: Change)
    requires IsDiff(cs, b, a, l)
    ensures c.field == UID_ZERO ==>
      (c in cs <==> c in StrSetDiff(UID_ZERO, Elements(b.rootUsers), Elements(a.rootUsers)))
    ensures c.field == KEYS_WRITABLE ==>
      (c in cs <==> c in StrSetDiff(KEYS_WRITABLE, Elements(b.writableKeys), Elements(a.writableKeys)))
  {
    hide StrSetDiff, IsDiff, FromSetuid, FromCaps, FromHardening;
    InDiff(cs, b, a, l, c);
    SetField(UID_ZERO, Elements(b.rootUsers), Elements(a.rootUsers), c);
    SetField(KEYS_WRITABLE, Elements(b.writableKeys), Elements(a.writableKeys), c);
    KeyedFields(b, a, l, c);
    FieldsDiffer();
  }

  ghost predicate Reports(cs: seq<Change>, field: string, before: set<string>, after: set<string>, x: string) {
    && (Adds(multiset(cs), field, x) <==> x in after - before)
    && (Removes(multiset(cs), field, x) <==> x in before - after)
  }

  lemma DiffReports(cs: seq<Change>, b: Snapshot, a: Snapshot, l: Labels, x: string)
    requires IsDiff(cs, b, a, l)
    ensures Reports(cs, UID_ZERO, Elements(b.rootUsers), Elements(a.rootUsers), x)
    ensures Reports(cs, KEYS_WRITABLE, Elements(b.writableKeys), Elements(a.writableKeys), x)
  {
    hide StrSetDiff, IsDiff, Elements;
    forall c: Change
      ensures c.field == UID_ZERO ==>
        (c in multiset(cs) <==> c in StrSetDiff(UID_ZERO, Elements(b.rootUsers), Elements(a.rootUsers)))
      ensures c.field == KEYS_WRITABLE ==>
        (c in multiset(cs) <==> c in StrSetDiff(KEYS_WRITABLE, Elements(b.writableKeys), Elements(a.writableKeys)))
    {
      SetEntries(cs, b, a, l, c);
      assert c in cs <==> c in multiset(cs);
    }
    StrSetDiffFacts(UID_ZERO, Elements(b.rootUsers), Elements(a.rootUsers), x);
    StrSetDiffFacts(KEYS_WRITABLE, Elements(b.writableKeys), Elements(a.writableKeys), x);
  }

  /** The string sets of the later snapshot can be rebuilt from the earlier one and the returned diff. */
  lemma DiffRebuilds(cs: seq<Change>, b: Snapshot, a: Snapshot, l: Labels, x: string)
    requires IsDiff(cs, b, a, l)
    ensures x in a.rootUsers <==>
      (x in b.rootUsers && !Removes(multiset(cs), UID_ZERO, x)) || Adds(multiset(cs), UID_ZERO, x)
    ensures x in a.writableKeys <==>
      (x in b.writableKeys && !Removes(multiset(cs), KEYS_WRITABLE, x)) || Adds(multiset(cs), KEYS_WRITABLE, x)
  {
    hide IsDiff, Adds, Removes;
    DiffReports(cs, b, a, l, x);
  }

  /** Comparing the other way round swaps what is added with what is removed. */
  lemma DiffSwaps(cs: seq<Change>, ds: seq<Change>, b: Snapshot, a: Snapshot, l: Labels, x: string)
    requires IsDiff(cs, b, a, l) && IsDiff(ds, a, b, l)
    ensures Adds(multiset(cs), UID_ZERO, x) <==> Removes(multiset(ds), UID_ZERO, x)
    ensures Removes(multiset(cs), UID_ZERO, x) <==> Adds(multiset(ds), UID_ZERO, x)
    ensures Adds(multiset(cs), KEYS_WRITABLE, x) <==> Removes(multiset(ds), KEYS_WRITABLE, x)
    ensures Removes(multiset(cs), KEYS_WRITABLE, x) <==> Adds(multiset(ds), KEYS_WRITABLE, x)
  {
    hide IsDiff, Adds, Removes, Elements;
    DiffReports(cs, b, a, l, x);
    DiffReports(ds, a, b, l, x);
  }

  // ---- Nothing is flattered

  predicate BitsWithin(a: Setuid, b: Setuid) { (a.setuid ==> b.setuid) && (a.setgid ==> b.setgid) }

  /** The entry of a key held by both snapshots, as each section words it. */
  function SetuidEntry(path: string, b: Setuid, a: Setuid, s: Severity): Change {
    Change(SETUID_FILES, Some(path + " was " + BitsLabel(b)), Some("now " + BitsLabel(a)), s)
  }

  function CapsEntry(path: string, b: Caps, a: Caps, l: Labels, s: Severity): Change {
    Change(FILE_CAPS, Some(path + ": " + l.caps(b.permitted, b.inheritable)), Some(l.caps(a.permitted, a.inheritable)), s)
  }

  function HardeningEntry(unit: string, b: set<string>, a: set<string>, l: Labels, s: Severity): Change {
    Change(HARDENING, Some(unit + " — missing " + l.join(b)), Some(unit + " — missing " + l.join(a)), s)
  }

  ghost predicate SetuidLoss(b: map<string, Setuid>, a: map<string, Setuid>, path: string, c: Change) {
    path in b && path in a && a[path] != b[path] && BitsWithin(a[path], b[path]) && c == SetuidEntry(path, b[path], a[path], Improved)
  }

  ghost predicate CapsLoss(b: map<string, Caps>, a: map<string, Caps>, l: Labels, path: string, c: Change) {
    path in b && path in a && a[path] != b[path] && CapsWithin(a[path], b[path]) && c == CapsEntry(path, b[path], a[path], l, Improved)
  }

  ghost predicate HardeningLoss(b: map<string, set<string>>, a: map<string, set<string>>, l: Labels, unit: string, c: Change) {
    unit in b && unit in a && a[unit] < b[unit] && c == HardeningEntry(unit, b[unit], a[unit], l, Improved)
  }

  /** An Improved entry with both sides in the returned list names a key that strictly lost something. */
  lemma ImprovedIsStrictLoss(cs: seq<Change>, b: Snapshot, a: Snapshot, l: Labels, c: Change)
    requires IsDiff(cs, b, a, l) && c in cs
    requires c.severity.Improved? && c.before.Some? && c.after.Some?
    ensures || (exists path :: SetuidLoss(LastOf(b.setuidFiles), LastOf(a.setuidFiles), path, c))
            || (exists path :: CapsLoss(LastOf(b.fileCaps), LastOf(a.fileCaps), l, path, c))
            || (exists unit :: HardeningLoss(LastOf(b.hardening), LastOf(a.hardening), l, unit, c))
  {
    hide IsDiff, StrSetDiff, LastOf, SetuidLoss, CapsLoss, HardeningLoss;
    InDiff(cs, b, a, l, c);
    SetField(UID_ZERO, Elements(b.rootUsers), Elements(a.rootUsers), c);
    SetField(KEYS_WRITABLE, Elements(b.writableKeys), Elements(a.writableKeys), c);
    if FromSetuid(b, a, c) {
      var path := ImprovedSetuid(b, a, c);
    } else if FromCaps(b, a, l, c) {
      var path := ImprovedCaps(b, a, l, c);
    } else {
      var unit := ImprovedHardening(b, a, l, c);
    }
  }

  lemma ImprovedSetuid(b: Snapshot, a: Snapshot, c: Change) returns (path: string)
    requires FromSetuid(b, a, c) && c.severity.Improved? && c.before.Some? && c.after.Some?
    ensures SetuidLoss(LastOf(b.setuidFiles), LastOf(a.setuidFiles), path, c)
  {
    hide LastOf, BitsLabel;
    var (bs, as_) := (LastOf(b.setuidFiles), LastOf(a.setuidFiles));
    path :| path in as_.Keys && c in SetuidNow(bs, as_)(path);
  }

  lemma ImprovedCaps(b: Snapshot, a: Snapshot, l: Labels, c: Change) returns (path: string)
    requires FromCaps(b, a, l, c) && c.severity.Improved? && c.before.Some? && c.after.Some?
    ensures CapsLoss(LastOf(b.fileCaps), LastOf(a.fileCaps), l, path, c)
  {
    hide LastOf, Escalated, CapsWithin;
    var (bc, ac) := (LastOf(b.fileCaps), LastOf(a.fileCaps));
    path :| path in ac.Keys && c in CapsNow(bc, ac, l.caps)(path);
    if path in bc {
      EscalatedOrWithin(bc[path], ac[path]);
    }
  }

  lemma ImprovedHardening(b: Snapshot, a: Snapshot, l: Labels, c: Change) returns (unit: string)
    requires FromHardening(b, a, l, c) && c.severity.Improved? && c.before.Some? && c.after.Some?
    ensures HardeningLoss(LastOf(b.hardening), LastOf(a.hardening), l, unit, c)
  {
    hide LastOf;
    var (bh, ah) := (LastOf(b.hardening), LastOf(a.hardening));
    unit :| unit in ah.Keys && c in HardeningNow(bh, ah, l.join)(unit);
  }

  function Judgement(within: bool): Severity { if within then Improved else Degraded }

  /**
   Every key held by both snapshots whose value changed has its own entry in the returned list:
   Improved if the new value is within the old one, Degraded if it gained anything.
   */
  lemma ChangedKeysAreJudged(cs: seq<Change>, b: Snapshot, a: Snapshot, l: Labels)
    requires IsDiff(cs, b, a, l)
    ensures var (bs, as_) := (LastOf(b.setuidFiles), LastOf(a.setuidFiles));
            forall p :: p in bs && p in as_ && bs[p] != as_[p] ==>
              SetuidEntry(p, bs[p], as_[p], Judgement(BitsWithin(as_[p], bs[p]))) in cs
    ensures var (bc, ac) := (LastOf(b.fileCaps), LastOf(a.fileCaps));
            forall p :: p in bc && p in ac && bc[p] != ac[p] ==>
              CapsEntry(p, bc[p], ac[p], l, Judgement(CapsWithin(ac[p], bc[p]))) in cs
    ensures var (bh, ah) := (LastOf(b.hardening), LastOf(a.hardening));
            forall u :: u in bh && u in ah && bh[u] != ah[u] ==>
              HardeningEntry(u, bh[u], ah[u], l, Judgement(ah[u] <= bh[u])) in cs
  {
    hide IsDiff, StrSetDiff, LastOf, Escalated, CapsWithin, BitsLabel;
    var (bs, as_) := (LastOf(b.setuidFiles), LastOf(a.setuidFiles));
    var (bc, ac) := (LastOf(b.fileCaps), LastOf(a.fileCaps));
    var (bh, ah) := (LastOf(b.hardening), LastOf(a.hardening));
    forall p | p in bs && p in as_ && bs[p] != as_[p]
      ensures SetuidEntry(p, bs[p], as_[p], Judgement(BitsWithin(as_[p], bs[p]))) in cs
    {
      var c := SetuidEntry(p, bs[p], as_[p], Judgement(BitsWithin(as_[p], bs[p])));
      assert SetuidNow(bs, as_)(p) == [c];
      InDiff(cs, b, a, l, c);
    }
    forall p | p in bc && p in ac && bc[p] != ac[p]
      ensures CapsEntry(p, bc[p], ac[p], l, Judgement(CapsWithin(ac[p], bc[p]))) in cs
    {
      var c := CapsEntry(p, bc[p], ac[p], l, Judgement(CapsWithin(ac[p], bc[p])));
      EscalatedOrWithin(bc[p], ac[p]);
      assert CapsNow(bc, ac, l.caps)(p) == [c];
      InDiff(cs, b, a, l, c);
    }
    forall u | u in bh && u in ah && bh[u] != ah[u]
      ensures HardeningEntry(u, bh[u], ah[u], l, Judgement(ah[u] <= bh[u])) in cs
    {
      var c := HardeningEntry(u, bh[u], ah[u], l, Judgement(ah[u] <= bh[u]));
      assert HardeningNow(bh, ah, l.join)(u) == [c];
      InDiff(cs, b, a, l, c);
    }
  }

  /** The returned list is empty exactly if the snapshots agree on everything the comparison looks at. */
  lemma EmptyDiffExactly(cs: seq<Change>, b: Snapshot, a: Snapshot, l: Labels)
    requires IsDiff(cs, b, a, l)
    ensures cs == [] <==> Agree(b, a)
  {
    hide AllChanges, Agree;
    NoDriftExactly(b, a, l);
    assert |multiset(cs)| == |cs|;
  }
}
