/**
 Every entry a comparison can return, written out: for which keys it appears, with which texts and
 which severity, and how many there are.
 */
module DriftEntries {
  import opened Wrappers
  import opened Changes
  import opened Ordering
  import opened Lists
  import Text
  import opened Drift
  import opened DriftFacts

  // ---- The value of a key

  /** The last entry of the key carries this value. */
  ghost predicate LastIs<T>(entries: seq<(string, T)>, k: string, v: T) {
    exists i :: 0 <= i < |entries| && entries[i] == (k, v) && forall j :: i < j < |entries| ==> entries[j].0 != k
  }

  ghost predicate Lacks<T>(entries: seq<(string, T)>, k: string) {
    forall i :: 0 <= i < |entries| ==> entries[i].0 != k
  }

  lemma {:induction false} LastOfExactly<T(!new)>(entries: seq<(string, T)>, k: string)
    ensures k in LastOf(entries) <==> !Lacks(entries, k)
    ensures k in LastOf(entries) ==> forall v :: LastIs(entries, k, v) <==> LastOf(entries)[k] == v
    ensures Lacks(entries, k) ==> forall v :: !LastIs(entries, k, v)
    decreases |entries|
  {
    if entries != [] {
      var n := |entries| - 1;
      var rest := entries[..n];
      LastOfExactly(rest, k);
      forall v ensures LastIs(entries, k, v) <==> if entries[n].0 == k then v == entries[n].1 else LastIs(rest, k, v) {
        LastIsSnoc(entries, k, v);
      }
      assert Lacks(entries, k) <==> Lacks(rest, k) && entries[n].0 != k;
    }
  }

  lemma LastIsSnoc<T>(entries: seq<(string, T)>, k: string, v: T)
    requires entries != []
    ensures var n := |entries| - 1;
            LastIs(entries, k, v) <==> if entries[n].0 == k then v == entries[n].1 else LastIs(entries[..n], k, v)
  {
    var n := |entries| - 1;
    var rest := entries[..n];
    if LastIs(entries, k, v) && entries[n].0 != k {
      var i :| 0 <= i < |entries| && entries[i] == (k, v) && forall j :: i < j < |entries| ==> entries[j].0 != k;
      assert rest[i] == (k, v);
    }
    if LastIs(rest, k, v) && entries[n].0 != k {
      var i :| 0 <= i < |rest| && rest[i] == (k, v) && forall j :: i < j < |rest| ==> rest[j].0 != k;
      assert entries[i] == (k, v);
    }
    if entries[n] == (k, v) {
      assert LastIs(entries, k, v);
    }
  }

  // ---- The entries, section by section

  /** An element of one list only: new ones degrade, lost ones improve. */
  ghost predicate SetEntry(field: string, b: seq<string>, a: seq<string>, c: Change) {
    || (exists x :: x in a && x !in b && c == Change(field, None, Some(x), Degraded))
    || (exists x :: x in b && x !in a && c == Change(field, Some(x), None, Improved))
  }

  /** The names of the bits that are set. */
  lemma BitsLabelNames(s: Setuid)
    ensures var names := (if s.setuid then ["setuid"] else []) + (if s.setgid then ["setgid"] else []);
            BitsLabel(s) == if names == [] then "no-bits" else Text.Join(names, "+")
  {
    assert ["setuid"] + ["setgid"] == ["setuid", "setgid"];
  }

  ghost predicate SetuidIs(b: seq<(string, Setuid)>, a: seq<(string, Setuid)>, path: string, c: Change) {
    var field := "security.setuid_files";
    || (exists now :: Lacks(b, path) && LastIs(a, path, now)
          && c == Change(field, None, Some(path + " newly " + BitsLabel(now)), Degraded))
    || (exists was :: LastIs(b, path, was) && Lacks(a, path)
          && c == Change(field, Some(path + " was " + BitsLabel(was)), None, Improved))
    || (exists was, now :: LastIs(b, path, was) && LastIs(a, path, now) && was != now
          && c == Change(field, Some(path + " was " + BitsLabel(was)), Some("now " + BitsLabel(now)),
                         if (now.setuid ==> was.setuid) && (now.setgid ==> was.setgid) then Improved else Degraded))
  }

  ghost predicate CapsAre(b: seq<(string, Caps)>, a: seq<(string, Caps)>, render: CapsLabel, path: string, c: Change) {
    var field := "security.file_capabilities";
    || (exists now :: Lacks(b, path) && LastIs(a, path, now)
          && c == Change(field, None, Some(path + " gained caps: " + render(now.permitted, now.inheritable)), Degraded))
    || (exists was :: LastIs(b, path, was) && Lacks(a, path)
          && c == Change(field, Some(path + " had caps: " + render(was.permitted, was.inheritable)), None, Improved))
    || (exists was, now :: LastIs(b, path, was) && LastIs(a, path, now) && was != now
          && c == Change(field, Some(path + ": " + render(was.permitted, was.inheritable)),
                         Some(render(now.permitted, now.inheritable)), if CapsWithin(now, was) then Improved else Degraded))
  }

  ghost predicate HardeningIs(b: seq<(string, set<string>)>, a: seq<(string, set<string>)>, join: SetLabel, unit: string, c: Change) {
    var field := "security.systemd_hardening";
    || (exists now :: Lacks(b, unit) && LastIs(a, unit, now)
          && c == Change(field, None, Some(unit + " below baseline — missing " + join(now)), Degraded))
    || (exists was :: LastIs(b, unit, was) && Lacks(a, unit)
          && c == Change(field, Some(unit + " was below baseline — missing " + join(was)), None, Severity.Changed))
    || (exists was, now :: LastIs(b, unit, was) && LastIs(a, unit, now) && was != now
          && c == Change(field, Some(unit + " — missing " + join(was)), Some(unit + " — missing " + join(now)),
                         if now <= was then Improved else Degraded))
  }

  lemma SetEntryExactly(field: string, b: seq<string>, a: seq<string>, c: Change)
    ensures c in StrSetDiff(field, Elements(b), Elements(a)) <==> SetEntry(field, b, a, c)
  {
    OneAppeared(Elements(a) - Elements(b), field, c);
    OneVanished(Elements(b) - Elements(a), field, c);
  }

  /** A keyed section yields, for some key, what it yields for that key. */
  lemma ByKey(keys: set<string>, now: string -> seq<Change>, were: set<string>, gone: string -> seq<Change>, c: Change)
    requires forall k :: k !in keys ==> now(k) == []
    requires forall k :: k !in were ==> gone(k) == []
    ensures From(keys, now, c) || From(were, gone, c) <==> exists k :: c in now(k) || c in gone(k)
  {
    if k :| c in now(k) || c in gone(k) {
      if c in now(k) {
        assert k in keys;
      } else {
        assert k in were;
      }
    }
  }

  lemma SetuidExactly(b: Snapshot, a: Snapshot, c: Change)
    ensures FromSetuid(b, a, c) <==> exists path :: SetuidIs(b.setuidFiles, a.setuidFiles, path, c)
  {
    hide LastOf, BitsLabel, SetuidNow, SetuidGone, SetuidIs, From;
    var (bs, as_) := (LastOf(b.setuidFiles), LastOf(a.setuidFiles));
    forall path
      ensures path !in as_ ==> SetuidNow(bs, as_)(path) == []
      ensures path !in bs ==> SetuidGone(bs, as_)(path) == []
      ensures c in SetuidNow(bs, as_)(path) || c in SetuidGone(bs, as_)(path)
         <==> SetuidIs(b.setuidFiles, a.setuidFiles, path, c)
    {
      SetuidOfKey(b, a, path, c);
    }
    ByKey(as_.Keys, SetuidNow(bs, as_), bs.Keys, SetuidGone(bs, as_), c);
  }

  lemma SetuidOfKey(b: Snapshot, a: Snapshot, path: string, c: Change)
    ensures var (bs, as_) := (LastOf(b.setuidFiles), LastOf(a.setuidFiles));
            && (path !in as_ ==> SetuidNow(bs, as_)(path) == [])
            && (path !in bs ==> SetuidGone(bs, as_)(path) == [])
            && (c in SetuidNow(bs, as_)(path) || c in SetuidGone(bs, as_)(path)
                <==> SetuidIs(b.setuidFiles, a.setuidFiles, path, c))
  {
    hide LastOf, BitsLabel, LastIs, Lacks;
    LastOfExactly(b.setuidFiles, path);
    LastOfExactly(a.setuidFiles, path);
  }

  lemma CapsExactly(b: Snapshot, a: Snapshot, l: Labels, c: Change)
    ensures FromCaps(b, a, l, c) <==> exists path :: CapsAre(b.fileCaps, a.fileCaps, l.caps, path, c)
  {
    hide LastOf, CapsNow, CapsGone, CapsAre, From;
    var (bc, ac) := (LastOf(b.fileCaps), LastOf(a.fileCaps));
    forall path
      ensures path !in ac ==> CapsNow(bc, ac, l.caps)(path) == []
      ensures path !in bc ==> CapsGone(bc, ac, l.caps)(path) == []
      ensures c in CapsNow(bc, ac, l.caps)(path) || c in CapsGone(bc, ac, l.caps)(path)
         <==> CapsAre(b.fileCaps, a.fileCaps, l.caps, path, c)
    {
      CapsOfKey(b, a, l, path, c);
    }
    ByKey(ac.Keys, CapsNow(bc, ac, l.caps), bc.Keys, CapsGone(bc, ac, l.caps), c);
  }

  lemma CapsOfKey(b: Snapshot, a: Snapshot, l: Labels, path: string, c: Change)
    ensures var (bc, ac) := (LastOf(b.fileCaps), LastOf(a.fileCaps));
            && (path !in ac ==> CapsNow(bc, ac, l.caps)(path) == [])
            && (path !in bc ==> CapsGone(bc, ac, l.caps)(path) == [])
            && (c in CapsNow(bc, ac, l.caps)(path) || c in CapsGone(bc, ac, l.caps)(path)
                <==> CapsAre(b.fileCaps, a.fileCaps, l.caps, path, c))
  {
    hide LastOf, LastIs, Lacks, Escalated, CapsWithin;
    LastOfExactly(b.fileCaps, path);
    LastOfExactly(a.fileCaps, path);
    var (bc, ac) := (LastOf(b.fileCaps), LastOf(a.fileCaps));
    if path in bc && path in ac {
      EscalatedOrWithin(bc[path], ac[path]);
    }
  }

  lemma HardeningExactly(b: Snapshot, a: Snapshot, l: Labels, c: Change)
    ensures FromHardening(b, a, l, c) <==> exists unit :: HardeningIs(b.hardening, a.hardening, l.join, unit, c)
  {
    hide LastOf, HardeningNow, HardeningGone, HardeningIs, From;
    var (bh, ah) := (LastOf(b.hardening), LastOf(a.hardening));
    forall unit
      ensures unit !in ah ==> HardeningNow(bh, ah, l.join)(unit) == []
      ensures unit !in bh ==> HardeningGone(bh, ah, l.join)(unit) == []
      ensures c in HardeningNow(bh, ah, l.join)(unit) || c in HardeningGone(bh, ah, l.join)(unit)
         <==> HardeningIs(b.hardening, a.hardening, l.join, unit, c)
    {
      HardeningOfKey(b, a, l, unit, c);
    }
    ByKey(ah.Keys, HardeningNow(bh, ah, l.join), bh.Keys, HardeningGone(bh, ah, l.join), c);
  }

  lemma HardeningOfKey(b: Snapshot, a: Snapshot, l: Labels, unit: string, c: Change)
    ensures var (bh, ah) := (LastOf(b.hardening), LastOf(a.hardening));
            && (unit !in ah ==> HardeningNow(bh, ah, l.join)(unit) == [])
            && (unit !in bh ==> HardeningGone(bh, ah, l.join)(unit) == [])
            && (c in HardeningNow(bh, ah, l.join)(unit) || c in HardeningGone(bh, ah, l.join)(unit)
                <==> HardeningIs(b.hardening, a.hardening, l.join, unit, c))
  {
    hide LastOf, LastIs, Lacks;
    LastOfExactly(b.hardening, unit);
    LastOfExactly(a.hardening, unit);
  }

  /** The returned list holds exactly these entries, whatever is compared. */
  lemma EntriesExactly(cs: seq<Change>, b: Snapshot, a: Snapshot, l: Labels, c: Change)
    requires IsDiff(cs, b, a, l)
    ensures c in cs <==>
      || SetEntry("security.account_hygiene.duplicate_uid_zero", b.rootUsers, a.rootUsers, c)
      || SetEntry("security.account_hygiene.authorized_keys_writable", b.writableKeys, a.writableKeys, c)
      || (exists path :: SetuidIs(b.setuidFiles, a.setuidFiles, path, c))
      || (exists path :: CapsAre(b.fileCaps, a.fileCaps, l.caps, path, c))
      || (exists unit :: HardeningIs(b.hardening, a.hardening, l.join, unit, c))
  {
    hide IsDiff, StrSetDiff, SetEntry, FromSetuid, FromCaps, FromHardening, SetuidIs, CapsAre, HardeningIs;
    InDiff(cs, b, a, l, c);
    SetEntryExactly(UID_ZERO, b.rootUsers, a.rootUsers, c);
    SetEntryExactly(KEYS_WRITABLE, b.writableKeys, a.writableKeys, c);
    SetuidExactly(b, a, c);
    CapsExactly(b, a, l, c);
    HardeningExactly(b, a, l, c);
  }

  // ---- How many there are

  function Hits(keys: set<string>, f: string -> seq<Change>): set<string> { set k | k in keys && f(k) != [] }

  lemma {:induction false} GatherSize(keys: set<string>, f: string -> seq<Change>)
    requires forall k :: k in keys ==> |f(k)| <= 1
    ensures |Gather(keys, f)| == |Hits(keys, f)|
    decreases keys
  {
    hide Hits;
    if keys == {} {
      NoHits(f);
    } else {
      var k :| k in keys && Gather(keys, f) == multiset(f(k)) + Gather(keys - {k}, f);
      GatherSize(keys - {k}, f);
      assert |multiset(f(k))| == |f(k)|;
      OneHit(keys, f, k);
    }
  }

  lemma NoHits(f: string -> seq<Change>)
    ensures Hits({}, f) == {}
  {
  }

  lemma OneHit(keys: set<string>, f: string -> seq<Change>, k: string)
    requires k in keys
    ensures |Hits(keys, f)| == |Hits(keys - {k}, f)| + if f(k) != [] then 1 else 0
  {
    assert Hits(keys, f) == if f(k) != [] then Hits(keys - {k}, f) + {k} else Hits(keys - {k}, f);
  }

  /** The keys whose value is not the same on both sides. */
  function Differing<T(==)>(b: map<string, T>, a: map<string, T>): set<string> {
    (set k | k in a && !(k in b && b[k] == a[k])) + (set k | k in b && k !in a)
  }

  lemma SectionSize<T(!new)>(b: map<string, T>, a: map<string, T>, now: string -> seq<Change>, gone: string -> seq<Change>)
    requires forall k :: k in a ==> |now(k)| <= 1 && (now(k) == [] <==> k in b && b[k] == a[k])
    requires forall k :: k in b ==> |gone(k)| <= 1 && (gone(k) == [] <==> k in a)
    ensures |Gather(a.Keys, now)| + |Gather(b.Keys, gone)| == |Differing(b, a)|
  {
    hide Gather;
    GatherSize(a.Keys, now);
    GatherSize(b.Keys, gone);
    var x, y := set k | k in a && !(k in b && b[k] == a[k]), set k | k in b && k !in a;
    assert Hits(a.Keys, now) == x && Hits(b.Keys, gone) == y;
    DisjointSizes(x, y);
  }

  lemma DisjointSizes(x: set<string>, y: set<string>)
    requires x !! y
    ensures |x + y| == |x| + |y|
  {
  }

  lemma SetSize(field: string, b: set<string>, a: set<string>)
    ensures |StrSetDiff(field, b, a)| == |a - b| + |b - a|
  {
    GatherSize(a - b, Appeared(field));
    GatherSize(b - a, Vanished(field));
    assert Hits(a - b, Appeared(field)) == a - b && Hits(b - a, Vanished(field)) == b - a;
  }

  lemma EightSizes(p: multiset<Change>, q: multiset<Change>, r: multiset<Change>, s: multiset<Change>,
                   t: multiset<Change>, u: multiset<Change>, v: multiset<Change>, w: multiset<Change>)
    ensures |p + q + r + s + t + u + v + w| == |p| + |q| + (|r| + |s|) + (|t| + |u|) + (|v| + |w|)
  {
  }

  /** One entry for every difference: no key is reported twice, and none is passed over. */
  lemma OneEntryEach(cs: seq<Change>, b: Snapshot, a: Snapshot, l: Labels)
    requires IsDiff(cs, b, a, l)
    ensures |cs| ==
      |Elements(a.rootUsers) - Elements(b.rootUsers)| + |Elements(b.rootUsers) - Elements(a.rootUsers)|
      + |Elements(a.writableKeys) - Elements(b.writableKeys)| + |Elements(b.writableKeys) - Elements(a.writableKeys)|
      + |Differing(LastOf(b.setuidFiles), LastOf(a.setuidFiles))|
      + |Differing(LastOf(b.fileCaps), LastOf(a.fileCaps))|
      + |Differing(LastOf(b.hardening), LastOf(a.hardening))|
  {
    hide Gather, StrSetDiff, LastOf, SetuidNow, SetuidGone, CapsNow, CapsGone, HardeningNow, HardeningGone, Differing, Elements;
    var (bs, as_) := (LastOf(b.setuidFiles), LastOf(a.setuidFiles));
    var (bc, ac) := (LastOf(b.fileCaps), LastOf(a.fileCaps));
    var (bh, ah) := (LastOf(b.hardening), LastOf(a.hardening));
    assert |multiset(cs)| == |cs|;
    SetSize(UID_ZERO, Elements(b.rootUsers), Elements(a.rootUsers));
    SetSize(KEYS_WRITABLE, Elements(b.writableKeys), Elements(a.writableKeys));
    SetuidSize(bs, as_);
    CapsSize(bc, ac, l.caps);
    HardeningSize(bh, ah, l.join);
    EightSizes(StrSetDiff(UID_ZERO, Elements(b.rootUsers), Elements(a.rootUsers)),
               StrSetDiff(KEYS_WRITABLE, Elements(b.writableKeys), Elements(a.writableKeys)),
               Gather(as_.Keys, SetuidNow(bs, as_)), Gather(bs.Keys, SetuidGone(bs, as_)),
               Gather(ac.Keys, CapsNow(bc, ac, l.caps)), Gather(bc.Keys, CapsGone(bc, ac, l.caps)),
               Gather(ah.Keys, HardeningNow(bh, ah, l.join)), Gather(bh.Keys, HardeningGone(bh, ah, l.join)));
  }

  lemma SetuidSize(b: map<string, Setuid>, a: map<string, Setuid>)
    ensures |Gather(a.Keys, SetuidNow(b, a))| + |Gather(b.Keys, SetuidGone(b, a))| == |Differing(b, a)|
  {
    hide Gather, BitsLabel, Differing;
    SectionSize(b, a, SetuidNow(b, a), SetuidGone(b, a));
  }

  lemma CapsSize(b: map<string, Caps>, a: map<string, Caps>, render: CapsLabel)
    ensures |Gather(a.Keys, CapsNow(b, a, render))| + |Gather(b.Keys, CapsGone(b, a, render))| == |Differing(b, a)|
  {
    hide Gather, Escalated, Differing;
    SectionSize(b, a, CapsNow(b, a, render), CapsGone(b, a, render));
  }

  lemma HardeningSize(b: map<string, set<string>>, a: map<string, set<string>>, join: SetLabel)
    ensures |Gather(a.Keys, HardeningNow(b, a, join))| + |Gather(b.Keys, HardeningGone(b, a, join))| == |Differing(b, a)|
  {
    hide Gather, Differing;
    SectionSize(b, a, HardeningNow(b, a, join), HardeningGone(b, a, join));
  }

  // ---- In which order they stand

  /** An absent text comes before every present one. */
  ghost predicate OptionBefore(a: Option<string>, b: Option<string>) {
    b.Some? && (a.None? || Before(a.value, b.value))
  }

  /**
   The order of the returned list: degraded entries first, then changed ones, then improved ones; among
   those by field, then by the text before, then by the text after.
   */
  lemma OrderExactly(x: Change, y: Change)
    ensures ChangeLess(x, y) <==>
      || (x.severity.Degraded? && !y.severity.Degraded?) || (x.severity.Changed? && y.severity.Improved?)
      || (x.severity == y.severity && Before(x.field, y.field))
      || (x.severity == y.severity && x.field == y.field && OptionBefore(x.before, y.before))
      || (x.severity == y.severity && x.field == y.field && x.before == y.before && OptionBefore(x.after, y.after))
  {
    hide Before, Less;
    LessExactly(x.field, y.field);
    LessIrreflexive(x.field);
    OptionExactly(x.before, y.before);
    OptionExactly(x.after, y.after);
  }

  lemma OptionExactly(a: Option<string>, b: Option<string>)
    ensures OptionLess(a, b) <==> OptionBefore(a, b)
    ensures a == b ==> !OptionBefore(a, b)
  {
    if a.Some? && b.Some? {
      LessExactly(a.value, b.value);
    }
    OptionOrder(a, b, b);
  }
}
