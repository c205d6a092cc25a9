/** Listing snapshots newest first, and reaping the old ones. */
module Retention {
  import opened Text
  import opened Sorting
  import opened FixedWidth
  import opened SnapshotData

  datatype SnapshotInfo = SnapshotInfo(id: string, op: string, ts: string, jobId: string)

  /** Later timestamps come first. */
  predicate Newer(a: SnapshotInfo, b: SnapshotInfo) {
    StringLess(b.ts, a.ts)
  }

  /** The summary of directory `id`, or nothing if it has no manifest. */
  function InfoOf(dirs: Dirs, id: string): Option<SnapshotInfo> {
    if id in dirs && MANIFEST in dirs[id] && dirs[id][MANIFEST].Json? then
      var m := dirs[id][MANIFEST].manifest;
      Some(SnapshotInfo(id, m.op, m.ts, m.jobId))
    else None
  }

  /** Directory entries in the order the file system returns them; a directory without a manifest
      is skipped, an unreadable manifest fails the whole listing. */
  function Scanned(dirs: Dirs, order: seq<string>, faults: set<string>): Result<seq<SnapshotInfo>> {
    if order == [] then Ok([])
    else
      var id := order[0];
      if id !in dirs || MANIFEST !in dirs[id] then Scanned(dirs, order[1..], faults)
      else if id in faults then Err(Io)
      else if dirs[id][MANIFEST].Raw? then Err(Serde)
      else if dirs[id][MANIFEST].manifest.schemaVersion > SCHEMA_VERSION then Err(SchemaUpgradeRequired)
      else
        var rest := Scanned(dirs, order[1..], faults);
        if rest.Err? then rest else Ok([InfoOf(dirs, id).value] + rest.value)
  }

  /** `list`. */
  function Listed(dirs: Dirs, order: seq<string>, faults: set<string>): Result<seq<SnapshotInfo>> {
    var scanned := Scanned(dirs, order, faults);
    if scanned.Err? then scanned else Ok(Sort(Newer, scanned.value))
  }

  /** The snapshots from position `i` on that are beyond both limits. */
  function Doomed(infos: seq<SnapshotInfo>, keepCount: nat, cutoff: string, i: nat): seq<string>
    requires i <= |infos|
    decreases |infos| - i
  {
    if i == |infos| then []
    else
      var rest := Doomed(infos, keepCount, cutoff, i + 1);
      if i >= keepCount && StringLess(infos[i].ts, cutoff) then [infos[i].id] + rest else rest
  }

  /** A removal that fails half-way leaves the files in `survivors`. */
  function Remains(dir: Dir, survivors: set<string>): Dir {
    map name | name in dir && name in survivors :: dir[name]
  }

  function RemoveAll(dirs: Dirs, ids: seq<string>, faults: set<string>, survivors: set<string>): (Dirs, Result<()>)
    decreases |ids|
  {
    if ids == [] then (dirs, Ok(()))
    else if ids[0] in faults then
      (if ids[0] in dirs then dirs[ids[0] := Remains(dirs[ids[0]], survivors)] else dirs, Err(Io))
    else RemoveAll(dirs - {ids[0]}, ids[1..], faults, survivors)
  }

  /** `reap`: `unreadable` and `stuck` are the directories that cannot be read or removed. */
  function ReapEffect(
    dirs: Dirs, order: seq<string>, keepCount: nat, cutoff: string,
    unreadable: set<string>, stuck: set<string>, survivors: set<string>) : (Dirs, Result<nat>)
  {
    var listed := Listed(dirs, order, unreadable);
    if listed.Err? then (dirs, Err(listed.error))
    else if |listed.value| <= keepCount then (dirs, Ok(0))
    else
      var doomed := Doomed(listed.value, keepCount, cutoff, 0);
      var (after, r) := RemoveAll(dirs, doomed, stuck, survivors);
      (after, if r.Err? then Err(r.error) else Ok(|doomed|))
  }

  // ---------------------------------------------------------------------------
  // What stays
  // ---------------------------------------------------------------------------

  /** The number of listed snapshots not older than the cutoff. */
  function Fresh(infos: seq<SnapshotInfo>, cutoff: string): nat {
    if infos == [] then 0
    else (if StringLess(infos[0].ts, cutoff) then 0 else 1) + Fresh(infos[1..], cutoff)
  }

  function Max(a: nat, b: nat): nat {
    if a < b then b else a
  }

  function Min(a: nat, b: nat): nat {
    if a < b then a else b
  }

  function Kept(infos: seq<SnapshotInfo>, keepCount: nat, cutoff: string): nat {
    Min(|infos|, Max(keepCount, Fresh(infos, cutoff)))
  }

  lemma NewerOrder()
    ensures Asymmetric(Newer) && Splits(Newer)
  {
    forall a, b | StringLess(a, b) ensures !StringLess(b, a) { LexAsymmetric(CharLess, a, b); }
    forall a, b, c | StringLess(a, b) ensures StringLess(a, c) || StringLess(c, b) { LexSplits(CharLess, a, b, c); }
  }

  lemma NewerFirst(infos: seq<SnapshotInfo>, i: nat, j: nat, cutoff: string)
    requires SortedBy(Newer, infos) && i <= j < |infos| && StringLess(infos[i].ts, cutoff)
    ensures StringLess(infos[j].ts, cutoff)
  {
    if i < j {
      assert !Newer(infos[j], infos[i]);
      LexSplits(CharLess, infos[i].ts, cutoff, infos[j].ts);
    }
  }

  /** Newest first, the snapshots not older than the cutoff come before the older ones. */
  lemma {:induction false} FreshIsPrefix(infos: seq<SnapshotInfo>, cutoff: string, i: nat)
    requires SortedBy(Newer, infos) && i < |infos|
    ensures Fresh(infos, cutoff) <= |infos|
    ensures StringLess(infos[i].ts, cutoff) <==> i >= Fresh(infos, cutoff)
    decreases |infos|
  {
    if StringLess(infos[0].ts, cutoff) {
      NoneFresh(infos, cutoff);
      NewerFirst(infos, 0, i, cutoff);
    } else if i > 0 {
      FreshIsPrefix(infos[1..], cutoff, i - 1);
    } else if |infos| > 1 {
      FreshIsPrefix(infos[1..], cutoff, 0);
    }
  }

  lemma {:induction false} NoneFresh(infos: seq<SnapshotInfo>, cutoff: string)
    requires SortedBy(Newer, infos) && (infos != [] ==> StringLess(infos[0].ts, cutoff))
    ensures Fresh(infos, cutoff) == 0
    decreases |infos|
  {
    if |infos| > 1 { NewerFirst(infos, 0, 1, cutoff); }
    if infos != [] { NoneFresh(infos[1..], cutoff); }
  }

  function Ids(infos: seq<SnapshotInfo>): seq<string> {
    seq(|infos|, k requires 0 <= k < |infos| => infos[k].id)
  }

  /** What is removed is the tail of the list. */
  lemma {:induction false} DoomedIsTail(infos: seq<SnapshotInfo>, keepCount: nat, cutoff: string, i: nat)
    requires SortedBy(Newer, infos) && i <= |infos|
    ensures Doomed(infos, keepCount, cutoff, i) == Ids(infos[Max(i, Kept(infos, keepCount, cutoff))..])
    decreases |infos| - i
  {
    if i < |infos| {
      var kept := Kept(infos, keepCount, cutoff);
      FreshIsPrefix(infos, cutoff, i);
      DoomedIsTail(infos, keepCount, cutoff, i + 1);
      if i >= kept {
        assert Ids(infos[i..]) == [infos[i].id] + Ids(infos[i + 1..]);
      }
    }
  }

  lemma {:induction false} RemovesThese(dirs: Dirs, ids: seq<string>, faults: set<string>, survivors: set<string>)
    requires RemoveAll(dirs, ids, faults, survivors).1.Ok?
    ensures RemoveAll(dirs, ids, faults, survivors).0 == map id | id in dirs && id !in ids :: dirs[id]
    decreases |ids|
  {
    if ids != [] {
      RemovesThese(dirs - {ids[0]}, ids[1..], faults, survivors);
      assert ids == [ids[0]] + ids[1..];
    }
  }

  lemma {:induction false} ScannedMembers(dirs: Dirs, order: seq<string>, faults: set<string>, info: SnapshotInfo)
    requires Scanned(dirs, order, faults).Ok?
    ensures info in Scanned(dirs, order, faults).value <==> info.id in order && InfoOf(dirs, info.id) == Some(info)
  {
    if order != [] {
      ScannedMembers(dirs, order[1..], faults, info);
    }
  }

  lemma {:induction false} ScannedIsDistinct(dirs: Dirs, order: seq<string>, faults: set<string>)
    requires NoDuplicates(order) && Scanned(dirs, order, faults).Ok?
    ensures NoDuplicates(Scanned(dirs, order, faults).value)
  {
    if order != [] {
      var id := order[0];
      assert order == [id] + order[1..];
      NoDuplicatesCons(id, order[1..]);
      if Scanned(dirs, order[1..], faults).Ok? {
        var rest := Scanned(dirs, order[1..], faults).value;
        ScannedIsDistinct(dirs, order[1..], faults);
        if id in dirs && MANIFEST in dirs[id] {
          var info := InfoOf(dirs, id).value;
          ScannedMembers(dirs, order[1..], faults, info);
          NoDuplicatesCons(info, rest);
        }
      }
    }
  }

  /** The directory is skipped, or its manifest can be read and is of a known version. */
  predicate Listable(dirs: Dirs, id: string, faults: set<string>) {
    id in dirs && MANIFEST in dirs[id] ==>
      id !in faults && dirs[id][MANIFEST].Json? && dirs[id][MANIFEST].manifest.schemaVersion <= 1
  }

  /** Directory `k` is the first that cannot be listed, and `e` says why. */
  predicate FirstBad(dirs: Dirs, order: seq<string>, faults: set<string>, k: nat, e: Error)
    requires k < |order|
  {
    var id := order[k];
    !Listable(dirs, id, faults) && (forall j | 0 <= j < k :: Listable(dirs, order[j], faults))
    && e == if id in faults then Io else if dirs[id][MANIFEST].Raw? then Serde else SchemaUpgradeRequired
  }

  lemma {:induction false} ScannedExactly(dirs: Dirs, order: seq<string>, faults: set<string>)
    ensures
      var r := Scanned(dirs, order, faults);
      (r.Ok? <==> forall k | 0 <= k < |order| :: Listable(dirs, order[k], faults))
      && (r.Err? ==> exists k | 0 <= k < |order| :: FirstBad(dirs, order, faults, k, r.error))
  {
    if order != [] {
      var r, rest := Scanned(dirs, order, faults), Scanned(dirs, order[1..], faults);
      ScannedExactly(dirs, order[1..], faults);
      if !Listable(dirs, order[0], faults) {
        assert FirstBad(dirs, order, faults, 0, r.error);
      } else if rest.Err? {
        var k :| 0 <= k < |order| - 1 && FirstBad(dirs, order[1..], faults, k, rest.error);
        forall j | 0 <= j < k + 1 ensures Listable(dirs, order[j], faults) {
          if j > 0 { assert Listable(dirs, order[1..][j - 1], faults); }
        }
        assert FirstBad(dirs, order, faults, k + 1, r.error);
      } else {
        forall k | 0 <= k < |order| ensures Listable(dirs, order[k], faults) {
          if k > 0 { assert Listable(dirs, order[1..][k - 1], faults); }
        }
      }
    }
  }

  /** A listing succeeds exactly when every manifest it meets is readable and of a known version; it
      then holds the summaries of the directories that have one, and otherwise reports the first
      obstacle. */
  lemma ListingExactly(dirs: Dirs, order: seq<string>, faults: set<string>, info: SnapshotInfo)
    ensures
      var r := Listed(dirs, order, faults);
      && (r.Ok? <==> forall k | 0 <= k < |order| :: Listable(dirs, order[k], faults))
      && (r.Ok? ==> (info in r.value <==> info.id in order && InfoOf(dirs, info.id) == Some(info)))
      && (r.Err? ==> exists k | 0 <= k < |order| :: FirstBad(dirs, order, faults, k, r.error))
  {
    ScannedExactly(dirs, order, faults);
    var r := Scanned(dirs, order, faults);
    if r.Ok? {
      ScannedMembers(dirs, order, faults, info);
      SortMembers(Newer, r.value, info);
    }
  }

  /** Scanning fewer directories drops exactly the others' summaries. */
  lemma {:induction false} ScannedFilter(dirs: Dirs, order: seq<string>, faults: set<string>, after: Dirs)
    requires Scanned(dirs, order, faults).Ok?
    requires forall id | id in after :: id in dirs && after[id] == dirs[id]
    ensures Scanned(after, order, faults)
      == Ok(Filter((info: SnapshotInfo) => info.id in after, Scanned(dirs, order, faults).value))
  {
    if order != [] {
      ScannedFilter(dirs, order[1..], faults, after);
      var id := order[0];
      if id in dirs && MANIFEST in dirs[id] {
        FilterCons((info: SnapshotInfo) => info.id in after, InfoOf(dirs, id).value,
          Scanned(dirs, order[1..], faults).value);
      }
    }
  }

  lemma {:induction false} FilterPrefix<T(!new)>(keep: T -> bool, xs: seq<T>, n: nat)
    requires n <= |xs| && forall i | 0 <= i < |xs| :: keep(xs[i]) <==> i < n
    ensures Filter(keep, xs) == xs[..n]
  {
    if xs != [] {
      FilterPrefix(keep, xs[1..], if n == 0 then 0 else n - 1);
      assert n > 0 ==> xs[..n] == [xs[0]] + xs[1..][..n - 1];
    }
  }

  lemma ListedFacts(dirs: Dirs, order: seq<string>, faults: set<string>)
    requires NoDuplicates(order) && Listed(dirs, order, faults).Ok?
    ensures SortedBy(Newer, Listed(dirs, order, faults).value) && NoDuplicates(Listed(dirs, order, faults).value)
    ensures forall info | info in Listed(dirs, order, faults).value :: InfoOf(dirs, info.id) == Some(info)
  {
    var scanned := Scanned(dirs, order, faults).value;
    NewerOrder();
    SortIsSorted(Newer, scanned);
    ScannedIsDistinct(dirs, order, faults);
    SortDuplicates(Newer, scanned);
    forall info | info in Sort(Newer, scanned) ensures InfoOf(dirs, info.id) == Some(info) {
      SortMembers(Newer, scanned, info);
      ScannedMembers(dirs, order, faults, info);
    }
  }

  function Without(dirs: Dirs, ids: seq<string>): Dirs {
    map id | id in dirs && id !in ids :: dirs[id]
  }

  /** Each position of a list has an id of its own, so only the tail's ids are gone. */
  lemma GoneExactly(dirs: Dirs, infos: seq<SnapshotInfo>, n: nat, i: nat)
    requires NoDuplicates(infos) && n <= |infos| && i < |infos|
    requires forall k | 0 <= k < |infos| :: InfoOf(dirs, infos[k].id) == Some(infos[k])
    ensures infos[i].id in Without(dirs, Ids(infos[n..])) <==> i < n
  {
    var ids := Ids(infos[n..]);
    if i >= n {
      assert ids[i - n] == infos[i].id;
    } else {
      forall j | 0 <= j < |ids| ensures ids[j] != infos[i].id {
        assert infos[n + j] != infos[i];
        assert ids[j] == infos[n + j].id;
      }
      assert InfoOf(dirs, infos[i].id).Some?;
    }
  }

  /** Removing the directories of a tail of the list leaves the list's head. */
  lemma ListedWithoutTail(dirs: Dirs, order: seq<string>, faults: set<string>, infos: seq<SnapshotInfo>, n: nat)
    requires NoDuplicates(order) && Listed(dirs, order, faults) == Ok(infos) && n <= |infos|
    ensures Listed(Without(dirs, Ids(infos[n..])), order, faults) == Ok(infos[..n])
  {
    var after := Without(dirs, Ids(infos[n..]));
    var scanned := Scanned(dirs, order, faults).value;
    var keep := (info: SnapshotInfo) => info.id in after;
    ListedFacts(dirs, order, faults);
    forall i | 0 <= i < |infos| ensures keep(infos[i]) <==> i < n {
      assert forall k | 0 <= k < |infos| :: infos[k] in infos;
      GoneExactly(dirs, infos, n, i);
    }
    FilterPrefix(keep, infos, n);
    NewerOrder();
    SortFilter(Newer, keep, scanned);
    ScannedFilter(dirs, order, faults, after);
  }

  /** Retention: a reap that meets no failure leaves exactly the first
      min(n, max(keep_count, number not older than the cutoff)) of the newest-first list,
      removes the rest and nothing else, and says how many that were. */
  lemma ReapKeepsNewest(
    dirs: Dirs, order: seq<string>, keepCount: nat, cutoff: string,
    unreadable: set<string>, stuck: set<string>, survivors: set<string>)
    requires NoDuplicates(order)
    requires ReapEffect(dirs, order, keepCount, cutoff, unreadable, stuck, survivors).1.Ok?
    ensures
      var (after, r) := ReapEffect(dirs, order, keepCount, cutoff, unreadable, stuck, survivors);
      var infos := Listed(dirs, order, unreadable).value;
      var kept := Kept(infos, keepCount, cutoff);
      && r.value == |infos| - kept
      && after == Without(dirs, Ids(infos[kept..]))
      && Listed(after, order, unreadable) == Ok(infos[..kept])
  {
    var infos := Listed(dirs, order, unreadable).value;
    var kept := Kept(infos, keepCount, cutoff);
    ListedFacts(dirs, order, unreadable);
    ListedWithoutTail(dirs, order, unreadable, infos, kept);
    if |infos| <= keepCount {
      assert Without(dirs, Ids(infos[kept..])) == dirs;
    } else {
      DoomedIsTail(infos, keepCount, cutoff, 0);
      RemovesThese(dirs, Ids(infos[kept..]), stuck, survivors);
    }
  }

  /** What is left of a directory is a part of it. */
  predicate Shrunk(before: Dirs, after: Dirs) {
    forall id | id in after :: id in before && forall name | name in after[id] ::
      name in before[id] && after[id][name] == before[id][name]
  }

  lemma {:induction false} RemovalTouchesOnly(dirs: Dirs, ids: seq<string>, faults: set<string>, survivors: set<string>)
    ensures
      var after := RemoveAll(dirs, ids, faults, survivors).0;
      Shrunk(dirs, after) && forall id | id in dirs && id !in ids :: id in after && after[id] == dirs[id]
    decreases |ids|
  {
    if ids != [] && ids[0] !in faults {
      RemovalTouchesOnly(dirs - {ids[0]}, ids[1..], faults, survivors);
      assert ids == [ids[0]] + ids[1..];
    }
  }

  /** Whatever fails, a reap adds nothing, and touches no snapshot but those beyond both limits: a
      failed listing changes nothing, a failed removal leaves a part of a directory. */
  lemma ReapTouchesOnlyOld(
    dirs: Dirs, order: seq<string>, keepCount: nat, cutoff: string,
    unreadable: set<string>, stuck: set<string>, survivors: set<string>)
    ensures
      var (after, r) := ReapEffect(dirs, order, keepCount, cutoff, unreadable, stuck, survivors);
      var listed := Listed(dirs, order, unreadable);
      && Shrunk(dirs, after)
      && (listed.Err? ==> after == dirs && r == Err(listed.error))
      && (listed.Ok? ==>
            var doomed := Ids(listed.value[Kept(listed.value, keepCount, cutoff)..]);
            forall id | id in dirs && id !in doomed :: id in after && after[id] == dirs[id])
  {
    var listed := Listed(dirs, order, unreadable);
    if listed.Ok? {
      NewerOrder();
      SortIsSorted(Newer, Scanned(dirs, order, unreadable).value);
      DoomedIsTail(listed.value, keepCount, cutoff, 0);
      RemovalTouchesOnly(dirs, Doomed(listed.value, keepCount, cutoff, 0), stuck, survivors);
    }
  }

  lemma {:induction false} NoMoreThan<T(!new)>(a: seq<T>, b: seq<T>)
    requires NoDuplicates(a) && forall x | x in a :: x in b
    ensures |a| <= |b|
    decreases |a|
  {
    if a != [] {
      assert a[0] in b;
      var j :| 0 <= j < |b| && b[j] == a[0];
      var rest := b[..j] + b[j + 1..];
      assert a == [a[0]] + a[1..];
      NoDuplicatesCons(a[0], a[1..]);
      forall x | x in a[1..] ensures x in rest {
        assert x in b && x != b[j];
        var i :| 0 <= i < |b| && b[i] == x;
        assert if i < j then rest[i] == x else rest[i - 1] == x;
      }
      NoMoreThan(a[1..], rest);
    }
  }

  lemma {:induction false} NoneDoomed(infos: seq<SnapshotInfo>, keepCount: nat, cutoff: string, i: nat)
    requires i <= |infos| && forall info | info in infos :: !StringLess(info.ts, cutoff)
    ensures Doomed(infos, keepCount, cutoff, i) == []
    decreases |infos| - i
  {
    if i < |infos| {
      assert infos[i] in infos;
      NoneDoomed(infos, keepCount, cutoff, i + 1);
    }
  }

  /** What a first reap kept is few enough, or not older than the cutoff. */
  lemma KeptAreSafe(infos: seq<SnapshotInfo>, keepCount: nat, cutoff: string, kept: nat)
    requires SortedBy(Newer, infos) && kept == Kept(infos, keepCount, cutoff)
    ensures kept <= keepCount || forall info | info in infos[..kept] :: !StringLess(info.ts, cutoff)
  {
    if kept > keepCount {
      forall info | info in infos[..kept] ensures !StringLess(info.ts, cutoff) {
        var i :| 0 <= i < kept && infos[..kept][i] == info;
        FreshIsPrefix(infos, cutoff, i);
      }
    }
  }

  /** Any later listing of the same directories holds no more snapshots than the first. */
  lemma ListedAgain(
    dirs: Dirs, order: seq<string>, faults: set<string>, again: seq<string>, faults': set<string>)
    requires NoDuplicates(again) && forall id | id in again :: id in order
    requires Listed(dirs, order, faults).Ok? && Listed(dirs, again, faults').Ok?
    ensures
      var (first, second) := (Listed(dirs, order, faults).value, Listed(dirs, again, faults').value);
      |second| <= |first| && forall info | info in second :: info in first
  {
    var (first, second) := (Listed(dirs, order, faults).value, Listed(dirs, again, faults').value);
    ListedFacts(dirs, again, faults');
    forall info | info in second ensures info in first {
      SortMembers(Newer, Scanned(dirs, again, faults').value, info);
      ScannedMembers(dirs, again, faults', info);
      ScannedMembers(dirs, order, faults, info);
      SortMembers(Newer, Scanned(dirs, order, faults).value, info);
    }
    NoMoreThan(second, first);
  }

  /** Reaping again with the same cutoff removes nothing, in whatever order the file system now
      returns the directories, and whichever of them could not be removed. */
  lemma ReapTwice(
    dirs: Dirs, order: seq<string>, keepCount: nat, cutoff: string,
    unreadable: set<string>, stuck: set<string>, survivors: set<string>,
    again: seq<string>, unreadable': set<string>, stuck': set<string>, survivors': set<string>)
    requires NoDuplicates(order) && NoDuplicates(again) && forall id | id in again :: id in order
    requires ReapEffect(dirs, order, keepCount, cutoff, unreadable, stuck, survivors).1.Ok?
    ensures
      var after := ReapEffect(dirs, order, keepCount, cutoff, unreadable, stuck, survivors).0;
      var second := ReapEffect(after, again, keepCount, cutoff, unreadable', stuck', survivors');
      second.0 == after && (Listed(after, again, unreadable').Ok? ==> second.1 == Ok(0))
  {
    var after := ReapEffect(dirs, order, keepCount, cutoff, unreadable, stuck, survivors).0;
    var infos := Listed(dirs, order, unreadable).value;
    var kept := Kept(infos, keepCount, cutoff);
    ReapKeepsNewest(dirs, order, keepCount, cutoff, unreadable, stuck, survivors);
    ListedFacts(dirs, order, unreadable);
    KeptAreSafe(infos, keepCount, cutoff, kept);
    if Listed(after, again, unreadable').Ok? {
      ListedAgain(after, order, unreadable, again, unreadable');
      if kept > keepCount { NoneDoomed(Listed(after, again, unreadable').value, keepCount, cutoff, 0); }
    }
  }
}
