/**
  `cleanupOldRepos(daysOld = 7)`: the retention sweep over the storage root.
  It lists the root, then for each entry in listing order stats it and, when
  it is a directory last modified before the cutoff, removes it recursively
  and counts it. The first error from `readdir`, `stat` or `rm` ends the
  whole sweep; the error is logged and not rethrown.

  Times are milliseconds. `readdir`'s result is passed in (`None` when it
  throws); `stat` of a listed name throws when the entry is gone or when the
  oracle `faults.stat` names it, and `rm` throws when `faults.rm` names it.
 */
module Cleanup {
  import opened Options

  const DefaultDaysOld: int := 7
  const MsPerDay: int := 86400000

  /** What `fs.stat` reports of an entry: whether it is a directory, and its mtime. */
  datatype Meta = Meta(isDir: bool, mtime: int)

  datatype Faults = Faults(stat: set<string>, rm: set<string>)

  /** The default parameter: `daysOld` is 7 when the caller passes nothing. */
  function DaysOld(arg: Option<int>): int
  {
    if arg.Some? then arg.value else DefaultDaysOld
  }

  /** A JavaScript time value holds at most this many milliseconds either side of the epoch. */
  const MaxTimeValue: int := 8_640_000_000_000_000

  /** A time a `Date` can hold; `new Date()` and `stats.mtime` always do. */
  predicate ValidTime(t: int)
  {
    -MaxTimeValue <= t <= MaxTimeValue
  }

  /**
    `cutoffDate.setDate(cutoffDate.getDate() - daysOld)` applied to `now`:
    the time `daysOld` days earlier, or `None` when that time lies outside
    what a `Date` can hold and the cutoff becomes an Invalid Date.
   */
  function Cutoff(now: int, daysOld: int): Option<int>
  {
    var t := now - daysOld * MsPerDay;
    if ValidTime(t) then Some(t) else None
  }

  /**
    `stats.isDirectory() && stats.mtime < cutoffDate`; a comparison with an
    Invalid Date is false.
   */
  predicate Expired(m: Meta, cutoff: Option<int>)
  {
    m.isDir && cutoff.Some? && m.mtime < cutoff.value
  }

  /** Processing `name` throws: `stat` fails, or the entry is due for removal and `rm` fails. */
  predicate Faulty(entries: map<string, Meta>, name: string, cutoff: Option<int>, faults: Faults)
  {
    name !in entries || name in faults.stat || (Expired(entries[name], cutoff) && name in faults.rm)
  }

  /** The entries left, the names removed in order, and whether the sweep reached its end. */
  datatype Sweep = Sweep(remaining: map<string, Meta>, deleted: seq<string>, completed: bool)

  /** The sweep over `names`, in order, starting from the root's `entries`. */
  function SweepSpec(entries: map<string, Meta>, names: seq<string>, cutoff: Option<int>, faults: Faults): (s: Sweep)
    ensures s.remaining.Keys <= entries.Keys
    ensures |s.deleted| <= |names|
  {
    if names == [] then Sweep(entries, [], true)
    else
      var name := names[0];
      if name !in entries || name in faults.stat then Sweep(entries, [], false)
      else if !Expired(entries[name], cutoff) then SweepSpec(entries, names[1..], cutoff, faults)
      else if name in faults.rm then Sweep(entries, [], false)
      else
        var rest := SweepSpec(entries - {name}, names[1..], cutoff, faults);
        Sweep(rest.remaining, [name] + rest.deleted, rest.completed)
  }

  /** The listed names that are expired directories of `entries`, in listing order. */
  function Expiring(entries: map<string, Meta>, names: seq<string>, cutoff: Option<int>): seq<string>
  {
    if names == [] then []
    else
      (if names[0] in entries && Expired(entries[names[0]], cutoff) then [names[0]] else [])
      + Expiring(entries, names[1..], cutoff)
  }

  /** The position of the first listed name whose processing throws, or `|names|`. */
  function FirstFault(entries: map<string, Meta>, names: seq<string>, cutoff: Option<int>, faults: Faults): (k: nat)
    ensures k <= |names|
    ensures forall j :: 0 <= j < k ==> !Faulty(entries, names[j], cutoff, faults)
    ensures k < |names| ==> Faulty(entries, names[k], cutoff, faults)
  {
    if names == [] then 0
    else if Faulty(entries, names[0], cutoff, faults) then 0
    else 1 + FirstFault(entries, names[1..], cutoff, faults)
  }

  ghost predicate Distinct(names: seq<string>)
  {
    forall i, j :: 0 <= i < j < |names| ==> names[i] != names[j]
  }

  /** The directory the sweep works on: its entries by name. */
  class StorageRoot {
    var entries: map<string, Meta>

    constructor (entries: map<string, Meta>)
      ensures this.entries == entries
    {
      this.entries := entries;
    }

    /** `fs.stat(path.join(root, name))`: `None` when it throws. */
    method Stat(name: string, faults: Faults) returns (m: Option<Meta>)
      ensures m.Some? <==> name in entries && name !in faults.stat
      ensures m.Some? ==> m.value == entries[name]
    {
      if name in entries && name !in faults.stat {
        m := Some(entries[name]);
      } else {
        m := None;
      }
    }

    /** `fs.rm(path.join(root, name), { recursive: true, force: true })`: false when it throws. */
    method Rm(name: string, faults: Faults) returns (ok: bool)
      modifies this
      ensures ok <==> name !in faults.rm
      ensures entries == if ok then old(entries) - {name} else old(entries)
    {
      ok := name !in faults.rm;
      if ok {
        entries := entries - {name};
      }
    }
  }

  /**
    `cleanupOldRepos(daysOld)` at time `now`, where `listing` is what
    `readdir` of the root returns. `deleted` are the names removed, in order,
    `deletedCount` the counter, and `completed` tells whether the sweep
    reached "Cleanup complete" rather than the error log.
   */
  method CleanupOldRepos(root: StorageRoot, daysOld: Option<int>, now: int, listing: Option<seq<string>>, faults: Faults)
    returns (deletedCount: nat, deleted: seq<string>, completed: bool)
    modifies root
    ensures listing.None? ==> root.entries == old(root.entries) && deleted == [] && !completed
    ensures listing.Some? ==>
      var s := SweepSpec(old(root.entries), listing.value, Cutoff(now, DaysOld(daysOld)), faults);
      root.entries == s.remaining && deleted == s.deleted && completed == s.completed
    ensures deletedCount == |deleted|
  {
    deletedCount, deleted, completed := 0, [], false;
    if listing.None? {
      return;
    }
    var folders := listing.value;
    var cutoff := Cutoff(now, DaysOld(daysOld));
    ghost var spec := SweepSpec(root.entries, folders, cutoff, faults);
    var i := 0;
    while i < |folders|
      invariant 0 <= i <= |folders|
      invariant deletedCount == |deleted|
      invariant var rest := SweepSpec(root.entries, folders[i..], cutoff, faults);
        spec == Sweep(rest.remaining, deleted + rest.deleted, rest.completed)
    {
      var folder := folders[i];
      assert folders[i..][1..] == folders[i + 1..];
      var stats := root.Stat(folder, faults);
      if stats.None? {
        return;
      }
      SweepStep(root.entries, folders[i..], cutoff, faults);
      if stats.value.isDir && cutoff.Some? && stats.value.mtime < cutoff.value {
        var ok := root.Rm(folder, faults);
        if !ok {
          return;
        }
        ghost var next := SweepSpec(root.entries, folders[i + 1..], cutoff, faults);
        assert deleted + [folder] + next.deleted == deleted + ([folder] + next.deleted);
        deleted := deleted + [folder];
        deletedCount := deletedCount + 1;
      }
      i := i + 1;
    }
    completed := true;
  }

  /** One step of the sweep over `names`, once `stat` of the first name has succeeded. */
  lemma SweepStep(entries: map<string, Meta>, names: seq<string>, cutoff: Option<int>, faults: Faults)
    requires names != [] && names[0] in entries && names[0] !in faults.stat
    ensures var s := SweepSpec(entries, names, cutoff, faults);
      if !Expired(entries[names[0]], cutoff) then s == SweepSpec(entries, names[1..], cutoff, faults)
      else if names[0] in faults.rm then s == Sweep(entries, [], false)
      else
        var rest := SweepSpec(entries - {names[0]}, names[1..], cutoff, faults);
        s == Sweep(rest.remaining, [names[0]] + rest.deleted, rest.completed)
  {
  }

  /**
    The default threshold: at a time `now` that a `Date` holds, entries older
    than seven days are due, unless seven days earlier lies before the range
    of a `Date`.
   */
  lemma DefaultThresholdIsSevenDays(now: int, m: Meta)
    requires ValidTime(now)
    ensures Expired(m, Cutoff(now, DaysOld(None)))
        <==> m.isDir && m.mtime < now - 7 * 86400000 && -MaxTimeValue <= now - 7 * 86400000
  {
  }

  /**
    A longer threshold expires fewer entries: whatever is due after `longer`
    days is also due after `shorter` ones, when both are not negative.
   */
  lemma LongerThresholdExpiresLess(now: int, shorter: int, longer: int, m: Meta)
    requires ValidTime(now) && 0 <= shorter <= longer
    ensures Expired(m, Cutoff(now, longer)) ==> Expired(m, Cutoff(now, shorter))
  {
    assert shorter * MsPerDay <= longer * MsPerDay;
  }

  /**
    An Invalid Date cutoff expires nothing: the sweep removes no entry, and
    it completes exactly when every listed entry can be stat'ed.
   */
  lemma {:induction false} InvalidCutoffRemovesNothing(entries: map<string, Meta>, names: seq<string>, faults: Faults)
    ensures var s := SweepSpec(entries, names, None, faults);
      && s.remaining == entries && s.deleted == []
      && (s.completed <==> forall k :: 0 <= k < |names| ==> names[k] in entries && names[k] !in faults.stat)
  {
    if names != [] {
      InvalidCutoffRemovesNothing(entries, names[1..], faults);
      assert forall k :: 1 <= k < |names| ==> names[k] == names[1..][k - 1];
    }
  }

  /**
    The sweep removes only listed entries that are directories older than the
    cutoff; every other entry stays with its metadata, and the removed ones
    are exactly those missing afterwards.
   */
  lemma {:induction false} SweepRemovesOnlyExpired(entries: map<string, Meta>, names: seq<string>, cutoff: Option<int>, faults: Faults)
    ensures var s := SweepSpec(entries, names, cutoff, faults);
      && (forall n :: n in s.remaining <==> n in entries && n !in s.deleted)
      && (forall n :: n in s.remaining ==> s.remaining[n] == entries[n])
      && (forall k :: 0 <= k < |s.deleted| ==>
            s.deleted[k] in names && s.deleted[k] in entries && Expired(entries[s.deleted[k]], cutoff))
  {
    if names != [] {
      var name := names[0];
      if name in entries && name !in faults.stat && !Expired(entries[name], cutoff) {
        SweepRemovesOnlyExpired(entries, names[1..], cutoff, faults);
      } else if name in entries && name !in faults.stat && name !in faults.rm {
        SweepRemovesOnlyExpired(entries - {name}, names[1..], cutoff, faults);
      }
    }
  }

  /** Plain files, and directories not older than the cutoff, survive the sweep unchanged. */
  lemma SweepKeepsUnexpired(entries: map<string, Meta>, names: seq<string>, cutoff: Option<int>, faults: Faults, n: string)
    requires n in entries && !Expired(entries[n], cutoff)
    ensures var s := SweepSpec(entries, names, cutoff, faults);
      n in s.remaining && s.remaining[n] == entries[n]
  {
    SweepRemovesOnlyExpired(entries, names, cutoff, faults);
  }

  /** Removing an entry that is not listed changes neither the faults nor the expired names of the listing. */
  lemma {:induction false} UnlistedEntryIrrelevant(entries: map<string, Meta>, gone: string, names: seq<string>, cutoff: Option<int>, faults: Faults)
    requires gone !in names
    ensures FirstFault(entries - {gone}, names, cutoff, faults) == FirstFault(entries, names, cutoff, faults)
    ensures Expiring(entries - {gone}, names, cutoff) == Expiring(entries, names, cutoff)
  {
    if names != [] {
      UnlistedEntryIrrelevant(entries, gone, names[1..], cutoff, faults);
    }
  }

  /**
    With a listing free of repeats (as `readdir` gives), the sweep stops at
    the first entry whose processing throws and has then removed exactly the
    expired directories listed before it, which stay removed; it completes
    exactly when no entry throws, having removed every expired directory
    listed.
   */
  lemma SweepStopsAtFirstFault(entries: map<string, Meta>, names: seq<string>, cutoff: Option<int>, faults: Faults)
    requires Distinct(names)
    ensures var s := SweepSpec(entries, names, cutoff, faults);
      var stop := FirstFault(entries, names, cutoff, faults);
      && (s.completed <==> stop == |names|)
      && s.deleted == Expiring(entries, names[..stop], cutoff)
      && forall n :: n in s.deleted ==> n !in s.remaining
  {
    SweepDeletesBeforeFirstFault(entries, names, cutoff, faults);
    SweepRemovesOnlyExpired(entries, names, cutoff, faults);
  }

  /** The inductive part of SweepStopsAtFirstFault: completion and the names removed. */
  lemma {:induction false} SweepDeletesBeforeFirstFault(entries: map<string, Meta>, names: seq<string>, cutoff: Option<int>, faults: Faults)
    requires Distinct(names)
    ensures var s := SweepSpec(entries, names, cutoff, faults);
      var stop := FirstFault(entries, names, cutoff, faults);
      && (s.completed <==> stop == |names|)
      && s.deleted == Expiring(entries, names[..stop], cutoff)
  {
    if names != [] {
      var name := names[0];
      var stop := FirstFault(entries, names, cutoff, faults);
      DistinctTail(names);
      if Faulty(entries, name, cutoff, faults) {
        assert names[..stop] == [];
      } else {
        var next := if Expired(entries[name], cutoff) then entries - {name} else entries;
        var prefix := names[1..][..stop - 1];
        if Expired(entries[name], cutoff) {
          UnlistedEntryIrrelevant(entries, name, names[1..], cutoff, faults);
          assert name !in prefix;
          UnlistedEntryIrrelevant(entries, name, prefix, cutoff, faults);
        }
        SweepDeletesBeforeFirstFault(next, names[1..], cutoff, faults);
        ExpiringCons(entries, names, stop, cutoff);
      }
    }
  }

  lemma DistinctTail(names: seq<string>)
    requires Distinct(names) && names != []
    ensures Distinct(names[1..]) && names[0] !in names[1..]
  {
    forall i, j | 0 <= i < j < |names[1..]| ensures names[1..][i] != names[1..][j] {
      assert names[1..][i] == names[i + 1] && names[1..][j] == names[j + 1];
    }
    forall j | 0 <= j < |names[1..]| ensures names[1..][j] != names[0] {
      assert names[1..][j] == names[j + 1];
    }
  }

  lemma ExpiringCons(entries: map<string, Meta>, names: seq<string>, stop: nat, cutoff: Option<int>)
    requires 0 < stop <= |names|
    ensures Expiring(entries, names[..stop], cutoff)
         == (if names[0] in entries && Expired(entries[names[0]], cutoff) then [names[0]] else [])
          + Expiring(entries, names[1..][..stop - 1], cutoff)
  {
    assert names[..stop][1..] == names[1..][..stop - 1];
  }

  lemma {:induction false} ExpiringMembers(entries: map<string, Meta>, names: seq<string>, cutoff: Option<int>, n: string)
    ensures n in Expiring(entries, names, cutoff) <==> n in names && n in entries && Expired(entries[n], cutoff)
  {
    if names != [] {
      ExpiringMembers(entries, names[1..], cutoff, n);
      assert names == [names[0]] + names[1..];
    }
  }

  /**
    A sweep whose listing is exactly the root's entries and in which nothing
    throws completes, and leaves exactly the plain files and the directories
    not older than the cutoff.
   */
  lemma SweepWithoutFaults(entries: map<string, Meta>, names: seq<string>, cutoff: Option<int>, faults: Faults)
    requires Distinct(names)
    requires forall n :: n in entries <==> n in names
    requires forall n :: n in names ==> n !in faults.stat && n !in faults.rm
    ensures var s := SweepSpec(entries, names, cutoff, faults);
      && s.completed
      && s.remaining == map n | n in entries && !Expired(entries[n], cutoff) :: entries[n]
  {
    var s := SweepSpec(entries, names, cutoff, faults);
    SweepCompletesWithoutFaults(entries, names, cutoff, faults);
    SweepRemovesOnlyExpired(entries, names, cutoff, faults);
    forall n | n in entries
      ensures n in s.remaining <==> !Expired(entries[n], cutoff)
    {
      ExpiringMembers(entries, names, cutoff, n);
    }
  }

  /** Without faults, over a listing of present entries, the sweep completes and removes every expired directory listed. */
  lemma SweepCompletesWithoutFaults(entries: map<string, Meta>, names: seq<string>, cutoff: Option<int>, faults: Faults)
    requires Distinct(names)
    requires forall k :: 0 <= k < |names| ==> names[k] in entries && names[k] !in faults.stat && names[k] !in faults.rm
    ensures var s := SweepSpec(entries, names, cutoff, faults);
      s.completed && s.deleted == Expiring(entries, names, cutoff)
  {
    assert forall k :: 0 <= k < |names| ==> !Faulty(entries, names[k], cutoff, faults);
    SweepDeletesBeforeFirstFault(entries, names, cutoff, faults);
    assert names[..|names|] == names;
  }
}
