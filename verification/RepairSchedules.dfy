/** Keeping the schedules of Reaper in step with the spec: controllers/repair_schedules.go. */
module RepairSchedules {
  import opened Option
  import opened Reschedule
  import opened Text

  const OPERATOR := "cassandra-operator"

  /** A repair of the spec. */
  datatype Wanted = Wanted(
    keyspace: string,
    tables: seq<string>,
    daysBetween: int,
    datacenters: seq<string>,
    incremental: bool,
    threads: int,
    intensity: string,
    parallelism: string,
    trigger: Trigger)

  /** A schedule as Reaper reports it, without its id and state. */
  datatype Schedule = Schedule(
    owner: string,
    keyspace: string,
    tables: seq<string>,
    daysBetween: int,
    datacenters: seq<string>,
    incremental: bool,
    threads: int,
    intensity: real,
    parallelism: string,
    columnFamilies: seq<string>,
    segmentCount: int)

  /** A repair is known by its keyspace and its tables, in any order. */
  datatype Key = Key(keyspace: string, tables: multiset<string>)

  function KeyOf(s: Schedule): Key {
    Key(s.keyspace, multiset(s.tables))
  }

  function WantedKey(d: Wanted): Key {
    Key(d.keyspace, multiset(d.tables))
  }

  function Intensity(parse: string -> Option<real>, text: string): real {
    if text != "" && parse(text).Some? then parse(text).value else 0.0
  }

  /** toReaperRepair */
  function ToReaper(parse: string -> Option<real>, d: Wanted): Schedule {
    Schedule(OPERATOR, d.keyspace, d.tables, d.daysBetween, d.datacenters, d.incremental, d.threads,
             Intensity(parse, d.intensity), d.parallelism, [], 0)
  }

  /** The schedule is the one wanted, whatever the order of its tables. */
  predicate Matches(parse: string -> Option<real>, s: Schedule, d: Wanted) {
    multiset(s.tables) == multiset(d.tables) && s.(tables := d.tables) == ToReaper(parse, d)
  }

  /** What the text means: nothing, or text that is no number, is zero. */
  predicate IsIntensity(parse: string -> Option<real>, text: string, value: real) {
    if text != "" && parse(text).Some? then Some(value) == parse(text) else value == 0.0
  }

  /** The schedule has the settings of the repair, field by field; the tables in any order. */
  predicate Fits(parse: string -> Option<real>, s: Schedule, d: Wanted) {
    && s.owner == "cassandra-operator" && s.keyspace == d.keyspace && multiset(s.tables) == multiset(d.tables)
    && s.daysBetween == d.daysBetween && s.datacenters == d.datacenters && s.incremental == d.incremental
    && s.threads == d.threads && s.parallelism == d.parallelism && IsIntensity(parse, d.intensity, s.intensity)
    && s.columnFamilies == [] && s.segmentCount == 0
  }

  /** Matching is nothing but having all settings. */
  lemma MatchesIsFits(parse: string -> Option<real>, s: Schedule, d: Wanted)
    ensures Matches(parse, s, d) <==> Fits(parse, s, d)
  {
    if Fits(parse, s, d) {
      assert s.intensity == Intensity(parse, d.intensity);
      assert s.(tables := d.tables) == ToReaper(parse, d);
    }
  }

  ghost predicate HasFit(parse: string -> Option<real>, store: map<nat, Schedule>, d: Wanted) {
    exists id :: id in store && Fits(parse, store[id], d)
  }

  lemma ServedFits(parse: string -> Option<real>, store: map<nat, Schedule>, d: Wanted)
    ensures Served(parse, store, d) <==> HasFit(parse, store, d)
  {
    forall s: Schedule ensures Matches(parse, s, d) <==> Fits(parse, s, d) {
      MatchesIsFits(parse, s, d);
    }
    hide Matches, ToReaper;
    if id :| id in store && Fits(parse, store[id], d) {
      assert HasKey(store, id, WantedKey(d));
    }
  }

  /** In a converged store every repair has a schedule with all of its settings, and every schedule of the
      operator has all the settings of some repair. */
  lemma ConvergedFits(parse: string -> Option<real>, store: map<nat, Schedule>, desired: seq<Wanted>)
    requires Converged(parse, store, desired)
    ensures forall i :: 0 <= i < |desired| ==> HasFit(parse, store, desired[i])
    ensures forall id :: Owned(store, id) ==> exists i :: 0 <= i < |desired| && Fits(parse, store[id], desired[i])
  {
    hide Matches, Fits;
    forall i | 0 <= i < |desired| ensures HasFit(parse, store, desired[i]) {
      ServedFits(parse, store, desired[i]);
    }
    forall id | Owned(store, id) ensures exists i :: 0 <= i < |desired| && Fits(parse, store[id], desired[i]) {
      var i :| 0 <= i < |desired| && WantedKey(desired[i]) == KeyOf(store[id]);
      var x :| HasKey(store, x, WantedKey(desired[i])) && Matches(parse, store[x], desired[i]);
      MatchesIsFits(parse, store[x], desired[i]);
      assert x == id;
    }
  }

  datatype Event = Paused(id: nat) | Deleted(id: nat) | Created(id: nat, trigger: Trigger)

  /******* sameRepair *******/

  /** Sorts both table lists where they are. */
  method SameRepair(x: Schedule, y: Wanted) returns (same: bool, x': Schedule, y': Wanted)
    ensures x' == x.(tables := SortStrings(x.tables)) && y' == y.(tables := SortStrings(y.tables))
    ensures same <==> KeyOf(x) == WantedKey(y)
  {
    x' := x.(tables := SortStrings(x.tables));
    y' := y.(tables := SortStrings(y.tables));
    SortingKeepsKey(x.tables);
    SortingKeepsKey(y.tables);
    if multiset(x.tables) == multiset(y.tables) {
      SortedIsUnique(x'.tables, y'.tables);
    }
    same := x'.keyspace == y'.keyspace && (x'.tables == y'.tables || (|y'.tables| == 0 && |x'.tables| == 0));
  }

  lemma SortingKeepsKey(xs: seq<string>)
    ensures Sorted(SortStrings(xs)) && multiset(SortStrings(xs)) == multiset(xs)
  {
    SortStringsSorts(xs);
  }

  /** repairSchedulesEqual on lists that sameRepair has sorted decides Matches. */
  lemma SortedEqualIsMatches(parse: string -> Option<real>, x: Schedule, y: Wanted)
    requires KeyOf(x) == WantedKey(y)
    ensures x.(tables := SortStrings(x.tables)) == ToReaper(parse, y.(tables := SortStrings(y.tables))) <==> Matches(parse, x, y)
  {
    SortingKeepsKey(x.tables);
    SortingKeepsKey(y.tables);
    SortedIsUnique(SortStrings(x.tables), SortStrings(y.tables));
  }

  /******* The store *******/

  ghost predicate Owned(store: map<nat, Schedule>, id: nat) {
    id in store && store[id].owner == OPERATOR
  }

  ghost predicate HasKey(store: map<nat, Schedule>, id: nat, key: Key) {
    Owned(store, id) && KeyOf(store[id]) == key
  }

  /** The operator never has two schedules for one repair. */
  ghost predicate DistinctKeys(store: map<nat, Schedule>) {
    forall a, b :: Owned(store, a) && HasKey(store, b, KeyOf(store[a])) ==> a == b
  }

  ghost predicate DistinctWanted(desired: seq<Wanted>) {
    forall i, j :: 0 <= i < j < |desired| ==> WantedKey(desired[i]) != WantedKey(desired[j])
  }

  ghost predicate IsWanted(desired: seq<Wanted>, key: Key) {
    exists i :: 0 <= i < |desired| && WantedKey(desired[i]) == key
  }

  ghost predicate Served(parse: string -> Option<real>, store: map<nat, Schedule>, d: Wanted) {
    exists id :: HasKey(store, id, WantedKey(d)) && Matches(parse, store[id], d)
  }

  /** Operator-owned schedules and wanted repairs correspond one to one. */
  ghost predicate Converged(parse: string -> Option<real>, store: map<nat, Schedule>, desired: seq<Wanted>) {
    && DistinctKeys(store)
    && (forall i :: 0 <= i < |desired| ==> Served(parse, store, desired[i]))
    && (forall id :: Owned(store, id) ==> IsWanted(desired, KeyOf(store[id])))
  }

  /** Only operator-owned schedules with this key differ. */
  ghost predicate OnlyKey(before: map<nat, Schedule>, after: map<nat, Schedule>, key: Key) {
    && (forall id :: id in before && !HasKey(before, id, key) ==> id in after && after[id] == before[id])
    && (forall id :: id in after && !HasKey(after, id, key) ==> id in before && before[id] == after[id])
  }

  ghost predicate OthersKept(before: map<nat, Schedule>, after: map<nat, Schedule>) {
    && (forall id :: id in before && before[id].owner != OPERATOR ==> id in after && after[id] == before[id])
    && (forall id :: id in after && after[id].owner != OPERATOR ==> id in before && before[id] == after[id])
  }

  /** Every schedule is paused right before it is deleted. */
  ghost predicate PausedFirst(log: seq<Event>) {
    forall i :: 0 <= i < |log| && log[i].Deleted? ==> i > 0 && log[i - 1] == Paused(log[i].id)
  }

  /** A line of the listing: the id and the schedule as listed. */
  type Line = (nat, Schedule)

  /** The listing still tells the truth about one repair. */
  ghost predicate Listed(store: map<nat, Schedule>, lines: seq<Line>, key: Key) {
    && (forall i :: 0 <= i < |lines| && KeyOf(lines[i].1) == key ==> SameSchedule(store, lines[i]))
    && (forall id :: HasKey(store, id, key) ==> InLines(lines, id, key))
  }

  ghost predicate InLines(lines: seq<Line>, id: nat, key: Key) {
    exists i :: 0 <= i < |lines| && lines[i].0 == id && KeyOf(lines[i].1) == key
  }

  /** Up to the order of the tables, which the comparison may have changed in the listing. */
  ghost predicate SameSchedule(store: map<nat, Schedule>, line: Line) {
    && Owned(store, line.0) && KeyOf(store[line.0]) == KeyOf(line.1)
    && line.1 == store[line.0].(tables := line.1.tables)
  }

  ghost predicate DistinctLines(lines: seq<Line>) {
    forall i, j :: 0 <= i < j < |lines| ==> lines[i].0 != lines[j].0 && KeyOf(lines[i].1) != KeyOf(lines[j].1)
  }

  class Reaper {
    const parse: string -> Option<real>
    var schedules: map<nat, Schedule>
    var next: nat
    var log: seq<Event>
    /** Whether all requests that can succeed do. */
    const reliable: bool

    constructor (parse: string -> Option<real>, schedules: map<nat, Schedule>, next: nat, reliable: bool)
      requires forall id :: id in schedules ==> id < next
      ensures this.parse == parse && this.schedules == schedules && log == [] && Valid() && this.reliable == reliable
    {
      this.reliable := reliable;
      this.parse, this.schedules, this.next, log := parse, schedules, next, [];
    }

    ghost predicate Valid()
      reads this
    {
      (forall id :: id in schedules ==> id < next) && PausedFirst(log)
    }

    method Request() returns (ok: bool)
      ensures reliable ==> ok
    {
      ok := *;
      ok := ok || reliable;
    }

    /** The schedule is stopped, then deleted; each request may fail. */
    method RemoveRepairSchedule(id: nat) returns (ok: bool)
      requires Valid()
      modifies `schedules, `log
      ensures Valid() && old(log) <= log
      ensures schedules == old(schedules) || schedules == old(schedules) - {id}
      ensures ok ==> schedules == old(schedules) - {id} && log == old(log) + [Paused(id), Deleted(id)]
      ensures reliable && id in old(schedules) ==> ok
    {
      ok := Request();
      if !ok || id !in schedules {
        return false;
      }
      log := log + [Paused(id)];
      ok := Request();
      if ok {
        log := log + [Deleted(id)];
        schedules := schedules - {id};
      }
    }

    /** Reaper stores what it is sent under a fresh id. */
    method CreateRepairSchedule(d: Wanted, now: int) returns (ok: bool)
      requires Valid()
      modifies `schedules, `log, `next
      ensures Valid() && old(log) <= log
      ensures if ok then schedules == old(schedules)[old(next) := ToReaper(parse, d)]
                         && log == old(log) + [Created(old(next), Prepared(now, d.trigger))] && next == old(next) + 1
              else schedules == old(schedules) && log == old(log)
      ensures ok ==> Due(now, log[|log| - 1].trigger)
      ensures reliable ==> ok
      ensures ok ==> Fits(parse, schedules[old(next)], d) && schedules[old(next)].tables == d.tables
    {
      PreparedIsDue(now, d.trigger);
      MatchesIsFits(parse, ToReaper(parse, d), d);
      var repair := new Repair(d.trigger);
      repair.PrepareForReaper(now);
      ok := Request();
      if ok {
        log := log + [Created(next, repair.trigger)];
        schedules := schedules[next := ToReaper(parse, d)];
        next := next + 1;
      }
    }

    /** filterOperatorRepairSchedules over the listing, which has no particular order. */
    method OperatorSchedules() returns (lines: seq<Line>)
      requires DistinctKeys(schedules)
      ensures DistinctLines(lines) && forall key :: Listed(schedules, lines, key)
      ensures forall i :: 0 <= i < |lines| ==> Owned(schedules, lines[i].0) && KeyOf(lines[i].1) == KeyOf(schedules[lines[i].0])
    {
      lines := [];
      var rest := schedules.Keys;
      while rest != {}
        invariant rest <= schedules.Keys && DistinctLines(lines)
        invariant forall i :: 0 <= i < |lines| ==>
                    Owned(schedules, lines[i].0) && lines[i].0 !in rest && lines[i].1 == schedules[lines[i].0]
        invariant forall id :: Owned(schedules, id) && id !in rest ==> InLines(lines, id, KeyOf(schedules[id]))
        decreases |rest|
      {
        var id :| id in rest;
        rest := rest - {id};
        if schedules[id].owner == OPERATOR {
          LinesSnoc(schedules, lines, id);
          lines := lines + [(id, schedules[id])];
        }
      }
    }

    /** One round of the loop over the wanted repairs: what the listing has for it is kept,
        replaced or, when there is nothing, created. */
    method ReconcileRepair(lines: seq<Line>, d: Wanted, now: int) returns (ok: bool, lines': seq<Line>)
      requires Valid() && (Truthful(schedules, lines, WantedKey(d)) || Unlisted(lines, WantedKey(d)))
      modifies `schedules, `log, `next
      ensures Valid() && old(log) <= log && SameLines(lines, lines')
      ensures Truthful(old(schedules), lines, WantedKey(d)) ==>
                && DistinctKeys(schedules) && OnlyKey(old(schedules), schedules, WantedKey(d))
                && (ok ==> Served(parse, schedules, d))
                && (Served(parse, old(schedules), d) ==> ok && schedules == old(schedules) && log == old(log))
      ensures reliable ==> ok
      ensures Unlisted(lines, WantedKey(d)) ==>
                if ok then next == old(next) + 1 && CreatedFor(parse, old(schedules), old(next), d, schedules)
                else schedules == old(schedules)
    {
      hide Matches, DistinctKeys, OnlyKey, Served, HasKey, SameSchedule, SortStrings, Listed;
      lines' := lines;
      var desired := d;
      var found := false;
      ghost var truthful := Truthful(schedules, lines, WantedKey(d));
      SameStore(schedules, WantedKey(d));
      for i := 0 to |lines|
        invariant Valid() && (truthful ==> DistinctKeys(schedules) && OnlyKey(old(schedules), schedules, WantedKey(d)))
        invariant SameLines(lines, lines') && SameWanted(d, desired) && old(log) <= log
        invariant !found ==> schedules == old(schedules) && log == old(log) && next == old(next)
        invariant !found ==> forall k :: 0 <= k < i ==> KeyOf(lines[k].1) != WantedKey(d)
        invariant found ==> truthful && Served(parse, schedules, d) && exists k :: 0 <= k < i && KeyOf(lines[k].1) == WantedKey(d)
        invariant truthful && Served(parse, old(schedules), d) ==> schedules == old(schedules) && log == old(log)
      {
        ghost var listed, unsorted := lines'[i].1, desired;
        var same, x, y := SameRepair(lines'[i].1, desired);
        SortingKeepsLine(lines, lines', i);
        SortingKeepsWanted(d, desired);
        assert same <==> KeyOf(lines[i].1) == WantedKey(d);
        lines' := lines'[i := (lines'[i].0, x)];
        desired := y;
        if same {
          assert truthful && !found;
          found := true;
          ListedLine(parse, schedules, lines, i, listed, d, unsorted);
          if x != ToReaper(parse, y) {
            ok := ReplaceRepairSchedule(lines[i].0, d, desired, now);
            if !ok {
              return;
            }
          }
        }
      }
      ok := true;
      if !found {
        if truthful {
          NobodyHasKey(parse, schedules, lines, d);
        }
        ok := CreateFor(d, desired, now);
      }
    }

    method CreateFor(ghost d: Wanted, desired: Wanted, now: int) returns (ok: bool)
      requires Valid() && SameWanted(d, desired)
      modifies `schedules, `log, `next
      ensures Valid() && old(log) <= log && (reliable ==> ok)
      ensures if ok then next == old(next) + 1 && CreatedFor(parse, old(schedules), old(next), d, schedules)
              else schedules == old(schedules)
      ensures DistinctKeys(old(schedules)) && (forall id :: !HasKey(old(schedules), id, WantedKey(d))) ==>
                && DistinctKeys(schedules) && OnlyKey(old(schedules), schedules, WantedKey(d))
                && (ok ==> Served(parse, schedules, d))
    {
      hide Matches, DistinctKeys, OnlyKey, Served;
      SameStore(schedules, WantedKey(d));
      if DistinctKeys(schedules) && forall id :: !HasKey(schedules, id, WantedKey(d)) {
        CreatedKey(parse, schedules, next, d, desired);
      }
      CreatedMatches(parse, desired, d);
      ok := CreateRepairSchedule(desired, now);
    }

    method ReplaceRepairSchedule(id: nat, ghost d: Wanted, desired: Wanted, now: int) returns (ok: bool)
      requires Valid() && DistinctKeys(schedules) && SameWanted(d, desired) && HasKey(schedules, id, WantedKey(d))
      modifies `schedules, `log, `next
      ensures Valid() && DistinctKeys(schedules) && OnlyKey(old(schedules), schedules, WantedKey(d)) && old(log) <= log
      ensures (ok ==> Served(parse, schedules, d)) && (reliable ==> ok)
    {
      hide Matches, DistinctKeys, OnlyKey, Served;
      SameStore(schedules, WantedKey(d));
      RemovedKey(schedules, id, WantedKey(d));
      ok := RemoveRepairSchedule(id);
      if ok {
        ghost var removed := schedules;
        ok := CreateFor(d, desired, now);
        OnlyKeyChain(old(schedules), removed, schedules, WantedKey(d));
      }
    }

    /** repairsToDelete: the ids of the lines that no wanted repair matches. */
    method RepairsToDelete(lines: seq<Line>, desired: seq<Wanted>) returns (ids: seq<nat>, lines': seq<Line>, desired': seq<Wanted>)
      requires DistinctLines(lines)
      ensures SameLines(lines, lines') && SameWanteds(desired, desired')
      ensures Unwanted(lines, desired, ids) && FromLines(lines, ids)
    {
      hide SortStrings, IsWanted, SameLines, Unwanted;
      ids, lines', desired' := [], lines, desired;
      SameLinesRefl(lines);
      NothingUnwanted(lines, desired);
      for i := 0 to |lines|
        invariant SameLines(lines, lines') && |lines'| == |lines| && SameWanteds(desired, desired')
        invariant Unwanted(lines[..i], desired, ids) && Distinct(ids)
      {
        var found, x;
        LineAt(lines, lines', i);
        found, x, desired' := FindWanted(lines'[i].1, desired, desired');
        SameLinesUpdate(lines, lines', i, x);
        lines' := lines'[i := (lines'[i].0, x)];
        UnwantedSnoc(lines, desired, ids, i);
        if !found {
          ids := ids + [lines[i].0];
        }
      }
      assert lines[..|lines|] == lines;
      UnwantedAreLines(lines, desired, ids);
    }

    /** The inner loop of repairsToDelete. */
    method FindWanted(line: Schedule, ghost asked: seq<Wanted>, desired: seq<Wanted>)
      returns (found: bool, line': Schedule, desired': seq<Wanted>)
      requires SameWanteds(asked, desired)
      ensures found <==> IsWanted(asked, KeyOf(line))
      ensures SameUpToTables(line, line') && SameWanteds(asked, desired')
    {
      hide SortStrings;
      found, line', desired' := false, line, desired;
      var j := 0;
      while j < |desired| && !found
        invariant 0 <= j <= |desired| && SameUpToTables(line, line') && SameWanteds(asked, desired')
        invariant found ==> IsWanted(asked, KeyOf(line))
        invariant !found ==> forall k :: 0 <= k < j ==> WantedKey(asked[k]) != KeyOf(line)
      {
        SortingKeepsKey(line'.tables);
        SortingKeepsWanted(asked[j], desired'[j]);
        var y;
        found, line', y := SameRepair(line', desired'[j]);
        desired' := desired'[j := y];
        j := j + 1;
      }
    }

    /** Removes schedules one by one until a request fails. */
    method RemoveAll(ids: seq<nat>) returns (ok: bool)
      requires Valid() && Distinct(ids) && forall i :: 0 <= i < |ids| ==> Owned(schedules, ids[i])
      modifies `schedules, `log
      ensures Valid() && old(log) <= log
      ensures RemovedSome(old(schedules), schedules, ids)
      ensures ok ==> forall id :: id in ids ==> id !in schedules
      ensures ids == [] ==> ok && schedules == old(schedules) && log == old(log)
      ensures reliable ==> ok
    {
      for i := 0 to |ids|
        invariant Valid() && old(log) <= log
        invariant forall id :: id in schedules ==> id in old(schedules) && schedules[id] == old(schedules)[id]
        invariant forall id :: id in old(schedules) && id !in schedules ==> id in ids[..i]
        invariant forall id :: id in ids[..i] ==> id !in schedules
        invariant i == 0 ==> schedules == old(schedules) && log == old(log)
      {
        assert ids[..i + 1] == ids[..i] + [ids[i]];
        ok := RemoveRepairSchedule(ids[i]);
        if !ok {
          return;
        }
      }
      assert ids[..|ids|] == ids;
      ok := true;
    }

    /** The loop over the wanted repairs, whose tables the comparisons have sorted by now. */
    method ReconcileWanted(lines: seq<Line>, ghost desired: seq<Wanted>, wanted: seq<Wanted>, now: int) returns (ok: bool)
      requires Valid() && SameWanteds(desired, wanted)
      requires Reconcilable(schedules, lines, desired) || NoneListed(lines, desired)
      modifies `schedules, `log, `next
      ensures Valid() && old(log) <= log && OthersKept(old(schedules), schedules) && (reliable ==> ok)
      ensures Reconcilable(old(schedules), lines, desired) ==>
                && DistinctKeys(schedules) && (ok ==> Converged(parse, schedules, desired))
                && (Converged(parse, old(schedules), desired) ==> schedules == old(schedules) && log == old(log))
      ensures NoneListed(lines, desired) && ok ==> Appended(parse, old(schedules), old(next), desired, schedules)
    {
      hide DistinctKeys, Served, Truthful, OthersKept, DistinctLines, IsWanted, OnlyKey, AllWanted, SameLines, SortStrings,
        Appended, CreatedFor, Unlisted, Listed;
      ghost var tidy := Reconcilable(schedules, lines, desired);
      NothingChanged(schedules);
      NothingAppended(parse, schedules, next, desired);
      SameLinesRefl(lines);
      var listing := lines;
      for i := 0 to |wanted|
        invariant Valid() && old(log) <= log && OthersKept(old(schedules), schedules) && SameLines(lines, listing)
        invariant tidy ==> DistinctKeys(schedules) && AllWanted(schedules, desired) && DistinctLines(listing)
        invariant tidy ==> forall k :: 0 <= k < i ==> Served(parse, schedules, desired[k])
        invariant tidy ==> forall k :: i <= k < |desired| ==> Listed(schedules, listing, WantedKey(desired[k]))
        invariant tidy && Converged(parse, old(schedules), desired) ==> schedules == old(schedules) && log == old(log)
        invariant NoneListed(lines, desired) ==>
                    next == old(next) + i && Appended(parse, old(schedules), old(next), desired[..i], schedules)
      {
        assert SameWanted(desired[i], wanted[i]);
        ghost var before, lines0 := schedules, listing;
        if tidy {
          TruthfulWhen(schedules, listing, wanted[i]);
          ServedIgnoresOrder(parse, schedules, desired[i], wanted[i]);
        }
        StillUnlisted(lines, listing, desired, i);
        ok, listing := ReconcileRepair(listing, wanted[i], now);
        SameLinesChain(lines, lines0, listing);
        if tidy {
          OnlyKeyKeeps(parse, before, schedules, desired, i);
          OthersKeptChain(old(schedules), before, schedules);
        } else if ok {
          CreatedKeepsOthers(parse, before, old(next) + i, wanted[i], schedules);
          OthersKeptChain(old(schedules), before, schedules);
        }
        if !ok {
          return;
        }
        if NoneListed(lines, desired) {
          AppendedOneMore(parse, old(schedules), before, old(next), desired, i, wanted[i], schedules);
        }
        if tidy {
          ServedIgnoresOrder(parse, schedules, desired[i], wanted[i]);
          SameLinesKeep(before, schedules, lines0, listing, desired, i);
        }
      }
      assert desired[..|desired|] == desired;
      ok := true;
      if tidy {
        ConvergedMeans(parse, schedules, desired);
      }
    }

    /** reconcileRepairSchedules. Wherever it stops, other owners' schedules are as they were and
        no repair has two schedules. Without errors schedules and repairs correspond one to one,
        and once they do a pass writes nothing. From a store that has none of the wanted schedules
        this comes about exactly when no two repairs have the same keyspace and tables. */
    method ReconcileRepairSchedules(enabled: bool, desired: seq<Wanted>, now: int) returns (ok: bool)
      requires Valid() && DistinctKeys(schedules) && (DistinctWanted(desired) || NoneStored(schedules, desired))
      modifies `schedules, `log, `next
      ensures Valid() && old(log) <= log && OthersKept(old(schedules), schedules) && (reliable ==> ok)
      ensures ok && enabled && DistinctWanted(desired) ==> forall i :: 0 <= i < |desired| ==> HasFit(parse, schedules, desired[i])
      ensures DistinctWanted(desired) || !enabled ==> DistinctKeys(schedules)
      ensures ok && enabled && DistinctWanted(desired) ==> Converged(parse, schedules, desired)
      ensures ok && enabled && NoneStored(old(schedules), desired) ==> (Converged(parse, schedules, desired) <==> DistinctWanted(desired))
      ensures ok && !enabled ==> forall id :: !Owned(schedules, id)
      ensures enabled && Converged(parse, old(schedules), desired) ==> schedules == old(schedules) && log == old(log)
    {
      hide DistinctKeys, Served, Listed, OthersKept, DistinctLines, Converged, IsWanted, SameLines, AllWanted, Owned, DistinctWanted,
        HasFit, NoneListed, NoneStored, Appended, Reconcilable;
      NothingChanged(schedules);
      ConvergedIsStored(parse, schedules, desired);
      var reachable := Request();
      if !reachable {
        return false;
      }
      var lines := OperatorSchedules();
      LinesAreOwned(schedules, lines);
      var ids, listing, wanted;
      if enabled {
        ids, listing, wanted := RepairsToDelete(lines, desired);
      } else {
        ids := seq(|lines|, i requires 0 <= i < |lines| => lines[i].0);
        AllIds(lines, ids);
      }
      RemovableIds(schedules, lines, ids);
      ok := RemoveAll(ids);
      RemovalKeeps(old(schedules), schedules, ids);
      if !enabled {
        AllRemoved(old(schedules), schedules, lines, ids);
        return;
      }
      NothingToRemove(parse, old(schedules), lines, desired, ids);
      if !ok {
        return;
      }
      RemovalFacts(old(schedules), schedules, lines, listing, desired, ids);
      ListingAfterRemoval(old(schedules), schedules, lines, listing, desired);
      ghost var trimmed, first := schedules, next;
      ok := ReconcileWanted(listing, desired, wanted, now);
      OthersKeptChain(old(schedules), trimmed, schedules);
      if Converged(parse, schedules, desired) {
        ConvergedFits(parse, schedules, desired);
      }
      if ok && NoneListed(listing, desired) && !DistinctWanted(desired) {
        AppendedTwice(parse, trimmed, first, desired, schedules);
      }
    }
  }

  /******* A listing without the wanted schedules *******/

  /** The listing tells the truth about this repair, and the store has at most one schedule for each. */
  ghost predicate Truthful(store: map<nat, Schedule>, lines: seq<Line>, key: Key) {
    DistinctKeys(store) && DistinctLines(lines) && Listed(store, lines, key)
  }

  ghost predicate Unlisted(lines: seq<Line>, key: Key) {
    forall i :: 0 <= i < |lines| ==> KeyOf(lines[i].1) != key
  }

  ghost predicate NoneListed(lines: seq<Line>, desired: seq<Wanted>) {
    forall i :: 0 <= i < |desired| ==> Unlisted(lines, WantedKey(desired[i]))
  }

  ghost predicate NoneStored(store: map<nat, Schedule>, desired: seq<Wanted>) {
    forall id :: Owned(store, id) ==> !IsWanted(desired, KeyOf(store[id]))
  }

  ghost predicate Reconcilable(store: map<nat, Schedule>, lines: seq<Line>, desired: seq<Wanted>) {
    && DistinctKeys(store) && DistinctWanted(desired) && DistinctLines(lines) && AllWanted(store, desired)
    && forall i :: 0 <= i < |desired| ==> Listed(store, lines, WantedKey(desired[i]))
  }

  /** A schedule for this repair was stored under the id. */
  ghost predicate CreatedFor(parse: string -> Option<real>, before: map<nat, Schedule>, id: nat, d: Wanted, after: map<nat, Schedule>) {
    id in after && after == before[id := after[id]] && Matches(parse, after[id], d)
  }

  ghost predicate StoredFor(parse: string -> Option<real>, store: map<nat, Schedule>, id: nat, d: Wanted) {
    id in store && Matches(parse, store[id], d)
  }

  /** One schedule for each repair was stored, under the ids from `first` on. */
  ghost predicate Appended(parse: string -> Option<real>, before: map<nat, Schedule>, first: nat, desired: seq<Wanted>,
                           after: map<nat, Schedule>) {
    && (forall id :: id < first ==> (id in after <==> id in before) && (id in before ==> after[id] == before[id]))
    && (forall i :: 0 <= i < |desired| ==> StoredFor(parse, after, first + i, desired[i]))
  }

  lemma CreatedMatches(parse: string -> Option<real>, desired: Wanted, d: Wanted)
    requires SameWanted(d, desired)
    ensures Matches(parse, ToReaper(parse, desired), d)
  {
  }

  lemma TruthfulWhen(store: map<nat, Schedule>, lines: seq<Line>, d: Wanted)
    requires DistinctKeys(store) && DistinctLines(lines) && Listed(store, lines, WantedKey(d))
    ensures Truthful(store, lines, WantedKey(d))
  {
  }

  lemma StillUnlisted(lines: seq<Line>, lines': seq<Line>, desired: seq<Wanted>, i: nat)
    requires SameLines(lines, lines') && i < |desired|
    ensures NoneListed(lines, desired) ==> Unlisted(lines', WantedKey(desired[i]))
  {
    if NoneListed(lines, desired) {
      assert Unlisted(lines, WantedKey(desired[i]));
    }
  }

  lemma CreatedKeepsOthers(parse: string -> Option<real>, before: map<nat, Schedule>, id: nat, d: Wanted, after: map<nat, Schedule>)
    requires CreatedFor(parse, before, id, d, after) && id !in before
    ensures OthersKept(before, after)
  {
  }

  lemma NothingAppended(parse: string -> Option<real>, store: map<nat, Schedule>, first: nat, desired: seq<Wanted>)
    ensures Appended(parse, store, first, desired[..0], store)
  {
  }

  lemma AppendedOneMore(parse: string -> Option<real>, start: map<nat, Schedule>, before: map<nat, Schedule>, first: nat,
                        desired: seq<Wanted>, i: nat, d: Wanted, after: map<nat, Schedule>)
    requires i < |desired| && Appended(parse, start, first, desired[..i], before)
    requires SameWanted(desired[i], d) && CreatedFor(parse, before, first + i, d, after)
    ensures Appended(parse, start, first, desired[..i + 1], after)
  {
    hide Matches;
    MatchesEither(parse, after[first + i], desired[i], d);
    var sofar, more := desired[..i], desired[..i + 1];
    forall k | 0 <= k < |more| ensures StoredFor(parse, after, first + k, more[k]) {
      if k < i {
        assert sofar[k] == more[k] && StoredFor(parse, before, first + k, sofar[k]);
        assert after[first + k] == before[first + k];
      } else {
        assert more[k] == desired[i];
      }
    }
    forall id | id < first ensures (id in after <==> id in before) && (id in before ==> after[id] == before[id]) {
    }
  }

  lemma ConvergedIsStored(parse: string -> Option<real>, store: map<nat, Schedule>, desired: seq<Wanted>)
    ensures NoneStored(store, desired) && Converged(parse, store, desired) ==> DistinctWanted(desired)
  {
    hide Matches;
    if Converged(parse, store, desired) && desired != [] {
      assert Served(parse, store, desired[0]);
      var id :| HasKey(store, id, WantedKey(desired[0])) && Matches(parse, store[id], desired[0]);
      assert IsWanted(desired, WantedKey(desired[0]));
    }
  }

  lemma MatchesMeans(parse: string -> Option<real>, s: Schedule, d: Wanted)
    requires Matches(parse, s, d)
    ensures s.owner == OPERATOR && KeyOf(s) == WantedKey(d)
  {
  }

  /** Two repairs with one key were given two schedules. */
  lemma AppendedTwice(parse: string -> Option<real>, before: map<nat, Schedule>, first: nat, desired: seq<Wanted>,
                      after: map<nat, Schedule>)
    requires Appended(parse, before, first, desired, after) && !DistinctWanted(desired)
    ensures !Converged(parse, after, desired)
  {
    hide Matches, WantedKey, KeyOf, Served;
    var i, j :| 0 <= i < j < |desired| && WantedKey(desired[i]) == WantedKey(desired[j]);
    assert StoredFor(parse, after, first + i, desired[i]) && StoredFor(parse, after, first + j, desired[j]);
    MatchesMeans(parse, after[first + i], desired[i]);
    MatchesMeans(parse, after[first + j], desired[j]);
    assert Owned(after, first + i) && HasKey(after, first + j, KeyOf(after[first + i]));
  }

  lemma ListingAfterRemoval(before: map<nat, Schedule>, after: map<nat, Schedule>, lines: seq<Line>, listing: seq<Line>,
                            desired: seq<Wanted>)
    requires SameLines(lines, listing) && (forall key :: Listed(before, lines, key))
    requires DistinctKeys(after) && DistinctLines(listing) && AllWanted(after, desired)
    requires forall i :: 0 <= i < |desired| ==> Listed(after, listing, WantedKey(desired[i]))
    ensures DistinctWanted(desired) ==> Reconcilable(after, listing, desired)
    ensures NoneStored(before, desired) ==> NoneListed(listing, desired)
  {
    LinesAreOwned(before, lines);
    if NoneStored(before, desired) {
      forall i, k | 0 <= i < |desired| && 0 <= k < |listing| ensures KeyOf(listing[k].1) != WantedKey(desired[i]) {
        assert Owned(before, lines[k].0);
        assert IsWanted(desired, WantedKey(desired[i]));
      }
    }
  }

  ghost predicate AllWanted(store: map<nat, Schedule>, desired: seq<Wanted>) {
    forall id :: Owned(store, id) ==> IsWanted(desired, KeyOf(store[id]))
  }

  lemma NothingChanged(store: map<nat, Schedule>)
    ensures OthersKept(store, store)
  {
  }

  lemma OthersKeptChain(a: map<nat, Schedule>, b: map<nat, Schedule>, c: map<nat, Schedule>)
    requires OthersKept(a, b) && OthersKept(b, c)
    ensures OthersKept(a, c)
  {
  }

  lemma ServedIgnoresOrder(parse: string -> Option<real>, store: map<nat, Schedule>, d: Wanted, e: Wanted)
    requires SameWanted(d, e)
    ensures Served(parse, store, d) <==> Served(parse, store, e)
  {
    forall s: Schedule ensures Matches(parse, s, d) <==> Matches(parse, s, e) {
      MatchesEither(parse, s, d, e);
    }
  }

  lemma MatchesEither(parse: string -> Option<real>, s: Schedule, d: Wanted, e: Wanted)
    requires SameWanted(d, e)
    ensures Matches(parse, s, d) <==> Matches(parse, s, e)
  {
  }

  lemma ConvergedMeans(parse: string -> Option<real>, store: map<nat, Schedule>, desired: seq<Wanted>)
    requires DistinctKeys(store) && AllWanted(store, desired) && forall i :: 0 <= i < |desired| ==> Served(parse, store, desired[i])
    ensures Converged(parse, store, desired)
  {
    hide Served, DistinctKeys;
  }

  /** A change confined to one wanted repair leaves the others served and everything wanted. */
  lemma OnlyKeyKeeps(parse: string -> Option<real>, before: map<nat, Schedule>, after: map<nat, Schedule>, desired: seq<Wanted>, i: nat)
    requires i < |desired| && DistinctWanted(desired) && OnlyKey(before, after, WantedKey(desired[i])) && AllWanted(before, desired)
    ensures AllWanted(after, desired) && OthersKept(before, after)
    ensures forall k :: 0 <= k < |desired| && k != i && Served(parse, before, desired[k]) ==> Served(parse, after, desired[k])
  {
    hide Matches;
    forall id | Owned(after, id) ensures IsWanted(desired, KeyOf(after[id])) {
      if KeyOf(after[id]) != WantedKey(desired[i]) {
        assert !HasKey(after, id, WantedKey(desired[i])) && Owned(before, id);
      }
    }
    forall k | 0 <= k < |desired| && k != i && Served(parse, before, desired[k]) ensures Served(parse, after, desired[k]) {
      var id :| HasKey(before, id, WantedKey(desired[k])) && Matches(parse, before[id], desired[k]);
      assert WantedKey(desired[k]) != WantedKey(desired[i]);
      assert !HasKey(before, id, WantedKey(desired[i]));
      assert HasKey(after, id, WantedKey(desired[k]));
    }
    forall id | id in before && before[id].owner != OPERATOR ensures id in after && after[id] == before[id] {
      assert !HasKey(before, id, WantedKey(desired[i]));
    }
    forall id | id in after && after[id].owner != OPERATOR ensures id in before && before[id] == after[id] {
      assert !HasKey(after, id, WantedKey(desired[i]));
    }
  }

  /** Convergence is a bijection: each repair has exactly one schedule, and it is the schedule of no other. */
  lemma ConvergedIsBijection(parse: string -> Option<real>, store: map<nat, Schedule>, desired: seq<Wanted>, i: nat) returns (id: nat)
    requires Converged(parse, store, desired) && DistinctWanted(desired) && i < |desired|
    ensures Owned(store, id) && Matches(parse, store[id], desired[i])
    ensures forall x :: Owned(store, x) && x != id ==> !Matches(parse, store[x], desired[i])
    ensures forall j :: 0 <= j < |desired| && j != i ==> !Matches(parse, store[id], desired[j])
  {
    assert Served(parse, store, desired[i]);
    id :| HasKey(store, id, WantedKey(desired[i])) && Matches(parse, store[id], desired[i]);
    forall x | Owned(store, x) && Matches(parse, store[x], desired[i]) ensures x == id {
      assert HasKey(store, x, KeyOf(store[id]));
    }
  }

  /** Repairs with one key must agree in all other settings, save in the text of the intensity; where they
      differ no store is ever converged. */
  lemma ConvergedSettingsAgree(parse: string -> Option<real>, store: map<nat, Schedule>, desired: seq<Wanted>, i: nat, j: nat)
    requires i < |desired| && j < |desired| && WantedKey(desired[i]) == WantedKey(desired[j])
    requires Converged(parse, store, desired)
    ensures var d, e := desired[i], desired[j];
            && d.daysBetween == e.daysBetween && d.datacenters == e.datacenters && d.incremental == e.incremental
            && d.threads == e.threads && d.parallelism == e.parallelism
            && exists value :: IsIntensity(parse, d.intensity, value) && IsIntensity(parse, e.intensity, value)
  {
    hide Matches;
    assert Served(parse, store, desired[i]) && Served(parse, store, desired[j]);
    var a :| HasKey(store, a, WantedKey(desired[i])) && Matches(parse, store[a], desired[i]);
    var b :| HasKey(store, b, WantedKey(desired[j])) && Matches(parse, store[b], desired[j]);
    assert Owned(store, a) && HasKey(store, b, KeyOf(store[a]));
    MatchesIsFits(parse, store[a], desired[i]);
    MatchesIsFits(parse, store[b], desired[j]);
  }

  lemma SameLinesRefl(lines: seq<Line>)
    ensures SameLines(lines, lines)
  {
  }

  lemma SameLinesChain(a: seq<Line>, b: seq<Line>, c: seq<Line>)
    requires SameLines(a, b) && SameLines(b, c)
    ensures SameLines(a, c)
  {
  }

  /** The listing, sorted here and there, still tells the truth about the other repairs. */
  lemma SameLinesKeep(before: map<nat, Schedule>, after: map<nat, Schedule>, lines: seq<Line>, lines': seq<Line>, desired: seq<Wanted>,
                      i: nat)
    requires i < |desired| && DistinctWanted(desired) && OnlyKey(before, after, WantedKey(desired[i]))
    requires SameLines(lines, lines') && DistinctLines(lines)
    ensures DistinctLines(lines')
    ensures forall k :: i < k < |desired| && Listed(before, lines, WantedKey(desired[k])) ==> Listed(after, lines', WantedKey(desired[k]))
  {
    forall k | i < k < |desired| && Listed(before, lines, WantedKey(desired[k])) ensures Listed(after, lines', WantedKey(desired[k])) {
      assert WantedKey(desired[i]) != WantedKey(desired[k]);
      ListedElsewhere(before, after, lines, lines', WantedKey(desired[i]), WantedKey(desired[k]));
    }
  }

  lemma ListedElsewhere(before: map<nat, Schedule>, after: map<nat, Schedule>, lines: seq<Line>, lines': seq<Line>, changed: Key, key: Key)
    requires OnlyKey(before, after, changed) && SameLines(lines, lines') && Listed(before, lines, key) && key != changed
    ensures Listed(after, lines', key)
  {
    forall j | 0 <= j < |lines'| && KeyOf(lines'[j].1) == key ensures SameSchedule(after, lines'[j]) {
      assert KeyOf(lines[j].1) == key && SameSchedule(before, lines[j]);
      assert !HasKey(before, lines[j].0, changed);
    }
    forall id | HasKey(after, id, key) ensures InLines(lines', id, key) {
      assert !HasKey(after, id, changed);
      assert HasKey(before, id, key);
      var j :| 0 <= j < |lines| && lines[j].0 == id && KeyOf(lines[j].1) == key;
      assert KeyOf(lines'[j].1) == key;
    }
  }

  lemma LinesAreOwned(store: map<nat, Schedule>, lines: seq<Line>)
    requires forall key :: Listed(store, lines, key)
    ensures forall i :: 0 <= i < |lines| ==> Owned(store, lines[i].0) && KeyOf(store[lines[i].0]) == KeyOf(lines[i].1)
    ensures forall id :: Owned(store, id) ==> InLines(lines, id, KeyOf(store[id]))
  {
    forall i | 0 <= i < |lines| ensures Owned(store, lines[i].0) && KeyOf(store[lines[i].0]) == KeyOf(lines[i].1) {
      assert Listed(store, lines, KeyOf(lines[i].1));
      assert SameSchedule(store, lines[i]);
    }
    forall id | Owned(store, id) ensures InLines(lines, id, KeyOf(store[id])) {
      assert Listed(store, lines, KeyOf(store[id])) && HasKey(store, id, KeyOf(store[id]));
    }
  }

  ghost predicate FromLines(lines: seq<Line>, ids: seq<nat>) {
    Distinct(ids) && forall id :: id in ids ==> exists j :: 0 <= j < |lines| && lines[j].0 == id
  }

  lemma RemovableIds(store: map<nat, Schedule>, lines: seq<Line>, ids: seq<nat>)
    requires FromLines(lines, ids) && forall i :: 0 <= i < |lines| ==> Owned(store, lines[i].0)
    ensures forall i :: 0 <= i < |ids| ==> Owned(store, ids[i])
  {
    forall i | 0 <= i < |ids| ensures Owned(store, ids[i]) {
      assert ids[i] in ids;
    }
  }

  lemma AllIds(lines: seq<Line>, ids: seq<nat>)
    requires DistinctLines(lines) && |ids| == |lines| && forall i :: 0 <= i < |lines| ==> ids[i] == lines[i].0
    ensures FromLines(lines, ids)
  {
  }

  ghost predicate RemovedSome(before: map<nat, Schedule>, after: map<nat, Schedule>, ids: seq<nat>) {
    && (forall id :: id in after ==> id in before && after[id] == before[id])
    && (forall id :: id in before && id !in after ==> id in ids)
  }

  lemma RemovalKeeps(before: map<nat, Schedule>, after: map<nat, Schedule>, ids: seq<nat>)
    requires RemovedSome(before, after, ids) && forall i :: 0 <= i < |ids| ==> Owned(before, ids[i])
    ensures DistinctKeys(before) ==> DistinctKeys(after)
    ensures OthersKept(before, after)
  {
    forall id | id in before && before[id].owner != OPERATOR ensures id in after {
      assert id !in ids;
    }
    if DistinctKeys(before) {
      forall a, b | Owned(after, a) && HasKey(after, b, KeyOf(after[a])) ensures a == b {
        assert HasKey(before, b, KeyOf(before[a]));
      }
    }
  }

  lemma AllRemoved(before: map<nat, Schedule>, after: map<nat, Schedule>, lines: seq<Line>, ids: seq<nat>)
    requires RemovedSome(before, after, ids) && |ids| == |lines| && forall i :: 0 <= i < |lines| ==> ids[i] == lines[i].0
    requires forall id :: Owned(before, id) ==> InLines(lines, id, KeyOf(before[id]))
    ensures (forall id :: id in ids ==> id !in after) ==> forall id :: !Owned(after, id)
  {
    forall id | Owned(after, id) ensures id in ids {
      var i :| 0 <= i < |lines| && lines[i].0 == id && KeyOf(lines[i].1) == KeyOf(before[id]);
      assert ids[i] == id;
    }
  }

  ghost predicate Unwanted(lines: seq<Line>, desired: seq<Wanted>, ids: seq<nat>) {
    forall id :: id in ids <==> UnwantedId(lines, desired, id)
  }

  ghost predicate UnwantedId(lines: seq<Line>, desired: seq<Wanted>, id: nat) {
    exists i :: 0 <= i < |lines| && lines[i].0 == id && !IsWanted(desired, KeyOf(lines[i].1))
  }

  lemma NothingUnwanted(lines: seq<Line>, desired: seq<Wanted>)
    ensures Unwanted(lines[..0], desired, [])
  {
  }

  lemma LineAt(lines: seq<Line>, lines': seq<Line>, i: nat)
    requires SameLines(lines, lines') && i < |lines|
    ensures KeyOf(lines'[i].1) == KeyOf(lines[i].1)
  {
  }

  lemma SameLinesUpdate(lines: seq<Line>, lines': seq<Line>, i: nat, x: Schedule)
    requires SameLines(lines, lines') && i < |lines| && SameUpToTables(lines'[i].1, x)
    ensures SameLines(lines, lines'[i := (lines'[i].0, x)])
  {
  }

  lemma UnwantedSnoc(lines: seq<Line>, desired: seq<Wanted>, ids: seq<nat>, i: nat)
    requires DistinctLines(lines) && i < |lines| && Unwanted(lines[..i], desired, ids) && Distinct(ids)
    ensures if IsWanted(desired, KeyOf(lines[i].1)) then Unwanted(lines[..i + 1], desired, ids)
            else Unwanted(lines[..i + 1], desired, ids + [lines[i].0]) && Distinct(ids + [lines[i].0])
  {
    hide IsWanted;
    assert lines[..i + 1] == lines[..i] + [lines[i]];
    assert lines[i].0 !in ids;
    var more := lines[..i + 1];
    forall id
      ensures UnwantedId(more, desired, id)
              <==> UnwantedId(lines[..i], desired, id) || (id == lines[i].0 && !IsWanted(desired, KeyOf(lines[i].1)))
    {
      if UnwantedId(lines[..i], desired, id) {
        var k :| 0 <= k < i && lines[..i][k].0 == id && !IsWanted(desired, KeyOf(lines[..i][k].1));
        assert more[k] == lines[..i][k];
      }
      assert more[i] == lines[i];
    }
  }

  lemma UnwantedAreLines(lines: seq<Line>, desired: seq<Wanted>, ids: seq<nat>)
    requires Unwanted(lines, desired, ids) && Distinct(ids)
    ensures FromLines(lines, ids)
  {
  }

  lemma NothingToRemove(parse: string -> Option<real>, store: map<nat, Schedule>, lines: seq<Line>, desired: seq<Wanted>, ids: seq<nat>)
    requires Unwanted(lines, desired, ids)
    requires forall i :: 0 <= i < |lines| ==> Owned(store, lines[i].0) && KeyOf(store[lines[i].0]) == KeyOf(lines[i].1)
    ensures Converged(parse, store, desired) ==> ids == []
  {
    hide IsWanted;
    if ids != [] {
      assert ids[0] in ids;
      var i :| 0 <= i < |lines| && lines[i].0 == ids[0] && !IsWanted(desired, KeyOf(lines[i].1));
      assert Owned(store, lines[i].0);
    }
  }

  lemma RemovalFacts(before: map<nat, Schedule>, after: map<nat, Schedule>, lines: seq<Line>, lines': seq<Line>, desired: seq<Wanted>,
                     ids: seq<nat>)
    requires RemovedSome(before, after, ids) && (forall id :: id in ids ==> id !in after) && Unwanted(lines, desired, ids)
    requires (forall key :: Listed(before, lines, key)) && SameLines(lines, lines') && DistinctLines(lines)
    ensures AllWanted(after, desired) && DistinctLines(lines')
    ensures forall i :: 0 <= i < |desired| ==> Listed(after, lines', WantedKey(desired[i]))
  {
    LinesAreOwned(before, lines);
    forall id | Owned(after, id) ensures IsWanted(desired, KeyOf(after[id])) {
      var i :| 0 <= i < |lines| && lines[i].0 == id && KeyOf(lines[i].1) == KeyOf(before[id]);
      assert id !in ids;
    }
    forall i | 0 <= i < |desired| ensures Listed(after, lines', WantedKey(desired[i])) {
      StillListed(before, after, lines, lines', desired, ids, WantedKey(desired[i]));
    }
  }

  lemma StillListed(before: map<nat, Schedule>, after: map<nat, Schedule>, lines: seq<Line>, lines': seq<Line>, desired: seq<Wanted>,
                    ids: seq<nat>, key: Key)
    requires RemovedSome(before, after, ids) && Unwanted(lines, desired, ids) && Listed(before, lines, key)
    requires SameLines(lines, lines') && DistinctLines(lines) && IsWanted(desired, key)
    ensures Listed(after, lines', key)
  {
    hide IsWanted, SameSchedule, Unwanted, RemovedSome, SameLines, InLines, HasKey, DistinctLines;
    forall j | 0 <= j < |lines'| && KeyOf(lines'[j].1) == key ensures SameSchedule(after, lines'[j]) {
      LineStaysTrue(before, after, lines, lines', desired, ids, key, j);
    }
    forall id | HasKey(after, id, key) ensures InLines(lines', id, key) {
      LineIsThere(before, after, lines, lines', ids, key, id);
    }
  }

  lemma LineStaysTrue(before: map<nat, Schedule>, after: map<nat, Schedule>, lines: seq<Line>, lines': seq<Line>, desired: seq<Wanted>,
                      ids: seq<nat>, key: Key, j: nat)
    requires RemovedSome(before, after, ids) && Unwanted(lines, desired, ids) && Listed(before, lines, key)
    requires SameLines(lines, lines') && DistinctLines(lines) && IsWanted(desired, key)
    requires j < |lines'| && KeyOf(lines'[j].1) == key
    ensures SameSchedule(after, lines'[j])
  {
    hide IsWanted;
    assert KeyOf(lines[j].1) == key && SameSchedule(before, lines[j]);
    assert lines[j].0 !in ids;
  }

  lemma LineIsThere(before: map<nat, Schedule>, after: map<nat, Schedule>, lines: seq<Line>, lines': seq<Line>, ids: seq<nat>, key: Key,
                    id: nat)
    requires RemovedSome(before, after, ids) && Listed(before, lines, key) && SameLines(lines, lines') && HasKey(after, id, key)
    ensures InLines(lines', id, key)
  {
    hide SameSchedule;
    assert HasKey(before, id, key);
    var j :| 0 <= j < |lines| && lines[j].0 == id && KeyOf(lines[j].1) == key;
    assert KeyOf(lines'[j].1) == key;
  }

  ghost predicate SameUpToTables(x: Schedule, y: Schedule) {
    KeyOf(x) == KeyOf(y) && y == x.(tables := y.tables)
  }

  ghost predicate SameWanted(d: Wanted, e: Wanted) {
    WantedKey(d) == WantedKey(e) && e == d.(tables := e.tables)
  }

  ghost predicate SameLines(lines: seq<Line>, lines': seq<Line>) {
    |lines'| == |lines| && forall i :: 0 <= i < |lines| ==> lines'[i].0 == lines[i].0 && SameUpToTables(lines[i].1, lines'[i].1)
  }

  ghost predicate SameWanteds(desired: seq<Wanted>, desired': seq<Wanted>) {
    |desired'| == |desired| && forall i :: 0 <= i < |desired| ==> SameWanted(desired[i], desired'[i])
  }

  lemma SortingKeepsLine(lines: seq<Line>, lines': seq<Line>, i: nat)
    requires SameLines(lines, lines') && i < |lines|
    ensures var x := lines'[i].1;
            KeyOf(x) == KeyOf(lines[i].1) && SameLines(lines, lines'[i := (lines'[i].0, x.(tables := SortStrings(x.tables)))])
  {
    SortingKeepsKey(lines'[i].1.tables);
  }

  lemma SortingKeepsWanted(d: Wanted, e: Wanted)
    requires SameWanted(d, e)
    ensures WantedKey(e) == WantedKey(d) && SameWanted(d, e.(tables := SortStrings(e.tables)))
  {
    SortingKeepsKey(e.tables);
  }

  lemma LinesSnoc(store: map<nat, Schedule>, lines: seq<Line>, id: nat)
    requires DistinctKeys(store) && DistinctLines(lines) && Owned(store, id)
    requires forall i :: 0 <= i < |lines| ==> Owned(store, lines[i].0) && lines[i].0 != id && lines[i].1 == store[lines[i].0]
    ensures var more := lines + [(id, store[id])];
            && DistinctLines(more) && InLines(more, id, KeyOf(store[id]))
            && forall x, key :: InLines(lines, x, key) ==> InLines(more, x, key)
  {
    var more := lines + [(id, store[id])];
    assert more[|lines|] == (id, store[id]);
    forall i | 0 <= i < |lines| ensures KeyOf(lines[i].1) != KeyOf(store[id]) {
      assert HasKey(store, lines[i].0, KeyOf(lines[i].1));
    }
    forall x, key | InLines(lines, x, key) ensures InLines(more, x, key) {
      var i :| 0 <= i < |lines| && lines[i].0 == x && KeyOf(lines[i].1) == key;
      assert more[i] == lines[i];
    }
  }

  lemma SameStore(store: map<nat, Schedule>, key: Key)
    ensures OnlyKey(store, store, key)
  {
  }

  lemma OnlyKeyChain(a: map<nat, Schedule>, b: map<nat, Schedule>, c: map<nat, Schedule>, key: Key)
    requires OnlyKey(a, b, key) && OnlyKey(b, c, key)
    ensures OnlyKey(a, c, key)
  {
    forall id | id in a && !HasKey(a, id, key) ensures id in c && c[id] == a[id] {
      assert !HasKey(b, id, key);
    }
    forall id | id in c && !HasKey(c, id, key) ensures id in a && a[id] == c[id] {
      assert !HasKey(b, id, key);
    }
  }

  lemma RemovedKey(store: map<nat, Schedule>, id: nat, key: Key)
    requires DistinctKeys(store) && HasKey(store, id, key)
    ensures var after := store - {id};
            DistinctKeys(after) && OnlyKey(store, after, key) && forall x :: !HasKey(after, x, key)
  {
    var after := store - {id};
    forall x ensures !HasKey(after, x, key) {
      assert HasKey(after, x, key) ==> HasKey(store, x, key);
    }
    forall a, b | Owned(after, a) && HasKey(after, b, KeyOf(after[a])) ensures a == b {
      assert HasKey(store, b, KeyOf(store[a]));
    }
  }

  lemma CreatedKey(parse: string -> Option<real>, store: map<nat, Schedule>, id: nat, d: Wanted, desired: Wanted)
    requires DistinctKeys(store) && id !in store && SameWanted(d, desired) && forall x :: !HasKey(store, x, WantedKey(d))
    ensures var after := store[id := ToReaper(parse, desired)];
            DistinctKeys(after) && OnlyKey(store, after, WantedKey(d)) && Served(parse, after, d)
  {
    var after := store[id := ToReaper(parse, desired)];
    assert HasKey(after, id, WantedKey(d)) && Matches(parse, after[id], d);
    forall a, b | Owned(after, a) && HasKey(after, b, KeyOf(after[a])) ensures a == b {
      assert a != id && b != id ==> HasKey(store, b, KeyOf(store[a]));
      assert a != id ==> !HasKey(store, a, WantedKey(d));
      assert b != id ==> !HasKey(store, b, WantedKey(d));
    }
  }

  /** What the comparison of a matching line decides about the store. */
  lemma ListedLine(parse: string -> Option<real>, store: map<nat, Schedule>, lines: seq<Line>, i: nat, listed: Schedule, d: Wanted,
                   unsorted: Wanted)
    requires DistinctKeys(store) && Listed(store, lines, WantedKey(d)) && i < |lines| && KeyOf(lines[i].1) == WantedKey(d)
    requires SameUpToTables(lines[i].1, listed) && SameWanted(d, unsorted)
    ensures HasKey(store, lines[i].0, WantedKey(d))
    ensures listed.(tables := SortStrings(listed.tables)) == ToReaper(parse, unsorted.(tables := SortStrings(unsorted.tables)))
            <==> Served(parse, store, d)
  {
    hide SortStrings;
    SortedEqualIsMatches(parse, listed, unsorted);
    assert SameSchedule(store, lines[i]);
    assert Matches(parse, listed, unsorted) <==> Matches(parse, store[lines[i].0], d);
    assert HasKey(store, lines[i].0, WantedKey(d));
    if Served(parse, store, d) {
      var id :| HasKey(store, id, WantedKey(d)) && Matches(parse, store[id], d);
      assert HasKey(store, id, KeyOf(store[lines[i].0]));
    }
  }

  lemma NobodyHasKey(parse: string -> Option<real>, store: map<nat, Schedule>, lines: seq<Line>, d: Wanted)
    requires Listed(store, lines, WantedKey(d)) && forall k :: 0 <= k < |lines| ==> KeyOf(lines[k].1) != WantedKey(d)
    ensures (forall id :: !HasKey(store, id, WantedKey(d))) && !Served(parse, store, d)
  {
    forall id ensures !HasKey(store, id, WantedKey(d)) {
      assert !InLines(lines, id, WantedKey(d));
    }
  }
}
