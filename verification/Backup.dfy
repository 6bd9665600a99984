/** Which backup of Icarus belongs to a backup resource: controllers/cassandrabackup/backup.go:49-103.
    A creation time is the instant it parses to, if it does. */
module Backup {
  import opened Option

  datatype Record = Record(id: string, tag: string, schema: string, global: bool, created: Option<int>)

  const EMPTY := Record("", "", "", false, None)

  /** strings.Contains */
  predicate Contains(s: string, part: string) {
    exists i :: 0 <= i <= |s| && part <= s[i..]
  }

  /** A coordinator request whose tag is the name, or holds the name followed by the schema version. */
  predicate Related(name: string, b: Record) {
    (Contains(b.tag, name + "-" + b.schema) || b.tag == name) && b.global
  }

  function TagName(tag: string, resource: string): string {
    if tag == "" then resource else tag
  }

  function RelatedOf(name: string, backups: seq<Record>): seq<Record> {
    if backups == [] then []
    else RelatedOf(name, backups[..|backups| - 1]) + if Related(name, backups[|backups| - 1]) then [backups[|backups| - 1]] else []
  }

  lemma {:induction false} RelatedOfMembers(name: string, backups: seq<Record>, b: Record)
    ensures b in RelatedOf(name, backups) <==> b in backups && Related(name, b)
  {
    if backups != [] {
      RelatedOfMembers(name, backups[..|backups| - 1], b);
      assert backups == backups[..|backups| - 1] + [backups[|backups| - 1]];
    }
  }

  /** The first of the latest: nothing related is newer, nothing listed before it is as new. */
  ghost predicate FirstOfLatest(related: seq<Record>, k: nat) {
    && k < |related| && related[k].created.Some?
    && (forall i :: 0 <= i < |related| && related[i].created.Some? ==> related[i].created.value <= related[k].created.value)
    && (forall i :: 0 <= i < k && related[i].created.Some? ==> related[i].created.value < related[k].created.value)
  }

  ghost predicate NoneParses(related: seq<Record>) {
    forall i :: 0 <= i < |related| ==> related[i].created.None?
  }

  /** What findRelatedBackup promises of the related records: a single one is taken as it is;
      of several the newest is taken, and an empty record when no creation time parses. */
  ghost predicate Chosen(related: seq<Record>, b: Record) {
    if |related| == 1 then b == related[0]
    else if NoneParses(related) then b == EMPTY
    else exists k: nat :: FirstOfLatest(related, k) && b == related[k]
  }

  method FindRelatedBackup(tag: string, resource: string, backups: seq<Record>) returns (b: Record, found: bool)
    ensures found <==> exists x :: x in backups && Related(TagName(tag, resource), x)
    ensures found ==> Chosen(RelatedOf(TagName(tag, resource), backups), b)
    ensures found <==> exists x :: x in backups && Belongs(tag, resource, x)
    ensures found && b != EMPTY ==> b in backups && Belongs(tag, resource, b)
    ensures found && b.created.Some? ==>
              forall x :: x in backups && Belongs(tag, resource, x) && x.created.Some? ==> x.created.value <= b.created.value
    ensures found && b.created.None? ==>
              (exists x :: x in backups && Belongs(tag, resource, x) && x.created.None?)
              && forall x :: x in backups && Belongs(tag, resource, x) ==> x.created.None?
  {
    BelongsIsRelated(tag, resource);
    ChosenMeans(TagName(tag, resource), backups);
    var name := TagName(tag, resource);
    var related: seq<Record> := [];
    for i := 0 to |backups|
      invariant related == RelatedOf(name, backups[..i])
    {
      assert backups[..i + 1][..i] == backups[..i];
      if Related(name, backups[i]) {
        related := related + [backups[i]];
      }
    }
    assert backups[..|backups|] == backups;
    RelatedExists(name, backups);
    if |related| == 0 {
      return EMPTY, false;
    }
    if |related| == 1 {
      return related[0], true;
    }
    b := Newest(related);
    found := true;
  }

  /** A record of the coordinator, tagged with the backup's own tag, or the resource's name without one,
      or with a tag that holds it followed by a dash and the schema version. */
  ghost predicate Belongs(tag: string, resource: string, b: Record) {
    var name := if |tag| > 0 then tag else resource;
    b.global && (b.tag == name || exists i, j :: 0 <= i <= j <= |b.tag| && b.tag[i..j] == name + "-" + b.schema)
  }

  lemma BelongsIsRelated(tag: string, resource: string)
    ensures forall b :: Belongs(tag, resource, b) <==> Related(TagName(tag, resource), b)
  {
    forall b ensures Belongs(tag, resource, b) <==> Related(TagName(tag, resource), b) {
      var part := TagName(tag, resource) + "-" + b.schema;
      if i :| 0 <= i <= |b.tag| && part <= b.tag[i..] {
        assert b.tag[i..i + |part|] == part;
      }
      if i, j :| 0 <= i <= j <= |b.tag| && b.tag[i..j] == part {
        assert b.tag[i..][..j - i] == part;
      }
    }
  }

  lemma ChosenMeans(name: string, backups: seq<Record>)
    ensures forall x :: x in RelatedOf(name, backups) <==> x in backups && Related(name, x)
    ensures forall b :: Chosen(RelatedOf(name, backups), b) && RelatedOf(name, backups) != [] ==>
              && (b != EMPTY ==> b in RelatedOf(name, backups))
              && (b.created.Some? ==>
                    forall x :: x in RelatedOf(name, backups) && x.created.Some? ==> x.created.value <= b.created.value)
              && (b.created.None? ==> NoneParses(RelatedOf(name, backups)))
  {
    hide Related;
    var related := RelatedOf(name, backups);
    forall x ensures x in related <==> x in backups && Related(name, x) {
      RelatedOfMembers(name, backups, x);
    }
    forall b | Chosen(related, b) && related != [] && b.created.Some?
      ensures forall x :: x in related && x.created.Some? ==> x.created.value <= b.created.value
    {
      forall x | x in related && x.created.Some? ensures x.created.value <= b.created.value {
        var i :| 0 <= i < |related| && related[i] == x;
      }
    }
  }

  lemma RelatedExists(name: string, backups: seq<Record>)
    ensures RelatedOf(name, backups) != [] <==> exists x :: x in backups && Related(name, x)
  {
    hide Related;
    var related := RelatedOf(name, backups);
    if related != [] {
      RelatedOfMembers(name, backups, related[0]);
    }
    forall x | x in backups && Related(name, x) ensures x in related {
      RelatedOfMembers(name, backups, x);
    }
  }

  /** The loop over several related records. */
  method Newest(related: seq<Record>) returns (b: Record)
    ensures if NoneParses(related) then b == EMPTY else exists k: nat :: FirstOfLatest(related, k) && b == related[k]
  {
    b := EMPTY;
    ghost var k: nat := 0;
    for i := 0 to |related|
      invariant b.created.None? ==> b == EMPTY && NoneParses(related[..i])
      invariant b.created.Some? ==> FirstOfLatest(related[..i], k) && b == related[k]
    {
      assert related[..i + 1] == related[..i] + [related[i]];
      if related[i].created.None? {
        continue;
      }
      if b.created.None? || b.created.value < related[i].created.value {
        b, k := related[i], i;
      }
    }
    assert related[..|related|] == related;
    if b.created.Some? {
      assert FirstOfLatest(related, k) && related[k].created.Some?;
    }
  }

  /** Several related records without readable times: the answer is found and empty. */
  lemma UnreadableTimesFindNothing(related: seq<Record>, b: Record)
    requires |related| > 1 && Chosen(related, b)
    ensures b == EMPTY <==> NoneParses(related)
  {
  }

  /******* Records of other resources *******/

  predicate EndsWith(s: string, end: string) {
    |end| <= |s| && s[|s| - |end|..] == end
  }

  /** The schema version overlaps itself by `j`, across the dash in front of it. */
  predicate Straddles(name: string, other: string, schema: string, j: nat) {
    && 1 <= j <= |schema| && schema[j - 1] == '-' && schema[j..] == schema[..|schema| - j]
    && EndsWith(other, name + ("-" + schema[..j - 1]))
  }

  predicate Overlaps(name: string, other: string, schema: string) {
    exists j :: 1 <= j <= |schema| && Straddles(name, other, schema, j)
  }

  predicate OccursAt(s: string, part: string, i: nat) {
    i + |part| <= |s| && forall k :: 0 <= k < |part| ==> s[i + k] == part[k]
  }

  lemma ContainsAt(s: string, part: string, i: nat)
    requires OccursAt(s, part, i)
    ensures Contains(s, part)
  {
    assert part <= s[i..];
  }

  lemma ContainedAt(s: string, part: string) returns (i: nat)
    requires Contains(s, part)
    ensures OccursAt(s, part, i)
  {
    i :| 0 <= i <= |s| && part <= s[i..];
    forall k | 0 <= k < |part| ensures s[i + k] == part[k] {
      assert s[i..][k] == part[k];
    }
  }

  /** Where the name and the schema version can stand in the tag of the other resource. */
  lemma TagHoldsExactlyWhen(name: string, other: string, schema: string)
    ensures Contains(other + ("-" + schema), name + ("-" + schema))
            <==> EndsWith(other, name) || Contains(other, name + ("-" + schema)) || Overlaps(name, other, schema)
  {
    var tag, part := other + ("-" + schema), name + ("-" + schema);
    if Contains(tag, part) {
      var i := ContainedAt(tag, part);
      var j := |tag| - i - |part|;
      if j == 0 {
        forall k | 0 <= k < |name| ensures other[i..][k] == name[k] {
          assert tag[i + k] == part[k];
        }
        assert other[i..] == name;
      } else if j > |schema| {
        forall k | 0 <= k < |part| ensures other[i + k] == part[k] {
          assert tag[i + k] == part[k];
        }
        ContainsAt(other, part, i);
      } else {
        OverlapFound(name, other, schema, i, j);
      }
    }
    if EndsWith(other, name) {
      ContainsAt(tag, part, |other| - |name|);
    }
    if Contains(other, part) {
      var i := ContainedAt(other, part);
      ContainsAt(tag, part, i);
    }
    if j :| 1 <= j <= |schema| && Straddles(name, other, schema, j) {
      OverlapHolds(name, other, schema, j);
    }
  }

  lemma OverlapFound(name: string, other: string, schema: string, i: nat, j: nat)
    requires 1 <= j <= |schema| && i + |name| + j == |other|
    requires OccursAt(other + ("-" + schema), name + ("-" + schema), i)
    ensures Overlaps(name, other, schema)
  {
    var tag, part := other + ("-" + schema), name + ("-" + schema);
    var end := name + ("-" + schema[..j - 1]);
    assert tag[i + (|name| + j)] == part[|name| + j];
    assert schema[j - 1] == '-';
    forall k | 0 <= k < |schema| - j ensures schema[j..][k] == schema[..|schema| - j][k] {
      assert tag[i + (|name| + 1 + j + k)] == part[|name| + 1 + j + k];
    }
    forall k | 0 <= k < |end| ensures other[i..][k] == end[k] {
      assert tag[i + k] == part[k];
    }
    assert other[i..] == end;
    assert Straddles(name, other, schema, j);
  }

  lemma OverlapHolds(name: string, other: string, schema: string, j: nat)
    requires Straddles(name, other, schema, j)
    ensures Contains(other + ("-" + schema), name + ("-" + schema))
  {
    var tag, part := other + ("-" + schema), name + ("-" + schema);
    var end := name + ("-" + schema[..j - 1]);
    var i := |other| - |end|;
    forall k | 0 <= k < |part| ensures tag[i + k] == part[k] {
      if k < |end| {
        assert other[i..][k] == end[k];
      } else if k > |end| {
        assert schema[j..][k - |end| - 1] == schema[..|schema| - j][k - |end| - 1];
      }
    }
    ContainsAt(tag, part, i);
  }

  /** The name and the schema version end `j` characters behind the version in the tag: the version
      overlaps itself and the text that follows, or stands in that text once more. */
  predicate RunsOn(name: string, other: string, schema: string, suffix: string, j: nat) {
    && 1 <= j <= |suffix|
    && if j <= |schema| then
         schema[j - 1] == '-' && schema == schema[j..] + suffix[..j] && EndsWith(other + ("-" + schema[..j - 1]), name)
       else
         suffix[j - |schema|..j] == schema && EndsWith(other + ("-" + schema) + suffix[..j - |schema|], name + "-")
  }

  lemma EndsWithParts(u: string, v: string, x: string, y: string)
    requires |v| == |y|
    ensures EndsWith(u + v, x + y) <==> v == y && EndsWith(u, x)
  {
    if |x| <= |u| {
      var end := u[|u| - |x|..];
      assert (u + v)[|u + v| - |x + y|..] == end + v;
      assert (end + v)[..|x|] == end && (end + v)[|x|..] == v && (x + y)[..|x|] == x && (x + y)[|x|..] == y;
    }
  }

  lemma RunsOnMeans(name: string, other: string, schema: string, suffix: string, j: nat)
    requires 1 <= j <= |suffix|
    ensures EndsWith(other + ("-" + schema) + suffix[..j], name + ("-" + schema)) <==> RunsOn(name, other, schema, suffix, j)
  {
    hide EndsWith;
    var tag, part := other + ("-" + schema) + suffix[..j], name + ("-" + schema);
    if j <= |schema| {
      var front := other + ("-" + schema[..j - 1]);
      assert tag == (front + [schema[j - 1]]) + (schema[j..] + suffix[..j]) && part == (name + "-") + schema;
      EndsWithParts(front + [schema[j - 1]], schema[j..] + suffix[..j], name + "-", schema);
      EndsWithParts(front, [schema[j - 1]], name, "-");
    } else {
      var front := other + ("-" + schema) + suffix[..j - |schema|];
      assert tag == front + suffix[j - |schema|..j] && part == (name + "-") + schema;
      EndsWithParts(front, suffix[j - |schema|..j], name + "-", schema);
    }
  }

  lemma ContainsInParts(x: string, y: string, part: string)
    ensures Contains(x + y, part) <==> Contains(x, part) || exists j :: 1 <= j <= |y| && EndsWith(x + y[..j], part)
  {
    if Contains(x + y, part) {
      var i := ContainedAt(x + y, part);
      var j := i + |part| - |x|;
      if j <= 0 {
        forall k | 0 <= k < |part| ensures x[i + k] == part[k] {
          assert (x + y)[i + k] == part[k];
        }
        ContainsAt(x, part, i);
      } else {
        var front := x + y[..j];
        forall k | 0 <= k < |part| ensures front[i..][k] == part[k] {
          assert (x + y)[i + k] == part[k];
        }
        assert front[i..] == part;
      }
    }
    if Contains(x, part) {
      var i := ContainedAt(x, part);
      forall k | 0 <= k < |part| ensures (x + y)[i + k] == part[k] {
        assert x[i + k] == part[k];
      }
      ContainsAt(x + y, part, i);
    }
    if j :| 1 <= j <= |y| && EndsWith(x + y[..j], part) {
      var front := x + y[..j];
      var i := |front| - |part|;
      forall k | 0 <= k < |part| ensures (x + y)[i + k] == part[k] {
        assert front[i..][k] == part[k];
      }
      ContainsAt(x + y, part, i);
    }
  }

  /** When a coordinator record of the resource `other` counts as one of `name`. A record tagged with the
      other name alone: when that name is this one or holds it with the schema version. A record
      tagged with name, schema version and any further text: also when the other name ends with this
      one, or the schema version overlaps itself, or name and version run on into the further text,
      or the whole tag is this name. */
  lemma NamesAreConfusedExactlyWhen(name: string, other: string, suffix: string, b: Record)
    requires b.global
    ensures b.tag == other ==> (Related(name, b) <==> other == name || Contains(other, name + ("-" + b.schema)))
    ensures b.tag == other + ("-" + b.schema) + suffix ==>
              (Related(name, b) <==> || EndsWith(other, name) || Contains(other, name + ("-" + b.schema))
                                     || Overlaps(name, other, b.schema)
                                     || (exists j :: 1 <= j <= |suffix| && RunsOn(name, other, b.schema, suffix, j))
                                     || b.tag == name)
  {
    hide Contains, EndsWith, Overlaps, RunsOn;
    assert name + "-" + b.schema == name + ("-" + b.schema);
    TagHoldsExactlyWhen(name, other, b.schema);
    ContainsInParts(other + ("-" + b.schema), suffix, name + ("-" + b.schema));
    forall j | 1 <= j <= |suffix|
      ensures EndsWith(other + ("-" + b.schema) + suffix[..j], name + ("-" + b.schema)) <==> RunsOn(name, other, b.schema, suffix, j)
    {
      RunsOnMeans(name, other, b.schema, suffix, j);
    }
  }

  /** In particular, a resource whose name ends the name of another is given the other's backups. */
  lemma SuffixNamesAreConfused(prefix: string, name: string, schema: string, b: Record)
    requires b.global && b.schema == schema && b.tag == prefix + name + "-" + schema
    ensures Related(name, b)
  {
    var part := name + "-" + schema;
    assert b.tag == prefix + part;
    assert b.tag[|prefix|..] == part;
  }

  /** A schema version in the form of a UUID (section 3 of RFC 4122) cannot overlap itself; it runs on
      into further text only when it stands there once more. */
  lemma UuidsDoNotOverlap(name: string, other: string, schema: string, suffix: string)
    requires |schema| == 36 && forall i :: 0 <= i < 36 ==> (schema[i] == '-' <==> i in {8, 13, 18, 23})
    ensures !Overlaps(name, other, schema)
    ensures forall j :: 1 <= j <= |suffix| && RunsOn(name, other, schema, suffix, j) ==> j > 36 && suffix[j - 36..j] == schema
  {
    forall j | 1 <= j <= |schema| ensures !Straddles(name, other, schema, j) {
      if schema[j..] == schema[..36 - j] {
        UuidHasNoPeriod(schema, j);
      }
    }
    forall j | 1 <= j <= |suffix| && RunsOn(name, other, schema, suffix, j) ensures j > 36 {
      if j <= 36 {
        assert (schema[j..] + suffix[..j])[..36 - j] == schema[j..];
        UuidHasNoPeriod(schema, j);
      }
    }
  }

  lemma UuidHasNoPeriod(schema: string, j: nat)
    requires |schema| == 36 && forall i :: 0 <= i < 36 ==> (schema[i] == '-' <==> i in {8, 13, 18, 23})
    requires 1 <= j <= 36 && schema[j..] == schema[..36 - j]
    ensures schema[j - 1] != '-'
  {
    forall k | 0 <= k < 36 - j ensures schema[k] == schema[j + k] {
      assert schema[j..][k] == schema[..36 - j][k];
    }
    assert schema[4] != '-' && schema[8] == '-';
  }
}
