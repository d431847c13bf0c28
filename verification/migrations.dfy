/** Applying numbered SQL files to a database that records which ones it has. */
module Migrations {
  import opened Wrappers
  import opened Text

  datatype File = File(name: string, sql: string)

  /** What happens to one file's transaction. An answer is lost when COMMIT took effect and the client saw an error. */
  datatype Fate = Succeeds | SqlFails | RecordFails | CommitFails | AnswerLost

  datatype Error = Changed(name: string) | Failed(name: string)

  /** The recorded files with their checksums, and the files whose SQL took effect, in order. */
  datatype Schema = Schema(recorded: map<string, Option<string>>, committed: seq<string>)

  /** A server's behaviour for one run, and the hash of a file's text. */
  datatype World = World(checksum: string -> string, fate: File -> Fate)

  // ----- the run as a function --------------------------------------------------------

  predicate TakesEffect(fate: Fate) { fate.Succeeds? || fate.AnswerLost? }

  /** One file: skipped, refused, or run in its own transaction; the schema afterwards, and the error. */
  function Apply(s: Schema, f: File, w: World): (Schema, Option<Error>) {
    var sum := w.checksum(f.sql);
    if f.name in s.recorded then
      if s.recorded[f.name] == None then (s.(recorded := s.recorded[f.name := Some(sum)]), None)
      else if s.recorded[f.name].value != sum then (s, Some(Changed(f.name)))
      else (s, None)
    else
      var after := if TakesEffect(w.fate(f)) then Schema(s.recorded[f.name := Some(sum)], s.committed + [f.name]) else s;
      (after, if w.fate(f).Succeeds? then None else Some(Failed(f.name)))
  }

  /** The schema after the run, and the error that ended it early. */
  function Migrate(s: Schema, files: seq<File>, w: World): (Schema, Option<Error>)
    decreases |files|
  {
    if files == [] then (s, None) else
    var (t, error) := Apply(s, files[0], w);
    if error.Some? then (t, error) else Migrate(t, files[1..], w)
  }

  /** The files of the list that the schema does not record. */
  function Pending(s: Schema, files: seq<File>): seq<string> {
    if files == [] then []
    else (if files[0].name in s.recorded then [] else [files[0].name]) + Pending(s, files[1..])
  }

  // ----- the run on a connection ----------------------------------------------------------

  /** A connection: the committed schema, and the transaction that is open on it. */
  class Client {
    var schema: Schema
    var open: Option<Schema>

    constructor (schema: Schema)
      ensures this.schema == schema && open == None
    {
      this.schema, this.open := schema, None;
    }

    method Begin()
      requires open == None
      modifies this
      ensures open == Some(schema) && schema == old(schema)
    {
      open := Some(schema);
    }

    /** Runs the file's SQL inside the transaction. */
    method RunSql(f: File, w: World) returns (ok: bool)
      requires open.Some?
      modifies this
      ensures schema == old(schema) && open.Some? && ok == !w.fate(f).SqlFails?
      ensures ok ==> open.value == old(open.value).(committed := old(open.value).committed + [f.name])
    {
      ok := !w.fate(f).SqlFails?;
      if ok { open := Some(open.value.(committed := open.value.committed + [f.name])); }
    }

    method Record(f: File, w: World) returns (ok: bool)
      requires open.Some?
      modifies this
      ensures schema == old(schema) && open.Some? && ok == !w.fate(f).RecordFails?
      ensures ok ==> open.value == old(open.value).(recorded := old(open.value).recorded[f.name := Some(w.checksum(f.sql))])
    {
      ok := !w.fate(f).RecordFails?;
      if ok { open := Some(open.value.(recorded := open.value.recorded[f.name := Some(w.checksum(f.sql))])); }
    }

    method Commit(f: File, w: World) returns (ok: bool)
      requires open.Some?
      modifies this
      ensures ok == !(w.fate(f).CommitFails? || w.fate(f).AnswerLost?)
      ensures if w.fate(f).CommitFails? then open == old(open) && schema == old(schema) else open == None && schema == old(open.value)
    {
      ok := !(w.fate(f).CommitFails? || w.fate(f).AnswerLost?);
      if !w.fate(f).CommitFails? { schema, open := open.value, None; }
    }

    method Rollback()
      modifies this
      ensures open == None && schema == old(schema)
    {
      open := None;
    }

    /** Applies the pending files in order, each in its own transaction; returns those it applied. */
    method ApplyMigrations(files: seq<File>, w: World) returns (result: Result<seq<string>, Error>)
      requires open == None
      modifies this
      ensures open == None
      ensures
        var (after, error) := Migrate(old(schema), files, w);
        && schema == after
        && (result.Err? <==> error.Some?) && (result.Err? ==> result.error == error.value)
        && (result.Ok? ==> schema.committed == old(schema).committed + result.value)
    {
      var applied: seq<string> := [];
      assert files[0..] == files;
      for i := 0 to |files|
        invariant open == None
        invariant Migrate(old(schema), files, w) == Migrate(schema, files[i..], w)
        invariant schema.committed == old(schema).committed + applied
      {
        var file := files[i];
        assert files[i..][1..] == files[i + 1..];
        var sum := w.checksum(file.sql);
        if file.name in schema.recorded {
          var recorded := schema.recorded[file.name];
          if recorded == None {
            schema := schema.(recorded := schema.recorded[file.name := Some(sum)]);
          } else if recorded.value != sum {
            return Err(Changed(file.name));
          }
          continue;
        }
        Begin();
        var ok := RunSql(file, w);
        if ok { ok := Record(file, w); }
        if ok { ok := Commit(file, w); }
        if !ok {
          Rollback();
          return Err(Failed(file.name));
        }
        applied := applied + [file.name];
      }
      assert files[|files|..] == [];
      return Ok(applied);
    }
  }

  // ----- what a run does -----------------------------------------------------------------

  /** No file took effect twice, and every file that took effect is recorded. */
  ghost predicate OnceEach(s: Schema) {
    && (forall i, j :: 0 <= i < j < |s.committed| ==> s.committed[i] != s.committed[j])
    && (forall i :: 0 <= i < |s.committed| ==> s.committed[i] in s.recorded)
  }

  lemma {:induction false} MigrateKeepsOnceEach(s: Schema, files: seq<File>, w: World)
    requires OnceEach(s)
    ensures OnceEach(Migrate(s, files, w).0)
    decreases |files|
  {
    if files != [] && Apply(s, files[0], w).1.None? {
      MigrateKeepsOnceEach(Apply(s, files[0], w).0, files[1..], w);
    }
  }

  datatype Run = Run(files: seq<File>, world: World)

  /** The schema after any number of runs, whatever files each one finds and however it ends. */
  function AfterRuns(s: Schema, runs: seq<Run>): Schema
    decreases |runs|
  {
    if runs == [] then s else AfterRuns(Migrate(s, runs[0].files, runs[0].world).0, runs[1..])
  }

  /** Over any history of runs a file's SQL takes effect at most once. */
  lemma {:induction false} EachFileAtMostOnce(runs: seq<Run>, s: Schema)
    requires OnceEach(s)
    ensures OnceEach(AfterRuns(s, runs)) && s.committed <= AfterRuns(s, runs).committed
    decreases |runs|
  {
    if runs != [] {
      MigrateKeepsOnceEach(s, runs[0].files, runs[0].world);
      OnlyAppends(s, runs[0].files, runs[0].world);
      EachFileAtMostOnce(runs[1..], Migrate(s, runs[0].files, runs[0].world).0);
    }
  }

  lemma {:induction false} OnlyAppends(s: Schema, files: seq<File>, w: World)
    ensures s.committed <= Migrate(s, files, w).0.committed
    ensures forall n :: n in s.recorded ==> n in Migrate(s, files, w).0.recorded
    decreases |files|
  {
    if files != [] && Apply(s, files[0], w).1.None? { OnlyAppends(Apply(s, files[0], w).0, files[1..], w); }
  }

  ghost predicate DistinctNames(files: seq<File>) {
    forall i, j :: 0 <= i < j < |files| ==> files[i].name != files[j].name
  }

  /** The file is as the schema recorded it, or was recorded before checksums. */
  predicate Unchanged(s: Schema, f: File, w: World) {
    f.name in s.recorded ==> s.recorded[f.name] == None || s.recorded[f.name] == Some(w.checksum(f.sql))
  }

  predicate CanApply(s: Schema, f: File, w: World) {
    if f.name in s.recorded then Unchanged(s, f, w) else w.fate(f).Succeeds?
  }

  lemma {:induction false} PendingAfter(s: Schema, t: Schema, name: string, files: seq<File>)
    requires t.recorded.Keys == s.recorded.Keys + {name}
    requires forall i :: 0 <= i < |files| ==> files[i].name != name
    ensures Pending(t, files) == Pending(s, files)
  {
    if files != [] { PendingAfter(s, t, name, files[1..]); }
  }

  lemma {:induction false} OthersKept(s: Schema, files: seq<File>, w: World, n: string)
    requires n in s.recorded && forall i :: 0 <= i < |files| ==> files[i].name != n
    ensures n in Migrate(s, files, w).0.recorded && Migrate(s, files, w).0.recorded[n] == s.recorded[n]
    decreases |files|
  {
    if files != [] && Apply(s, files[0], w).1.None? { OthersKept(Apply(s, files[0], w).0, files[1..], w, n); }
  }

  lemma AppliesExactly(s: Schema, f: File, w: World)
    ensures Apply(s, f, w).1.None? <==> CanApply(s, f, w)
    ensures Apply(s, f, w).1.None? ==>
      var t := Apply(s, f, w).0;
      && Recorded(t, f, w) && t.recorded.Keys == s.recorded.Keys + {f.name}
      && t.committed == s.committed + (if f.name in s.recorded then [] else [f.name])
      && forall g: File :: g.name != f.name ==> CanApply(t, g, w) == CanApply(s, g, w)
  {
  }

  /** A run succeeds exactly when no recorded file changed and every pending file's transaction succeeds. */
  lemma {:induction false} SucceedsExactly(s: Schema, files: seq<File>, w: World)
    requires DistinctNames(files)
    ensures Migrate(s, files, w).1.None? <==> forall i :: 0 <= i < |files| ==> CanApply(s, files[i], w)
    decreases |files|
  {
    if files != [] {
      var f, rest := files[0], files[1..];
      AppliesExactly(s, f, w);
      if CanApply(s, f, w) {
        var t := Apply(s, f, w).0;
        SucceedsExactly(t, rest, w);
        assert forall i :: 0 <= i < |rest| ==> rest[i] == files[i + 1];
        forall i | 0 < i < |files| ensures CanApply(s, files[i], w) == CanApply(t, rest[i - 1], w) {
          assert files[i].name != files[0].name;
        }
      }
    }
  }

  lemma {:induction false} SuccessCommits(s: Schema, files: seq<File>, w: World)
    requires DistinctNames(files) && Migrate(s, files, w).1.None?
    ensures Migrate(s, files, w).0.committed == s.committed + Pending(s, files)
    decreases |files|
  {
    if files != [] {
      var f, rest := files[0], files[1..];
      AppliesExactly(s, f, w);
      assert forall i :: 0 <= i < |rest| ==> rest[i] == files[i + 1];
      SuccessCommits(Apply(s, f, w).0, rest, w);
      PendingAfter(s, Apply(s, f, w).0, f.name, rest);
    }
  }

  lemma {:induction false} SuccessRecords(s: Schema, files: seq<File>, w: World, k: nat)
    requires DistinctNames(files) && Migrate(s, files, w).1.None? && k < |files|
    ensures Recorded(Migrate(s, files, w).0, files[k], w)
    decreases |files|
  {
    var f, rest := files[0], files[1..];
    AppliesExactly(s, f, w);
    assert forall i :: 0 <= i < |rest| ==> rest[i] == files[i + 1];
    if k == 0 {
      OthersKept(Apply(s, f, w).0, rest, w, f.name);
    } else {
      SuccessRecords(Apply(s, f, w).0, rest, w, k - 1);
    }
  }

  /** A successful run applied the pending files in order, and every file is recorded with its checksum. */
  lemma SuccessMeans(s: Schema, files: seq<File>, w: World)
    requires DistinctNames(files) && Migrate(s, files, w).1.None?
    ensures
      var after := Migrate(s, files, w).0;
      && after.committed == s.committed + Pending(s, files)
      && forall i :: 0 <= i < |files| ==> Recorded(after, files[i], w)
  {
    SuccessCommits(s, files, w);
    forall i | 0 <= i < |files| ensures Recorded(Migrate(s, files, w).0, files[i], w) {
      SuccessRecords(s, files, w, i);
    }
  }

  predicate Recorded(s: Schema, f: File, w: World) {
    f.name in s.recorded && s.recorded[f.name] == Some(w.checksum(f.sql))
  }

  /** When every file is recorded as it is, a run changes nothing, whatever the server would do. */
  lemma {:induction false} NothingToDo(s: Schema, files: seq<File>, w: World)
    requires forall i :: 0 <= i < |files| ==> Recorded(s, files[i], w)
    ensures Migrate(s, files, w) == (s, None)
  {
    if files != [] {
      assert Recorded(s, files[0], w);
      assert forall i :: 0 <= i < |files[1..]| ==> files[1..][i] == files[i + 1];
      NothingToDo(s, files[1..], w);
    }
  }

  /** A successful run repeated on the same files is a no-op. */
  lemma RepeatIsNoOp(s: Schema, files: seq<File>, w: World, later: World)
    requires DistinctNames(files) && later.checksum == w.checksum
    requires Migrate(s, files, w).1.None?
    ensures Migrate(Migrate(s, files, w).0, files, later) == (Migrate(s, files, w).0, None)
  {
    SuccessMeans(s, files, w);
    var after := Migrate(s, files, w).0;
    forall i | 0 <= i < |files| ensures Recorded(after, files[i], later) { assert Recorded(after, files[i], w); }
    NothingToDo(after, files, later);
  }

  /** The run applied what was pending before file `k` and stopped there, because its transaction failed. */
  ghost predicate StoppedAt(s: Schema, files: seq<File>, w: World, name: string, k: int)
    requires 0 <= k < |files|
  {
    var after, lost := Migrate(s, files, w).0, w.fate(files[k]).AnswerLost?;
    && files[k].name == name && name !in s.recorded && !w.fate(files[k]).Succeeds?
    && after.committed == s.committed + Pending(s, files[..k]) + (if lost then [name] else [])
    && (name in after.committed <==> lost)
    && (if lost then Recorded(after, files[k], w) else name !in after.recorded)
  }

  lemma StoppedHere(s: Schema, files: seq<File>, w: World)
    requires OnceEach(s) && files != [] && files[0].name !in s.recorded && !w.fate(files[0]).Succeeds?
    ensures StoppedAt(s, files, w, files[0].name, 0)
  {
    assert files[..0] == [];
    assert files[0].name !in s.committed;
  }

  lemma StoppedLater(s: Schema, files: seq<File>, w: World, name: string, k: nat)
    requires DistinctNames(files) && k + 1 < |files| && Apply(s, files[0], w).1.None?
    requires StoppedAt(Apply(s, files[0], w).0, files[1..], w, name, k)
    ensures StoppedAt(s, files, w, name, k + 1)
  {
    var f, rest, t := files[0], files[1..], Apply(s, files[0], w).0;
    AppliesExactly(s, f, w);
    assert forall i :: 0 <= i < |rest| ==> rest[i] == files[i + 1] && rest[i].name != f.name;
    PendingAfter(s, t, f.name, rest[..k]);
    assert files[..k + 1][1..] == rest[..k];
    var first := if f.name in s.recorded then [] else [f.name];
    assert s.committed + (first + Pending(s, rest[..k])) == s.committed + first + Pending(s, rest[..k]);
  }

  /**
   A run that failed at a file had applied every pending file before it. The
   file's SQL took effect exactly when its record did: not at all, or, when the
   answer to COMMIT was lost, both.
   */
  lemma {:induction false} FailureMeans(s: Schema, files: seq<File>, w: World, name: string)
    requires DistinctNames(files) && OnceEach(s) && Migrate(s, files, w).1 == Some(Failed(name))
    ensures exists k :: 0 <= k < |files| && StoppedAt(s, files, w, name, k)
    decreases |files|
  {
    var t, error := Apply(s, files[0], w).0, Apply(s, files[0], w).1;
    if error.Some? {
      StoppedHere(s, files, w);
    } else {
      MigrateKeepsOnceEach(s, [files[0]], w);
      assert [files[0]][1..] == [] && Migrate(t, [], w).0 == t;
      assert forall i :: 0 <= i < |files[1..]| ==> files[1..][i] == files[i + 1];
      FailureMeans(t, files[1..], w, name);
      var k: nat :| k < |files[1..]| && StoppedAt(t, files[1..], w, name, k);
      StoppedLater(s, files, w, name, k);
    }
  }

  /** After a lost answer every later run skips the file, whatever the server would do with it. */
  lemma LostAnswerIsSkipped(s: Schema, f: File, w: World, later: World)
    requires f.name !in s.recorded && w.fate(f).AnswerLost? && later.checksum == w.checksum
    ensures var (after, error) := Apply(s, f, w);
      && error == Some(Failed(f.name)) && after.committed == s.committed + [f.name]
      && Apply(after, f, later) == (after, None)
  {}

  /** An applied file that changed stops every later run at it. */
  lemma ChangedFileStops(s: Schema, files: seq<File>, w: World, k: nat)
    requires DistinctNames(files) && k < |files| && !Unchanged(s, files[k], w)
    ensures Migrate(s, files, w).1.Some?
  {
    SucceedsExactly(s, files, w);
    assert !CanApply(s, files[k], w);
  }

  // ----- version prefixes --------------------------------------------------------------------

  /** The leading digits of a file name. */
  function VersionPrefix(file: string): string {
    if file == "" || !IsDigit(file[0]) then "" else [file[0]] + VersionPrefix(file[1..])
  }

  /** The longest run of digits that the name starts with. */
  lemma {:induction false} VersionPrefixExactly(file: string)
    ensures VersionPrefix(file) <= file && AllDigits(VersionPrefix(file))
    ensures |VersionPrefix(file)| < |file| ==> !IsDigit(file[|VersionPrefix(file)|])
  {
    if file != "" && IsDigit(file[0]) { VersionPrefixExactly(file[1..]); }
  }

  /** Two files claim one version. */
  predicate Clash(one: string, two: string) {
    VersionPrefix(one) != "" && VersionPrefix(one) == VersionPrefix(two)
  }

  ghost predicate NoClash(files: seq<string>) {
    forall i, j :: 0 <= i < j < |files| ==> !Clash(files[i], files[j])
  }

  /** The pair that shares a prefix; None when no two files do. */
  method AssertUniqueVersionPrefixes(files: seq<string>) returns (duplicate: Option<(string, string)>)
    ensures duplicate.None? <==> NoClash(files)
    ensures duplicate.Some? ==>
      exists i, j :: 0 <= i < j < |files| && duplicate.value == (files[i], files[j]) && Clash(files[i], files[j])
  {
    var seen: map<string, string> := map[];
    for k := 0 to |files|
      invariant forall p :: p in seen ==> p != "" && VersionPrefix(seen[p]) == p && seen[p] in files[..k]
      invariant forall i :: 0 <= i < k ==> VersionPrefix(files[i]) == "" || VersionPrefix(files[i]) in seen
      invariant NoClash(files[..k])
    {
      var prefix := VersionPrefix(files[k]);
      assert files[..k + 1] == files[..k] + [files[k]];
      if prefix == "" { continue; }
      if prefix in seen {
        var i :| 0 <= i < k && files[..k][i] == seen[prefix];
        assert Clash(files[i], files[k]);
        return Some((seen[prefix], files[k]));
      }
      seen := seen[prefix := files[k]];
    }
    assert files[..|files|] == files;
    return None;
  }

  /** The number that a version prefix writes. */
  function Version(file: string): Option<nat> {
    if VersionPrefix(file) == "" then None
    else VersionPrefixExactly(file); Some(ParseDecimal(VersionPrefix(file)))
  }

  /** A numeral without its leading zeros. */
  function Bare(digits: string): string {
    if digits != "" && digits[0] == '0' then Bare(digits[1..]) else digits
  }

  lemma {:induction false} BareKeepsTheNumber(digits: string)
    requires AllDigits(digits)
    ensures AllDigits(Bare(digits)) && ParseDecimal(Bare(digits)) == ParseDecimal(digits)
    ensures Bare(digits) != "" ==> Bare(digits)[0] != '0'
  {
    if digits != "" && digits[0] == '0' {
      BareKeepsTheNumber(digits[1..]);
      ZeroInFront(digits[1..]);
      assert digits == ['0'] + digits[1..];
    }
  }

  /** Two digit texts write one number exactly when they differ in leading zeros only. */
  lemma SameNumberExactly(p: string, q: string)
    requires AllDigits(p) && AllDigits(q)
    ensures ParseDecimal(p) == ParseDecimal(q) <==> Bare(p) == Bare(q)
  {
    BareKeepsTheNumber(p);
    BareKeepsTheNumber(q);
    if Bare(p) != "" { DecimalOfParse(Bare(p)); }
    if Bare(q) != "" { DecimalOfParse(Bare(q)); }
  }

  ghost predicate DistinctVersions(files: seq<string>) {
    forall i, j :: 0 <= i < j < |files| && Version(files[i]).Some? ==> Version(files[i]) != Version(files[j])
  }

  /** Two different prefixes that differ in leading zeros only. */
  predicate Padded(one: string, two: string) {
    var p, q := VersionPrefix(one), VersionPrefix(two);
    p != "" && q != "" && p != q && Bare(p) == Bare(q)
  }

  lemma SameVersionExactly(one: string, two: string)
    ensures Version(one).Some? && Version(one) == Version(two) <==> Clash(one, two) || Padded(one, two)
  {
    VersionPrefixExactly(one);
    VersionPrefixExactly(two);
    SameNumberExactly(VersionPrefix(one), VersionPrefix(two));
  }

  /** An accepted list has distinct version numbers if and only if no two of its prefixes differ in leading zeros only. */
  lemma AcceptedVersionsDistinctExactly(files: seq<string>)
    requires NoClash(files)
    ensures DistinctVersions(files) <==> forall i, j :: 0 <= i < j < |files| ==> !Padded(files[i], files[j])
  {
    forall i, j | 0 <= i < j < |files|
      ensures Version(files[i]).Some? && Version(files[i]) == Version(files[j]) <==> Padded(files[i], files[j])
    {
      SameVersionExactly(files[i], files[j]);
    }
  }

  lemma {:induction false} BareDecides(p: string, q: string)
    requires |p| == |q| && Bare(p) == Bare(q)
    ensures p == q
  {
    BareSuffix(p);
    BareSuffix(q);
    forall i | 0 <= i < |p| ensures p[i] == q[i] {}
  }

  lemma {:induction false} BareSuffix(p: string)
    ensures |Bare(p)| <= |p| && p[|p| - |Bare(p)|..] == Bare(p)
    ensures forall i :: 0 <= i < |p| - |Bare(p)| ==> p[i] == '0'
  {
    if p != "" && p[0] == '0' {
      BareSuffix(p[1..]);
      forall i | 0 <= i < |p| - |Bare(p)| ensures p[i] == '0' { if i > 0 { assert p[1..][i - 1] == p[i]; } }
    }
  }

  /** So the check keeps version numbers apart when all prefixes have one width. */
  lemma EqualWidthsAreDistinct(files: seq<string>, width: nat)
    requires NoClash(files)
    requires forall i :: 0 <= i < |files| ==> |VersionPrefix(files[i])| in {0, width}
    ensures DistinctVersions(files)
  {
    forall i, j | 0 <= i < j < |files| ensures !Padded(files[i], files[j]) {
      if Padded(files[i], files[j]) { BareDecides(VersionPrefix(files[i]), VersionPrefix(files[j])); }
    }
    AcceptedVersionsDistinctExactly(files);
  }

  /** The check compares digits, not numbers: 5 and 005 are accepted together although they are one version. */
  lemma PaddingEscapesTheCheck()
    ensures NoClash(["5_a.sql", "005_b.sql"]) && !DistinctVersions(["5_a.sql", "005_b.sql"])
  {
    var files := ["5_a.sql", "005_b.sql"];
    assert VersionPrefix(files[0]) == "5" && VersionPrefix(files[1]) == "005" by {
      assert "5_a.sql"[1..] == "_a.sql" && "005_b.sql"[1..] == "05_b.sql" && "05_b.sql"[1..] == "5_b.sql" && "5_b.sql"[1..] == "_b.sql";
    }
    assert Bare("005") == "5" by { assert "005"[1..] == "05" && "05"[1..] == "5"; }
    assert Padded(files[0], files[1]);
    AcceptedVersionsDistinctExactly(files);
  }

  /** The run applied what was pending before file `k` and stopped there, because its text is not the recorded one. */
  ghost predicate RefusedAt(s: Schema, files: seq<File>, w: World, name: string, k: int)
    requires 0 <= k < |files|
  {
    && files[k].name == name && name in s.recorded && !Unchanged(s, files[k], w)
    && Migrate(s, files, w).0.committed == s.committed + Pending(s, files[..k])
    && (forall n :: n in Migrate(s, files, w).0.recorded <==> n in s.recorded || n in Pending(s, files[..k]))
    && name in Migrate(s, files, w).0.recorded && Migrate(s, files, w).0.recorded[name] == s.recorded[name]
  }

  lemma RefusedHere(s: Schema, files: seq<File>, w: World)
    requires files != [] && Apply(s, files[0], w).1 == Some(Changed(files[0].name))
    ensures RefusedAt(s, files, w, files[0].name, 0)
  {
    assert files[..0] == [];
  }

  lemma RefusedLater(s: Schema, files: seq<File>, w: World, name: string, k: nat)
    requires DistinctNames(files) && k + 1 < |files| && Apply(s, files[0], w).1.None?
    requires RefusedAt(Apply(s, files[0], w).0, files[1..], w, name, k)
    ensures RefusedAt(s, files, w, name, k + 1)
  {
    var f, rest, t := files[0], files[1..], Apply(s, files[0], w).0;
    AppliesExactly(s, f, w);
    assert rest[k] == files[k + 1] && name != f.name;
    PendingAfter(s, t, f.name, rest[..k]);
    assert files[..k + 1][1..] == rest[..k];
    var first := if f.name in s.recorded then [] else [f.name];
    assert s.committed + (first + Pending(s, rest[..k])) == s.committed + first + Pending(s, rest[..k]);
    assert forall n :: n in t.recorded <==> n in s.recorded || n in first;
    assert Pending(s, files[..k + 1]) == first + Pending(s, rest[..k]);
  }

  /** A run that reports a changed file had applied every pending file before it, changed nothing more, and left that file's record as it was. */
  lemma {:induction false} ChangedMeans(s: Schema, files: seq<File>, w: World, name: string)
    requires DistinctNames(files) && Migrate(s, files, w).1 == Some(Changed(name))
    ensures exists k :: 0 <= k < |files| && RefusedAt(s, files, w, name, k)
    decreases |files|
  {
    var t, error := Apply(s, files[0], w).0, Apply(s, files[0], w).1;
    if error.Some? {
      RefusedHere(s, files, w);
    } else {
      assert forall i :: 0 <= i < |files[1..]| ==> files[1..][i] == files[i + 1];
      ChangedMeans(t, files[1..], w, name);
      var k :| 0 <= k < |files[1..]| && RefusedAt(t, files[1..], w, name, k);
      RefusedLater(s, files, w, name, k);
    }
  }
}
