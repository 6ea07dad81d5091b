/** The schema migration runner of internal/database/database.go. The schema stands for the scripts
    that made it, in order; a script and the record of its version are one transaction. */
module Migrations {
  import opened Prelude
  import opened Decimal

  datatype Entry = Entry(name: string, body: string)

  datatype Migration = Migration(version: int, name: string, sql: string)

  datatype LoadError =
    | BadName(name: string)
    | BadVersion(name: string)
    | Duplicate(version: int, first: string, second: string)

  // ----- loading -----

  /** strings.Cut(name, "_"): what stands before the first underscore. */
  function BeforeUnderscore(name: string): Option<string> {
    if name == "" then None
    else if name[0] == '_' then Some("")
    else match BeforeUnderscore(name[1..])
      case None => None
      case Some(rest) => Some([name[0]] + rest)
  }

  /** The version a file name announces, if it is well formed. */
  function VersionOf(name: string): Option<int> {
    match BeforeUnderscore(name)
    case None => None
    case Some(num) =>
      match Atoi(num)
      case None => None
      case Some(v) => if v <= 0 then None else Some(v)
  }

  /** A file named by its number, with any zero padding, announces that number. */
  lemma {:induction false} NamedByNumber(n: nat, zeros: nat, rest: string)
    requires 0 < n <= MAX_INT
    ensures VersionOf(Zeros(zeros) + Print(n) + "_" + rest) == Some(n)
  {
    var num := Zeros(zeros) + Print(n);
    PaddedValue(Print(n), zeros);
    ValueOfPrint(n);
    CutFindsIt(num, rest);
    assert num + "_" + rest == Zeros(zeros) + Print(n) + "_" + rest;
    assert IsDigit(num[0]);
  }

  lemma {:induction false} CutFindsIt(num: string, rest: string)
    requires AllDigits(num)
    ensures BeforeUnderscore(num + "_" + rest) == Some(num)
  {
    var name := num + "_" + rest;
    if num == "" {
      assert name[0] == '_';
    } else {
      CutFindsIt(num[1..], rest);
      assert name[1..] == num[1..] + "_" + rest && name[0] == num[0] && IsDigit(num[0]);
      assert num == [num[0]] + num[1..];
    }
  }

  /** A name announces a version exactly when it is a positive 64-bit number, as Atoi reads it, then
      an underscore and anything. */
  lemma VersionExactly(name: string, v: int)
    ensures VersionOf(name) == Some(v) <==>
      v > 0 && exists num, rest :: name == num + "_" + rest && '_' !in num && Atoi(num) == Some(v)
  {
    CutSplits(name);
    if VersionOf(name) == Some(v) {
      var num := BeforeUnderscore(name).value;
      assert name == num + "_" + name[|num| + 1..] && '_' !in num && Atoi(num) == Some(v);
    }
    forall num, rest | name == num + "_" + rest && '_' !in num
      ensures BeforeUnderscore(name) == Some(num)
    {
      CutAtFirst(num, rest);
    }
  }

  lemma {:induction false} CutAtFirst(num: string, rest: string)
    requires '_' !in num
    ensures BeforeUnderscore(num + "_" + rest) == Some(num)
  {
    var name := num + "_" + rest;
    if num == "" {
      assert name[0] == '_';
    } else {
      CutAtFirst(num[1..], rest);
      assert name[1..] == num[1..] + "_" + rest && name[0] == num[0];
      assert num == [num[0]] + num[1..];
    }
  }

  lemma {:induction false} CutSplits(name: string)
    ensures BeforeUnderscore(name).Some? ==>
      var num := BeforeUnderscore(name).value;
      '_' !in num && |num| < |name| && name == num + "_" + name[|num| + 1..]
  {
    if name == "" {
    } else if name[0] == '_' {
      assert name == "" + "_" + name[1..];
    } else if BeforeUnderscore(name[1..]).Some? {
      CutSplits(name[1..]);
      var rest := BeforeUnderscore(name[1..]).value;
      assert name == [name[0]] + name[1..];
      assert name[1..][|rest| + 1..] == name[|rest| + 2..];
    }
  }

  predicate Ascending(ms: seq<Migration>) {
    forall i, j :: 0 <= i < j < |ms| ==> ms[i].version < ms[j].version
  }

  predicate Positive(ms: seq<Migration>) {
    Ascending(ms) && forall i :: 0 <= i < |ms| ==> ms[i].version > 0
  }

  function Insert(m: Migration, ms: seq<Migration>): seq<Migration> {
    if ms == [] || m.version <= ms[0].version then [m] + ms else [ms[0]] + Insert(m, ms[1..])
  }

  /** sort.Slice by version. */
  function Sorted(ms: seq<Migration>): seq<Migration> {
    if ms == [] then [] else Insert(ms[0], Sorted(ms[1..]))
  }

  lemma {:induction false} InsertContents(m: Migration, ms: seq<Migration>)
    ensures multiset(Insert(m, ms)) == multiset(ms) + multiset{m}
  {
    if ms == [] {
    } else {
      InsertContents(m, ms[1..]);
      assert ms == [ms[0]] + ms[1..];
    }
  }

  predicate AllAbove(ms: seq<Migration>, v: int) {
    forall i :: 0 <= i < |ms| ==> v < ms[i].version
  }

  lemma {:induction false} InsertAscends(m: Migration, ms: seq<Migration>, floor: int)
    requires Ascending(ms) && forall i :: 0 <= i < |ms| ==> ms[i].version != m.version
    requires AllAbove(ms, floor) && floor < m.version
    ensures Ascending(Insert(m, ms)) && AllAbove(Insert(m, ms), floor)
  {
    if ms != [] && m.version > ms[0].version {
      InsertAscends(m, ms[1..], ms[0].version);
    }
  }

  lemma {:induction false} SortedContents(ms: seq<Migration>)
    ensures multiset(Sorted(ms)) == multiset(ms)
  {
    if ms == [] {
    } else {
      SortedContents(ms[1..]);
      InsertContents(ms[0], Sorted(ms[1..]));
      assert ms == [ms[0]] + ms[1..];
    }
  }

  predicate DistinctVersions(ms: seq<Migration>) {
    forall i, j :: 0 <= i < j < |ms| ==> ms[i].version != ms[j].version
  }

  lemma {:induction false} SortedAscends(ms: seq<Migration>, floor: int)
    requires DistinctVersions(ms) && AllAbove(ms, floor)
    ensures Ascending(Sorted(ms)) && AllAbove(Sorted(ms), floor)
  {
    if ms == [] {
    } else {
      var rest := Sorted(ms[1..]);
      SortedAscends(ms[1..], floor);
      SortedContents(ms[1..]);
      forall i | 0 <= i < |rest|
        ensures rest[i].version != ms[0].version
      {
        assert rest[i] in multiset(ms[1..]);
      }
      InsertAscends(ms[0], rest, floor);
    }
  }

  predicate WellNamed(entries: seq<Entry>) {
    && (forall i :: 0 <= i < |entries| ==> VersionOf(entries[i].name).Some?)
    && (forall i, j :: 0 <= i < j < |entries| ==> VersionOf(entries[i].name) != VersionOf(entries[j].name))
  }

  /** The migrations of the files, in the order of the files. */
  predicate Scanned(entries: seq<Entry>, out: seq<Migration>) {
    |out| == |entries| && forall k :: 0 <= k < |out| ==> ReadFrom(entries[k], out[k])
  }

  predicate ReadFrom(e: Entry, m: Migration) {
    VersionOf(e.name) == Some(m.version) && m.name == e.name && m.sql == e.body
  }

  predicate Explains(entries: seq<Entry>, error: LoadError) {
    match error
    case BadName(name) => (exists e :: e in entries && e.name == name) && BeforeUnderscore(name).None?
    case BadVersion(name) =>
      (exists e :: e in entries && e.name == name) && BeforeUnderscore(name).Some? && VersionOf(name).None?
    case Duplicate(v, first, second) =>
      exists i, j :: 0 <= i < j < |entries| && entries[i].name == first && entries[j].name == second
        && VersionOf(first) == VersionOf(second) == Some(v)
  }

  /** `seen` knows the versions read so far, and the file of each. */
  predicate Remembers(out: seq<Migration>, seen: map<int, string>) {
    && (forall k :: 0 <= k < |out| ==> out[k].version in seen)
    && (forall v :: v in seen ==> exists k :: 0 <= k < |out| && out[k].name == seen[v] && out[k].version == v)
  }

  lemma RememberOne(out: seq<Migration>, seen: map<int, string>, m: Migration)
    requires Remembers(out, seen) && DistinctVersions(out) && m.version !in seen
    ensures Remembers(out + [m], seen[m.version := m.name]) && DistinctVersions(out + [m])
  {
    var out', seen' := out + [m], seen[m.version := m.name];
    forall v | v in seen'
      ensures exists k :: 0 <= k < |out'| && out'[k].name == seen'[v] && out'[k].version == v
    {
      if v == m.version {
        assert out'[|out|] == m;
      } else {
        var k :| 0 <= k < |out| && out[k].name == seen[v] && out[k].version == v;
        assert out'[k] == out[k];
      }
    }
  }

  lemma DuplicateExplains(entries: seq<Entry>, i: nat, out: seq<Migration>, seen: map<int, string>)
    requires i < |entries| && Scanned(entries[..i], out) && Remembers(out, seen)
    requires VersionOf(entries[i].name).Some? && VersionOf(entries[i].name).value in seen
    ensures var v := VersionOf(entries[i].name).value; Explains(entries, Duplicate(v, seen[v], entries[i].name))
  {
    var v := VersionOf(entries[i].name).value;
    var k :| 0 <= k < |out| && out[k].name == seen[v] && out[k].version == v;
    assert ReadFrom(entries[..i][k], out[k]) && entries[..i][k] == entries[k];
  }

  /** The version of a name, or what is wrong with it. */
  function ReadVersion(name: string): (r: Result<int, LoadError>)
    ensures r.Success? ==> VersionOf(name) == Some(r.value)
    ensures r.Failure? ==> VersionOf(name).None?
    ensures r.Failure? ==>
      forall entries: seq<Entry> :: (exists e :: e in entries && e.name == name) ==> Explains(entries, r.error)
  {
    match BeforeUnderscore(name)
    case None => Failure(BadName(name))
    case Some(num) =>
      match Atoi(num)
      case None => Failure(BadVersion(name))
      case Some(v) => if v <= 0 then Failure(BadVersion(name)) else Success(v)
  }

  method Scan(entries: seq<Entry>) returns (r: Result<seq<Migration>, LoadError>)
    ensures r.Success? ==> Scanned(entries, r.value) && DistinctVersions(r.value)
    ensures r.Failure? ==> Explains(entries, r.error)
  {
    var seen: map<int, string> := map[];
    var out: seq<Migration> := [];
    for i := 0 to |entries|
      invariant Scanned(entries[..i], out) && DistinctVersions(out) && Remembers(out, seen)
    {
      var e := entries[i];
      var version := ReadVersion(e.name);
      if version.Failure? {
        assert e in entries;
        return Failure(version.error);
      }
      var v := version.value;
      if v in seen {
        DuplicateExplains(entries, i, out, seen);
        return Failure(Duplicate(v, seen[v], e.name));
      }
      RememberOne(out, seen, Migration(v, e.name, e.body));
      seen := seen[v := e.name];
      out := out + [Migration(v, e.name, e.body)];
      assert entries[..i + 1] == entries[..i] + [e];
    }
    assert entries[..|entries|] == entries;
    r := Success(out);
  }

  lemma ExplainedIsNotWellNamed(entries: seq<Entry>, error: LoadError)
    requires Explains(entries, error)
    ensures !WellNamed(entries)
  {
    match error
    case BadName(name) =>
      var e :| e in entries && e.name == name;
      var i :| 0 <= i < |entries| && entries[i] == e;
      assert VersionOf(entries[i].name).None?;
    case BadVersion(name) =>
      var e :| e in entries && e.name == name;
      var i :| 0 <= i < |entries| && entries[i] == e;
      assert VersionOf(entries[i].name).None?;
    case Duplicate(_, _, _) =>
  }

  /** Loads exactly when every name is well formed and no version occurs twice; then every file
      is there once, in ascending order. */
  method LoadMigrations(entries: seq<Entry>) returns (r: Result<seq<Migration>, LoadError>)
    ensures r.Success? <==> WellNamed(entries)
    ensures r.Success? ==> Positive(r.value)
    ensures r.Success? ==> exists out :: Scanned(entries, out) && multiset(r.value) == multiset(out)
    ensures r.Failure? ==> Explains(entries, r.error)
  {
    r := Scan(entries);
    if r.Failure? {
      ExplainedIsNotWellNamed(entries, r.error);
      return;
    }
    var out := r.value;
    forall i | 0 <= i < |out|
      ensures VersionOf(entries[i].name) == Some(out[i].version)
    {
      assert ReadFrom(entries[i], out[i]);
    }
    SortedAscends(out, 0);
    SortedContents(out);
    r := Success(Sorted(out));
  }
}
