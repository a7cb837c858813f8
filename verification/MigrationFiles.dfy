/** data/migrate/migrate.go, Load: from a directory listing to an ordered list of migrations. */
module MigrationFiles {
  import opened Octets
  import opened Numerals
  import opened Sorting

  const MAX_INT64 := 0x7fff_ffff_ffff_ffff
  const SUFFIX := ".up.sql"

  /** A directory entry; contents are missing when the file cannot be read. */
  datatype File = File(name: string, isDir: bool, contents: Option<Bytes>)

  datatype Migration = Migration(version: int, name: string, sql: Bytes, checksum: Bytes)

  datatype LoadError = ListingFailed | InvalidVersion(name: string) | DuplicateVersion(version: int) | Unreadable(name: string)

  datatype Loaded = Ok(migrations: seq<Migration>) | Err(error: LoadError)

  // ---------------------------------------------------------------- file names

  predicate IsWord(c: char) { 'a' <= c <= 'z' || IsDigit(c) }
  predicate IsWordOrDash(c: char) { IsWord(c) || c == '_' || c == '-' }

  /** [a-z0-9][a-z0-9_-]* */
  predicate ValidStem(stem: string) {
    stem != "" && IsWord(stem[0]) && forall i :: 1 <= i < |stem| ==> IsWordOrDash(stem[i])
  }

  /** The pattern: name is digits, an underscore, a stem and the suffix. */
  ghost predicate Matches(name: string, digits: string) {
    AllDigits(digits) && exists stem :: ValidStem(stem) && name == digits + "_" + stem + ".up.sql"
  }

  /** How many digits name starts with. */
  function Leading(name: string): (n: nat)
    ensures n <= |name|
    ensures forall i :: 0 <= i < n ==> IsDigit(name[i])
    ensures n < |name| ==> !IsDigit(name[n])
  {
    if name == "" || !IsDigit(name[0]) then 0 else 1 + Leading(name[1..])
  }

  /** FindStringSubmatch: the first group of the match, if there is one. */
  function VersionDigits(name: string): Option<string> {
    var n := Leading(name);
    if n == 0 || |name| < n + 1 + |SUFFIX| || name[n] != '_' then None
    else
      var stem := name[n + 1..|name| - |SUFFIX|];
      if ValidStem(stem) && name[|name| - |SUFFIX|..] == SUFFIX then Some(name[..n]) else None
  }

  lemma LeadingExact(digits: string, rest: string)
    requires AllDigits(digits) && rest != "" && !IsDigit(rest[0])
    ensures Leading(digits + rest) == |digits|
  {
    var name := digits + rest;
    assert forall i :: 0 <= i < |digits| ==> name[i] == digits[i];
    assert name[|digits|] == rest[0];
  }

  /** The scan finds the digits exactly when the pattern matches, and the match is unique. */
  lemma VersionDigitsExact(name: string, digits: string)
    ensures VersionDigits(name) == Some(digits) <==> Matches(name, digits)
  {
    if VersionDigits(name) == Some(digits) {
      var n := |digits|;
      var stem := name[n + 1..|name| - |SUFFIX|];
      assert name == digits + "_" + stem + SUFFIX;
    }
    if Matches(name, digits) {
      var stem :| ValidStem(stem) && name == digits + "_" + stem + SUFFIX;
      MatchFound(digits, stem);
    }
  }

  lemma MatchFound(digits: string, stem: string)
    requires AllDigits(digits) && ValidStem(stem)
    ensures VersionDigits(digits + "_" + stem + SUFFIX) == Some(digits)
  {
    var name := digits + "_" + stem + SUFFIX;
    assert name == digits + ("_" + stem + SUFFIX);
    LeadingExact(digits, "_" + stem + SUFFIX);
    var n := |digits|;
    assert name[n + 1..|name| - |SUFFIX|] == stem;
    assert name[|name| - |SUFFIX|..] == SUFFIX;
    assert name[..n] == digits;
  }

  lemma CharacterClasses(c: char)
    ensures IsDigit(c) <==> c in "0123456789"
    ensures IsWord(c) <==> c in "abcdefghijklmnopqrstuvwxyz0123456789"
    ensures IsWordOrDash(c) <==> c in "abcdefghijklmnopqrstuvwxyz0123456789_-"
  {
  }

  /** The digits and the stem of the pattern, written out. */
  lemma PatternExactly(s: string)
    ensures AllDigits(s) <==> s != "" && forall c :: c in s ==> c in "0123456789"
    ensures ValidStem(s) <==>
              && s != "" && s[0] in "abcdefghijklmnopqrstuvwxyz0123456789"
              && forall c :: c in s[1..] ==> c in "abcdefghijklmnopqrstuvwxyz0123456789_-"
  {
    forall c: char
      ensures IsDigit(c) <==> c in "0123456789"
      ensures IsWord(c) <==> c in "abcdefghijklmnopqrstuvwxyz0123456789"
      ensures IsWordOrDash(c) <==> c in "abcdefghijklmnopqrstuvwxyz0123456789_-"
    {
      CharacterClasses(c);
    }
    assert forall i :: 0 <= i < |s| ==> s[i] in s;
    assert s != "" ==> forall i :: 1 <= i < |s| ==> s[i] == s[1..][i - 1];
  }

  // ---------------------------------------------------------------- one file

  /** A file the loader looks at. */
  predicate Relevant(f: File) {
    !f.isDir && VersionDigits(f.name).Some?
  }

  function Version(f: File): int
    requires Relevant(f)
  {
    Number(VersionDigits(f.name).value)
  }

  /** What the file's name says: it matches the pattern with the digits of n, up to leading zeros. */
  ghost predicate HasVersion(f: File, n: nat) {
    !f.isDir && exists digits :: Matches(f.name, digits) && Spells(digits, n)
  }

  lemma VersionExactly(f: File, n: nat)
    ensures HasVersion(f, n) <==> Relevant(f) && Version(f) == n
  {
    if digits :| Matches(f.name, digits) && Spells(digits, n) {
      VersionDigitsExact(f.name, digits);
      NumberExactly(digits, n);
    }
    if Relevant(f) && Version(f) == n {
      var digits := VersionDigits(f.name).value;
      VersionDigitsExact(f.name, digits);
      NumberExactly(digits, n);
    }
  }

  /** ParseInt succeeds and the version is positive. */
  predicate VersionOk(f: File)
    requires Relevant(f)
  {
    0 < Version(f) <= MAX_INT64
  }

  function ToMigration(f: File, checksum: Bytes -> Bytes): Migration
    requires Relevant(f) && f.contents.Some?
  {
    Migration(Version(f), f.name, f.contents.value, checksum(f.contents.value))
  }

  // ---------------------------------------------------------------- the listing

  /** Every relevant file has a usable version of its own and can be read. */
  ghost predicate Loadable(files: seq<File>) {
    && (forall i :: 0 <= i < |files| && Relevant(files[i]) ==> VersionOk(files[i]) && files[i].contents.Some?)
    && (forall i, j :: 0 <= i < j < |files| && Relevant(files[i]) && Relevant(files[j]) ==>
                         Version(files[i]) != Version(files[j]))
  }

  ghost predicate Readable(files: seq<File>) {
    forall i :: 0 <= i < |files| && Relevant(files[i]) ==> files[i].contents.Some?
  }

  /** The migrations of the relevant files, in listing order. */
  ghost function Migrations(files: seq<File>, checksum: Bytes -> Bytes): (r: seq<Migration>)
    requires Readable(files)
  {
    if files == [] then []
    else
      var (front, f) := (files[..|files| - 1], files[|files| - 1]);
      Migrations(front, checksum) + if Relevant(f) then [ToMigration(f, checksum)] else []
  }

  predicate Earlier(a: Migration, b: Migration) {
    a.version < b.version
  }

  /** Where each migration of a listing comes from. */
  lemma {:induction false} Origin(files: seq<File>, checksum: Bytes -> Bytes, k: nat) returns (i: nat)
    requires Readable(files) && k < |Migrations(files, checksum)|
    ensures i < |files| && Relevant(files[i]) && Migrations(files, checksum)[k] == ToMigration(files[i], checksum)
  {
    var (front, f) := (files[..|files| - 1], files[|files| - 1]);
    if k < |Migrations(front, checksum)| {
      i := Origin(front, checksum, k);
    } else {
      i := |files| - 1;
    }
  }

  lemma {:induction false} DistinctVersions(files: seq<File>, checksum: Bytes -> Bytes)
    requires Loadable(files)
    ensures AllComparable(Migrations(files, checksum), Earlier)
  {
    if files != [] {
      var (front, f) := (files[..|files| - 1], files[|files| - 1]);
      DistinctVersions(front, checksum);
      var (all, before) := (Migrations(files, checksum), Migrations(front, checksum));
      forall k | 0 <= k < |before| && Relevant(f)
        ensures before[k].version != Version(f)
      {
        var i := Origin(front, checksum, k);
        assert files[i] == front[i];
      }
    }
  }

  /** File i can join the files before it. */
  ghost predicate NextOk(files: seq<File>, i: nat)
    requires i < |files|
  {
    Relevant(files[i]) ==>
      && VersionOk(files[i]) && files[i].contents.Some?
      && forall j :: 0 <= j < i && Relevant(files[j]) ==> Version(files[j]) != Version(files[i])
  }

  ghost predicate Taken(files: seq<File>, i: nat)
    requires i < |files| && Relevant(files[i])
  {
    exists j :: 0 <= j < i && Relevant(files[j]) && Version(files[j]) == Version(files[i])
  }

  /** Entry i is the first that cannot be loaded, and `error` says why. */
  ghost predicate FirstError(files: seq<File>, i: nat, error: LoadError) {
    && i < |files| && !NextOk(files, i) && (forall j :: 0 <= j < i ==> NextOk(files, j))
    && error == if !VersionOk(files[i]) then InvalidVersion(files[i].name)
                else if Taken(files, i) then DuplicateVersion(Version(files[i]))
                else Unreadable(files[i].name)
  }

  lemma LoadableIff(files: seq<File>)
    ensures Loadable(files) <==> AllOk(files, |files|)
  {
    if forall i :: 0 <= i < |files| ==> NextOk(files, i) {
      forall i, j | 0 <= i < j < |files| && Relevant(files[i]) && Relevant(files[j])
        ensures Version(files[i]) != Version(files[j])
      {
        assert NextOk(files, j);
      }
      forall i | 0 <= i < |files| && Relevant(files[i])
        ensures VersionOk(files[i]) && files[i].contents.Some?
      {
        assert NextOk(files, i);
      }
    }
  }

  lemma MigrationsNext(files: seq<File>, i: nat, checksum: Bytes -> Bytes)
    requires i < |files| && Readable(files[..i]) && (Relevant(files[i]) ==> files[i].contents.Some?)
    ensures Readable(files[..i + 1])
    ensures Migrations(files[..i + 1], checksum) ==
            Migrations(files[..i], checksum) + if Relevant(files[i]) then [ToMigration(files[i], checksum)] else []
  {
    assert files[..i + 1][..i] == files[..i];
  }

  /** The versions of the relevant files among the first i. */
  ghost predicate Seen(seen: set<int>, files: seq<File>, i: nat)
    requires i <= |files|
  {
    forall v :: v in seen <==> exists j :: 0 <= j < i && Relevant(files[j]) && Version(files[j]) == v
  }

  lemma SeenDecides(seen: set<int>, files: seq<File>, i: nat)
    requires i < |files| && Relevant(files[i]) && Seen(seen, files, i)
    ensures NextOk(files, i) <==> VersionOk(files[i]) && files[i].contents.Some? && Version(files[i]) !in seen
    ensures Taken(files, i) <==> Version(files[i]) in seen
  {
  }

  lemma SeenNext(seen: set<int>, files: seq<File>, i: nat)
    requires i < |files| && Seen(seen, files, i)
    ensures Seen(if Relevant(files[i]) then seen + {Version(files[i])} else seen, files, i + 1)
  {
  }

  /** m is what the file says: its version, its name, its text and the checksum of that text. */
  ghost predicate IsMigrationOf(m: Migration, f: File, checksum: Bytes -> Bytes) {
    && m.version >= 0 && HasVersion(f, m.version) && f.name == m.name
    && f.contents == Some(m.sql) && m.checksum == checksum(m.sql)
  }

  /** Every migration is one of the files'. */
  ghost predicate FromFiles(ms: seq<Migration>, files: seq<File>, checksum: Bytes -> Bytes) {
    forall m :: m in ms ==> exists i :: 0 <= i < |files| && IsMigrationOf(m, files[i], checksum)
  }

  /** Every file with a version gave one of the migrations. */
  ghost predicate AllFiles(ms: seq<Migration>, files: seq<File>, checksum: Bytes -> Bytes) {
    forall i, n :: 0 <= i < |files| && HasVersion(files[i], n) ==> exists m :: m in ms && IsMigrationOf(m, files[i], checksum)
  }

  lemma {:induction false} ToMigrationIs(f: File, checksum: Bytes -> Bytes)
    requires Relevant(f) && f.contents.Some? && VersionOk(f)
    ensures IsMigrationOf(ToMigration(f, checksum), f, checksum)
  {
    VersionExactly(f, Version(f));
  }

  lemma {:induction false} Destination(files: seq<File>, checksum: Bytes -> Bytes, i: nat)
    requires Readable(files) && i < |files| && Relevant(files[i])
    ensures ToMigration(files[i], checksum) in Migrations(files, checksum)
  {
    var front := files[..|files| - 1];
    if i < |front| {
      assert front[i] == files[i];
      Destination(front, checksum, i);
    }
  }

  lemma {:induction false} LoadedFiles(files: seq<File>, checksum: Bytes -> Bytes, ms: seq<Migration>)
    requires Loadable(files) && multiset(ms) == multiset(Migrations(files, checksum))
    ensures FromFiles(ms, files, checksum) && AllFiles(ms, files, checksum)
  {
    var all := Migrations(files, checksum);
    forall m | m in ms
      ensures exists i :: 0 <= i < |files| && IsMigrationOf(m, files[i], checksum)
    {
      assert m in multiset(ms);
      assert m in all;
      var k :| 0 <= k < |all| && all[k] == m;
      var i := Origin(files, checksum, k);
      ToMigrationIs(files[i], checksum);
    }
    forall i, n | 0 <= i < |files| && HasVersion(files[i], n)
      ensures exists m :: m in ms && IsMigrationOf(m, files[i], checksum)
    {
      VersionExactly(files[i], n);
      Destination(files, checksum, i);
      ToMigrationIs(files[i], checksum);
      var m := ToMigration(files[i], checksum);
      assert m in multiset(all);
      assert m in ms;
    }
  }

  /** Loadable in plain terms: every version is between 1 and 2^63-1, no two files share one, and their files read. */
  lemma LoadableExactly(files: seq<File>)
    ensures Loadable(files) <==>
              && (forall i, n :: 0 <= i < |files| && HasVersion(files[i], n) ==>
                                   1 <= n <= 9_223_372_036_854_775_807 && files[i].contents.Some?)
              && (forall i, j, n :: 0 <= i < j < |files| && HasVersion(files[i], n) ==> !HasVersion(files[j], n))
  {
    forall i, n | 0 <= i < |files|
      ensures HasVersion(files[i], n) <==> Relevant(files[i]) && Version(files[i]) == n
    {
      VersionExactly(files[i], n);
    }
    forall i | 0 <= i < |files| && Relevant(files[i])
      ensures Version(files[i]) >= 0 && HasVersion(files[i], Version(files[i]))
    {
      var k := DigitsSpell(VersionDigits(files[i].name).value);
      VersionExactly(files[i], Version(files[i]));
    }
  }

  /** Load succeeds exactly on loadable listings, and then returns their migrations in strictly ascending order. */
  method Load(listing: Option<seq<File>>, checksum: Bytes -> Bytes) returns (r: Loaded)
    ensures r.Ok? <==> listing.Some? && Loadable(listing.value)
    ensures r.Err? && listing.Some? ==> exists i :: FirstError(listing.value, i, r.error)
    ensures r.Ok? ==> Ascending(r.migrations, Earlier)
    ensures r.Ok? ==> forall i, j :: 0 <= i < j < |r.migrations| ==> r.migrations[i].version < r.migrations[j].version
    ensures r.Ok? ==> multiset(r.migrations) == multiset(Migrations(listing.value, checksum))
    ensures r.Ok? ==> FromFiles(r.migrations, listing.value, checksum) && AllFiles(r.migrations, listing.value, checksum)
  {
    if listing.None? {
      return Err(ListingFailed);
    }
    var files := listing.value;
    LoadableIff(files);
    var migrations, error := Collect(files, checksum);
    if error.Some? {
      return Err(error.value);
    }
    DistinctVersions(files, checksum);
    var sorted := Sort(migrations, Earlier);
    LoadedFiles(files, checksum, sorted);
    r := Ok(sorted);
  }

  /** The tests of one relevant file against the versions seen before it. */
  method Check(file: File, seen: set<int>) returns (error: Option<LoadError>)
    requires Relevant(file)
    ensures error.None? <==> VersionOk(file) && Version(file) !in seen && file.contents.Some?
    ensures error.Some? ==>
              error.value == if !VersionOk(file) then InvalidVersion(file.name)
                             else if Version(file) in seen then DuplicateVersion(Version(file))
                             else Unreadable(file.name)
  {
    error := None;
    if !VersionOk(file) {
      error := Some(InvalidVersion(file.name));
    } else if Version(file) in seen {
      error := Some(DuplicateVersion(Version(file)));
    } else if file.contents.None? {
      error := Some(Unreadable(file.name));
    }
  }

  ghost predicate AllOk(files: seq<File>, i: nat)
    requires i <= |files|
  {
    forall j :: 0 <= j < i ==> NextOk(files, j)
  }

  /** The loop over the entries, up to the first error. */
  method Collect(files: seq<File>, checksum: Bytes -> Bytes) returns (migrations: seq<Migration>, error: Option<LoadError>)
    ensures error.None? <==> AllOk(files, |files|)
    ensures error.Some? ==> exists i :: FirstError(files, i, error.value)
    ensures error.None? ==> Readable(files) && migrations == Migrations(files, checksum)
    ensures error.None? ==> FromFiles(migrations, files, checksum) && AllFiles(migrations, files, checksum)
  {
    migrations, error := [], None;
    var seen: set<int> := {};
    for i := 0 to |files|
      invariant error.None? && Readable(files[..i]) && migrations == Migrations(files[..i], checksum)
      invariant AllOk(files, i) && Seen(seen, files, i)
    {
      var file := files[i];
      SeenNext(seen, files, i);
      if Relevant(file) {
        error := Check(file, seen);
        SeenDecides(seen, files, i);
        if error.Some? {
          assert FirstError(files, i, error.value);
          return;
        }
        migrations := migrations + [ToMigration(file, checksum)];
        seen := seen + {Version(file)};
      }
      assert NextOk(files, i);
      MigrationsNext(files, i, checksum);
    }
    assert files[..|files|] == files;
    LoadableIff(files);
    LoadedFiles(files, checksum, migrations);
  }

  // ---------------------------------------------------------------- independence of the listing order

  lemma {:induction false} MigrationsConcat(a: seq<File>, b: seq<File>, checksum: Bytes -> Bytes)
    requires Readable(a) && Readable(b)
    ensures Readable(a + b)
    ensures Migrations(a + b, checksum) == Migrations(a, checksum) + Migrations(b, checksum)
  {
    if b == [] {
      assert a + b == a;
    } else {
      var front := b[..|b| - 1];
      assert (a + b)[..|a + b| - 1] == a + front;
      MigrationsConcat(a, front, checksum);
    }
  }

  lemma ReadableParts(left: seq<File>, f: File, right: seq<File>)
    requires Readable(left + [f] + right)
    ensures Readable(left) && Readable([f]) && Readable(right)
  {
    var files := left + [f] + right;
    assert forall i :: 0 <= i < |left| ==> left[i] == files[i];
    assert f == files[|left|];
    assert forall i :: 0 <= i < |right| ==> right[i] == files[|left| + 1 + i];
  }

  /** One file's share of the list. */
  lemma MigrationsMiddle(left: seq<File>, f: File, right: seq<File>, checksum: Bytes -> Bytes)
    requires Readable(left) && Readable([f]) && Readable(right)
    ensures Readable(left + [f] + right) && Readable(left + right)
    ensures multiset(Migrations(left + [f] + right, checksum)) ==
            multiset(Migrations(left + right, checksum)) + multiset(Migrations([f], checksum))
  {
    MigrationsConcat(left, right, checksum);
    MigrationsConcat(left, [f], checksum);
    MigrationsConcat(left + [f], right, checksum);
  }

  lemma {:induction false} MigrationsPermuted(a: seq<File>, b: seq<File>, checksum: Bytes -> Bytes)
    requires Readable(a) && Readable(b) && multiset(a) == multiset(b)
    ensures multiset(Migrations(a, checksum)) == multiset(Migrations(b, checksum))
    decreases |a|, 0
  {
    if a == [] {
      assert |b| == |multiset(b)| == 0;
    } else {
      var (front, f) := (a[..|a| - 1], a[|a| - 1]);
      assert a == front + [f] + [] == front + [f];
      var left, right := FindLast(front, f, b);
      ReadableParts(front, f, []);
      ReadableParts(left, f, right);
      PermutedStep(front, f, left, right, checksum);
    }
  }

  lemma {:induction false} PermutedStep(front: seq<File>, f: File, left: seq<File>, right: seq<File>, checksum: Bytes -> Bytes)
    requires Readable(front) && Readable([f]) && Readable(left) && Readable(right)
    requires multiset(front) == multiset(left + right)
    ensures Readable(front + [f]) && Readable(left + [f] + right)
    ensures multiset(Migrations(front + [f], checksum)) == multiset(Migrations(left + [f] + right, checksum))
    decreases |front|, 1
  {
    MigrationsConcat(front, [f], checksum);
    MigrationsMiddle(left, f, right, checksum);
    MigrationsPermuted(front, left + right, checksum);
  }

  /** Whatever order the directory is listed in, the loaded list is the same. */
  lemma ListingOrderIrrelevant(a: seq<File>, b: seq<File>, checksum: Bytes -> Bytes, r: seq<Migration>, s: seq<Migration>)
    requires Readable(a) && Readable(b) && multiset(a) == multiset(b)
    requires Ascending(r, Earlier) && multiset(r) == multiset(Migrations(a, checksum))
    requires Ascending(s, Earlier) && multiset(s) == multiset(Migrations(b, checksum))
    ensures r == s
  {
    MigrationsPermuted(a, b, checksum);
    AscendingUnique(r, s, Earlier);
  }
}
