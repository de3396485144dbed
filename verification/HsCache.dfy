/**
 `hs_init_db` of util-hs.c: a compiled pattern database is taken from a cache file when there is
 one, and compiled and cached otherwise. Compiler, serializer, deserializer and digest are
 arbitrary functions, and every call may meet a different rule file, different flags and different
 failures.
 */
module HsCache {
  import opened Text
  import opened CachePath

  /** The foreign parts. The compiler takes expressions, flags and ids. */
  datatype Engine<!Db> = Engine(
    compile: (seq<string>, seq<nat>, seq<nat>) -> Option<Db>,
    serialize: Db -> Option<seq<byte>>,
    deserialize: seq<byte> -> Option<Db>,
    digest: string -> seq<byte>)

  /** No two of these contents have the same digest. (A digest of fixed length has collisions
      somewhere; what matters is that they are not among the files that occur.) */
  ghost predicate CollisionFree<Db(!new)>(e: Engine<Db>, contents: set<string>) {
    forall a, b :: a in contents && b in contents && e.digest(a) == e.digest(b) ==> a == b
  }

  /** The deserializer inverts the serializer and rejects files that were cut short. */
  ghost predicate Deserializes<Db(!new)>(e: Engine<Db>) {
    forall db: Db, k: nat :: e.serialize(db).Some? && k <= |e.serialize(db).value| ==>
      e.deserialize(e.serialize(db).value[..k]) == if k == |e.serialize(db).value| then Some(db) else None
  }

  /** What the cache relies on, for the file contents that it meets. */
  ghost predicate Sound<Db(!new)>(e: Engine<Db>, contents: set<string>) {
    CollisionFree(e, contents) && Deserializes(e)
  }

  // ----- the rule file -----

  /** What successive `getline` calls return: lines with their newline, the last one maybe without. */
  function GetLines(content: string): (lines: seq<string>)
    ensures forall k :: 0 <= k < |lines| ==> lines[k] != ""
  {
    if content == "" then []
    else
      var k := IndexOf(content, '\n');
      if k == |content| then [content] else [content[..k + 1]] + GetLines(content[k + 1..])
  }

  /** The lines are the content cut after each newline: put together they give it back, only the last
      one may be without a newline, and no newline stands inside a line. */
  lemma {:induction false} GetLinesAre(content: string)
    ensures Concat(GetLines(content)) == content
    ensures var lines := GetLines(content);
            && (forall k :: 0 <= k < |lines| - 1 ==> Terminated(lines[k]))
            && (forall k :: 0 <= k < |lines| ==> '\n' !in lines[k][..|lines[k]| - 1])
  {
    if content != "" {
      var k := IndexOf(content, '\n');
      if k == |content| {
        ConcatOne(content);
        assert content[..k] == content;
        assert forall j :: 0 <= j < |content| ==> content[j] in content;
      } else {
        GetLinesAre(content[k + 1..]);
        assert content == content[..k + 1] + content[k + 1..];
        assert content[..k + 1][..k] == content[..k];
      }
    }
  }

  predicate Terminated(line: string) {
    line != "" && line[|line| - 1] == '\n'
  }

  /** The C string that `strdup` copies from a terminated line: its text up to the first NUL. */
  function PatternOf(line: string): string
    requires Terminated(line)
  {
    var text := line[..|line| - 1];
    text[..IndexOf(text, '\0')]
  }

  /** The pattern is the line's text, or what comes before the first NUL in it. */
  lemma PatternIs(text: string, rest: string)
    requires '\0' !in text
    ensures PatternOf(text + ['\n']) == text
    ensures PatternOf(text + ['\0'] + rest + ['\n']) == text
  {
    assert (text + ['\n'])[..|text|] == text;
    var all := text + ['\0'] + rest;
    assert text + ['\0'] + rest + ['\n'] == all + ['\n'];
    assert (all + ['\n'])[..|all|] == all;
    IndexOfUnique(text, '\0', rest);
    assert all[..|text|] == text;
    assert forall k :: 0 <= k < |text| ==> text[k] in text;
    assert text[..|text|] == text;
  }

  predicate AllTerminated(lines: seq<string>) {
    forall k :: 0 <= k < |lines| ==> Terminated(lines[k])
  }

  /** The non-blank lines, in order. */
  function Patterns(lines: seq<string>): seq<string>
    requires AllTerminated(lines)
  {
    if lines == [] then []
    else
      var p := PatternOf(lines[|lines| - 1]);
      Patterns(lines[..|lines| - 1]) + if p == "" then [] else [p]
  }

  /** What a rule file compiles to under some flags: its non-blank lines in order, all with these
      flags and with the id 1. None when the file is not terminated or the compiler refuses. */
  function Compiled<Db>(e: Engine<Db>, content: string, flags: nat): Option<Db> {
    var lines := GetLines(content);
    if !AllTerminated(lines) then None
    else
      var ps := Patterns(lines);
      e.compile(ps, Repeat<nat>(flags, |ps|), Repeat<nat>(1, |ps|))
  }

  function Serialized<Db>(e: Engine<Db>, content: string, flags: nat): Option<seq<byte>> {
    var db := Compiled(e, content, flags);
    if db.None? then None else e.serialize(db.value)
  }

  lemma PatternsSnoc(lines: seq<string>, k: nat)
    requires k < |lines| && AllTerminated(lines[..k]) && Terminated(lines[k])
    ensures AllTerminated(lines[..k + 1])
    ensures var p := PatternOf(lines[k]);
            Patterns(lines[..k + 1]) == Patterns(lines[..k]) + if p == "" then [] else [p]
  {
    assert lines[..k + 1][..k] == lines[..k];
  }

  lemma RepeatNone<T>(x: T)
    ensures Repeat(x, 0) == []
  {
  }

  lemma RepeatSnoc<T>(x: T, n: nat)
    ensures Repeat(x, n + 1) == Repeat(x, n) + [x]
  {
  }

  /** One slot of the three arrays; every expression gets the id 1. */
  method Store(exprs: array<string>, flags: array<nat>, ids: array<nat>, i: nat, pattern: string, flag: nat)
    requires i < exprs.Length == flags.Length == ids.Length && flags != ids
    modifies exprs, flags, ids
    ensures exprs[..i + 1] == old(exprs[..i]) + [pattern]
    ensures flags[..i + 1] == old(flags[..i]) + [flag]
    ensures ids[..i + 1] == old(ids[..i]) + [1]
  {
    exprs[i] := pattern;
    flags[i] := flag;
    ids[i] := 1;
  }

  /** The second pass over the file: the arrays are filled from the front while blank lines lower
      the count, so that the slots still to fill are always the lines still to read. */
  method FillArrays(lines: seq<string>, exprFlags: nat)
    returns (panic: bool, expressions: seq<string>, flags: seq<nat>, ids: seq<nat>)
    requires forall k :: 0 <= k < |lines| ==> lines[k] != ""
    ensures panic <==> !AllTerminated(lines)
    ensures !panic ==> expressions == Patterns(lines)
    ensures !panic ==> flags == Repeat<nat>(exprFlags, |expressions|) && ids == Repeat<nat>(1, |expressions|)
  {
    assert lines[..0] == [] && Patterns([]) == [];
    hide Patterns, PatternOf, Repeat;
    panic, expressions, flags, ids := false, [], [], [];
    var expressionCount := |lines|;
    var exprs := new string[expressionCount](_ => "");
    var flagArr := new nat[expressionCount](_ => 0);
    var idArr := new nat[expressionCount](_ => 0);
    RepeatNone<nat>(exprFlags);
    RepeatNone<nat>(1);
    var i := 0;
    var read := 0;
    while read < |lines| && i < expressionCount
      invariant read <= |lines| && i <= expressionCount <= |lines|
      invariant expressionCount - i == |lines| - read
      invariant AllTerminated(lines[..read]) && exprs[..i] == Patterns(lines[..read])
      invariant flagArr[..i] == Repeat<nat>(exprFlags, i) && idArr[..i] == Repeat<nat>(1, i)
      decreases |lines| - read
    {
      var line := lines[read];
      if line[|line| - 1] != '\n' {
        return true, [], [], [];
      }
      PatternsSnoc(lines, read);
      read := read + 1;
      var pattern := PatternOf(line);
      if pattern == "" {
        expressionCount := expressionCount - 1;
        continue;
      }
      Store(exprs, flagArr, idArr, i, pattern, exprFlags);
      RepeatSnoc<nat>(exprFlags, i);
      RepeatSnoc<nat>(1, i);
      i := i + 1;
    }
    assert lines[..|lines|] == lines;
    expressions, flags, ids := exprs[..expressionCount], flagArr[..expressionCount], idArr[..expressionCount];
  }

  // ----- one call -----

  /** How writing the cache file goes: it may stop early, with or without an error report, or the
      process may die in the middle; `k` bytes are on disk then. */
  datatype Write = OpenFailed | WriteFailed(k: nat) | CloseFailed(k: nat) | Killed(k: nat) | Written

  datatype Env = Env(readOk: bool, allocOk: bool, write: Write)

  datatype Outcome<+Db> = Ready(db: Db) | Failed | Panic | Dead

  type Files = map<string, seq<byte>>

  function AfterWrite(files: Files, path: string, bytes: seq<byte>, w: Write): Files {
    match w
    case OpenFailed => files
    case Written => files[path := bytes]
    case WriteFailed(k) => files[path := bytes[..if k < |bytes| then k else |bytes|]]
    case CloseFailed(k) => files[path := bytes[..if k < |bytes| then k else |bytes|]]
    case Killed(k) => files[path := bytes[..if k < |bytes| then k else |bytes|]]
  }

  function WriteResult<Db>(db: Db, w: Write): Outcome<Db> {
    match w
    case Written => Ready(db)
    case Killed(_) => Dead
    case _ => Failed
  }

  function Cached<Db>(e: Engine<Db>, files: Files, content: string, flags: nat, env: Env): Option<Db> {
    var path := CacheFile(e.digest(content), flags);
    if path in files && env.readOk then e.deserialize(files[path]) else None
  }

  /** The specification of a call: the cache files afterwards and the outcome. */
  function Call<Db>(e: Engine<Db>, files: Files, file: Option<string>, flags: nat, env: Env): (Files, Outcome<Db>) {
    if file.None? then (files, Failed)
    else
      var content := file.value;
      var cached := Cached(e, files, content, flags, env);
      if cached.Some? then (files, Ready(cached.value))
      else if !env.allocOk then (files, Failed)
      else if !AllTerminated(GetLines(content)) then (files, Panic)
      else
        var db := Compiled(e, content, flags);
        var bytes := Serialized(e, content, flags);
        if db.None? || bytes.None? then (files, Failed)
        else
          var path := CacheFile(e.digest(content), flags);
          (AfterWrite(files, path, bytes.value, env.write), WriteResult(db.value, env.write))
  }

  /** A call is answered with a database exactly on a cache hit, or when the memory is there, the file
      compiles, and the cache file is written to its end; it dies only in that writing. */
  lemma {:induction false} CallSucceeds<Db>(e: Engine<Db>, files: Files, file: Option<string>, flags: nat, env: Env)
    ensures var o := Call(e, files, file, flags, env).1;
            && (o.Ready? <==>
                  file.Some?
                  && (Cached(e, files, file.value, flags, env).Some?
                      || (Writes(e, file.value, flags, env) && env.write == Written)))
            && (o.Dead? <==>
                  file.Some? && Cached(e, files, file.value, flags, env).None?
                  && Writes(e, file.value, flags, env) && env.write.Killed?)
            && (o.Panic? <==>
                  file.Some? && Cached(e, files, file.value, flags, env).None?
                  && env.allocOk && !AllTerminated(GetLines(file.value)))
  {
  }

  /** A call without a cache hit gets to the writing. */
  predicate Writes<Db>(e: Engine<Db>, content: string, flags: nat, env: Env) {
    env.allocOk && Serialized(e, content, flags).Some?
  }

  class Cache {
    const hashFile: array<char>
    var files: Files

    constructor ()
      ensures files == map[] && hashFile.Length == BUFFER_SIZE && fresh(hashFile)
    {
      hashFile := new char[BUFFER_SIZE](_ => '\0');
      files := map[];
    }

    /** The file name in the static buffer. */
    method FileName(digest: seq<byte>, flags: nat) returns (path: string)
      requires hashFile.Length == BUFFER_SIZE && flags < TWO32 && |digest| == 16
      modifies hashFile
      ensures path == CacheFile(digest, flags)
    {
      var panic := ConstructCacheFile(hashFile, digest, flags);
      ghost var p := CacheFile(digest, flags);
      assert hashFile[..] == p + ['\0'] + hashFile[|p| + 1..];
      IndexOfUnique(p, '\0', hashFile[|p| + 1..]);
      path := hashFile[..][..IndexOf(hashFile[..], '\0')];
    }

    /** `hs_init_db_from_cache`. */
    method InitFromCache<Db>(e: Engine<Db>, content: string, flags: nat, env: Env) returns (db: Option<Db>)
      requires hashFile.Length == BUFFER_SIZE && flags < TWO32 && |e.digest(content)| == 16
      modifies hashFile
      ensures db == Cached(e, files, content, flags, env)
    {
      var path := FileName(e.digest(content), flags);
      if path in files {
        if !env.readOk {
          return None;
        }
        return e.deserialize(files[path]);
      }
      return None;
    }

    /** `hs_init_db`. */
    method InitDb<Db>(e: Engine<Db>, file: Option<string>, flags: nat, env: Env) returns (o: Outcome<Db>)
      requires hashFile.Length == BUFFER_SIZE && flags < TWO32
      requires file.Some? ==> |e.digest(file.value)| == 16
      modifies this`files, hashFile
      ensures (files, o) == Call(e, old(files), file, flags, env)
    {
      if file.None? {
        return Failed;
      }
      var content := file.value;
      var cached := InitFromCache(e, content, flags, env);
      if cached.Some? {
        return Ready(cached.value);
      }
      var lines := GetLines(content);
      if !env.allocOk {
        return Failed;
      }
      var panic, exprs, flagArr, ids := FillArrays(lines, flags);
      if panic {
        return Panic;
      }
      var db := e.compile(exprs, flagArr, ids);
      if db.None? {
        return Failed;
      }
      var stream := e.serialize(db.value);
      if stream.None? {
        return Failed;
      }
      var path := FileName(e.digest(content), flags);
      files := AfterWrite(files, path, stream.value, env.write);
      return WriteResult(db.value, env.write);
    }
  }

  // ----- agreement over any history -----

  /** A call changes no cache file but that of its own content and flags, and on a hit not even that. */
  lemma {:induction false} OthersUntouched<Db>(e: Engine<Db>, files: Files, file: Option<string>, flags: nat, env: Env)
    ensures var files' := Call(e, files, file, flags, env).0;
            && (file.None? || Cached(e, files, file.value, flags, env).Some? || env.write == OpenFailed
                ==> files' == files)
            && (file.Some? ==>
                  forall path :: path != CacheFile(e.digest(file.value), flags) ==>
                    (path in files' <==> path in files) && (path in files ==> files'[path] == files[path]))
  {
    hide CacheFile, Compiled, GetLines;
  }

  predicate IsPrefix(a: seq<byte>, b: seq<byte>) {
    |a| <= |b| && a == b[..|a|]
  }

  /** These bytes are all or a first part of what a rule file and flags serialize to. */
  predicate Belongs<Db>(e: Engine<Db>, bytes: seq<byte>, content: string, flags: nat) {
    Serialized(e, content, flags).Some? && IsPrefix(bytes, Serialized(e, content, flags).value)
  }

  /** `path` is the cache file of one of the contents under some flags, and `bytes` belong there. */
  ghost predicate Filed<Db(!new)>(e: Engine<Db>, path: string, bytes: seq<byte>, contents: set<string>) {
    exists content, flags {:trigger Belongs(e, bytes, content, flags)} ::
      content in contents && path == CacheFile(e.digest(content), flags) && Belongs(e, bytes, content, flags)
  }

  /** Every cache file belongs to one of the contents and holds all or a first part of what it
      serializes to under the flags in its name. */
  ghost predicate Coherent<Db(!new)>(e: Engine<Db>, files: Files, contents: set<string>) {
    forall path :: path in files ==> Filed(e, path, files[path], contents)
  }

  /** In a coherent cache the file found for a content and flags was made from them. */
  lemma FoundIsOwn<Db(!new)>(e: Engine<Db>, files: Files, contents: set<string>, content: string, flags: nat)
    requires CollisionFree(e, contents) && Coherent(e, files, contents) && content in contents
    requires CacheFile(e.digest(content), flags) in files
    ensures Belongs(e, files[CacheFile(e.digest(content), flags)], content, flags)
  {
    hide Belongs, CacheFile;
    var path := CacheFile(e.digest(content), flags);
    assert Filed(e, path, files[path], contents);
    var c, f :| c in contents && path == CacheFile(e.digest(c), f) && Belongs(e, files[path], c, f);
    CacheFileInjective(e.digest(c), f, e.digest(content), flags);
  }

  /** A cache hit gives the compiled database. */
  lemma HitIsCompiled<Db(!new)>(e: Engine<Db>, files: Files, contents: set<string>,
                                content: string, flags: nat, env: Env)
    requires Sound(e, contents) && Coherent(e, files, contents) && content in contents
    requires Cached(e, files, content, flags, env).Some?
    ensures Cached(e, files, content, flags, env) == Compiled(e, content, flags)
  {
    FoundIsOwn(e, files, contents, content, flags);
    hide Compiled, CacheFile, Coherent, CollisionFree;
    var path := CacheFile(e.digest(content), flags);
    var db := Compiled(e, content, flags).value;
    var bytes := e.serialize(db).value;
    assert files[path] == bytes[..|files[path]|];
    assert bytes == bytes[..|bytes|];
  }

  /** Writing any first part of the right bytes keeps the cache coherent. */
  lemma WriteKeepsCoherent<Db(!new)>(e: Engine<Db>, files: Files, contents: set<string>,
                                     content: string, flags: nat, bytes: seq<byte>, w: Write)
    requires Coherent(e, files, contents) && content in contents && Serialized(e, content, flags) == Some(bytes)
    ensures Coherent(e, AfterWrite(files, CacheFile(e.digest(content), flags), bytes, w), contents)
  {
    hide Serialized, CacheFile;
    var path := CacheFile(e.digest(content), flags);
    var files' := AfterWrite(files, path, bytes, w);
    forall p | p in files'
      ensures Filed(e, p, files'[p], contents)
    {
      if p == path && w != OpenFailed {
        assert Belongs(e, files'[p], content, flags);
      } else {
        assert Filed(e, p, files[p], contents);
      }
    }
  }

  /** One call keeps the cache coherent, and a database it returns is the compiled one. */
  lemma {:induction false} CallAgrees<Db(!new)>(e: Engine<Db>, files: Files, contents: set<string>,
                                                file: Option<string>, flags: nat, env: Env)
    requires Sound(e, contents) && Coherent(e, files, contents) && (file.Some? ==> file.value in contents)
    ensures Coherent(e, Call(e, files, file, flags, env).0, contents)
    ensures Call(e, files, file, flags, env).1.Ready? ==>
              file.Some? && Compiled(e, file.value, flags) == Some(Call(e, files, file, flags, env).1.db)
  {
    hide Compiled, Coherent, Sound, CacheFile;
    if file.Some? {
      var cached := Cached(e, files, file.value, flags, env);
      if cached.Some? {
        HitIsCompiled(e, files, contents, file.value, flags, env);
      } else if Serialized(e, file.value, flags).Some? {
        var bytes := Serialized(e, file.value, flags).value;
        WriteKeepsCoherent(e, files, contents, file.value, flags, bytes, env.write);
      }
    }
  }

  datatype Request = Request(file: Option<string>, flags: nat, env: Env)

  /** The cache files after a history of calls that began with an empty cache. */
  function After<Db>(e: Engine<Db>, history: seq<Request>): Files {
    if history == [] then map[]
    else
      var q := history[|history| - 1];
      Call(e, After(e, history[..|history| - 1]), q.file, q.flags, q.env).0
  }

  /** The file contents that occur in a history. */
  function Contents(history: seq<Request>): set<string> {
    set q | q in history && q.file.Some? :: q.file.value
  }

  /** Every cache file after a history is the cache file of a content that occurred in it. */
  lemma {:induction false} HistoryCoherent<Db(!new)>(e: Engine<Db>, history: seq<Request>, contents: set<string>)
    requires Sound(e, contents) && Contents(history) <= contents
    ensures Coherent(e, After(e, history), contents)
  {
    hide Call, Sound;
    if history != [] {
      var init, q := history[..|history| - 1], history[|history| - 1];
      assert forall r :: r in init ==> r in history;
      assert q.file.Some? ==> q.file.value in Contents(history);
      HistoryCoherent(e, init, contents);
      CallAgrees(e, After(e, init), contents, q.file, q.flags, q.env);
    }
  }

  /** After any history of calls with changing rule files, flags and failures, a call that reports
      success hands out the database that compiling its own file under its own flags gives,
      provided no two of the files that occurred have the same digest. */
  lemma CacheAgrees<Db(!new)>(e: Engine<Db>, history: seq<Request>, q: Request)
    requires Sound(e, Contents(history + [q]))
    ensures var o := Call(e, After(e, history), q.file, q.flags, q.env).1;
            o.Ready? ==> q.file.Some? && Compiled(e, q.file.value, q.flags) == Some(o.db)
  {
    hide Call, Sound;
    var contents := Contents(history + [q]);
    assert forall r :: r in history + [q] <==> r in history || r == q;
    assert q in history + [q];
    HistoryCoherent(e, history, contents);
    CallAgrees(e, After(e, history), contents, q.file, q.flags, q.env);
  }

  /** A complete cache file is used: after a call that compiled and succeeded the next call with the same file and
      flags returns the same database without compiling. */
  lemma SecondCallHits<Db(!new)>(e: Engine<Db>, files: Files, content: string, flags: nat, env: Env, env': Env)
    requires Deserializes(e) && env'.readOk
    requires Cached(e, files, content, flags, env).None? && Call(e, files, Some(content), flags, env).1.Ready?
    ensures var (files', o) := Call(e, files, Some(content), flags, env);
            Cached(e, files', content, flags, env') == Some(o.db)
  {
    hide Compiled, CacheFile;
    var db := Compiled(e, content, flags).value;
    var bytes := e.serialize(db).value;
    assert bytes == bytes[..|bytes|];
  }

  // ----- the assumptions can be met, and cannot be dropped -----

  /** A database that is only the number of its expressions. */
  datatype Tally = Tally(n: nat)

  /** The number in unary, and an end mark. */
  function Unary(t: Tally): (bytes: seq<byte>)
    ensures |bytes| == t.n + 1 && bytes[t.n] == 0 && forall k :: 0 <= k < t.n ==> bytes[k] == 1
  {
    seq(t.n, _ => 1 as byte) + [0]
  }

  function UnaryBack(bytes: seq<byte>): Option<Tally> {
    if bytes != [] && bytes[|bytes| - 1] == 0 && forall k :: 0 <= k < |bytes| - 1 ==> bytes[k] == 1
    then Some(Tally(|bytes| - 1)) else None
  }

  /** Sixteen bytes, the last of which is the length of the content. */
  function LengthDigest(content: string): (d: seq<byte>)
    ensures |d| == 16 && d[15] == (|content| % 256) as byte
  {
    seq(15, _ => 0 as byte) + [(|content| % 256) as byte]
  }

  function Counting(): Engine<Tally> {
    Engine((ps: seq<string>, fs: seq<nat>, ids: seq<nat>) => Some(Tally(|ps|)), (t: Tally) => Some(Unary(t)), UnaryBack,
           LengthDigest)
  }

  lemma CountingDeserializes()
    ensures Deserializes(Counting())
  {
    forall t: Tally, k: nat | k <= t.n + 1
      ensures UnaryBack(Unary(t)[..k]) == if k == t.n + 1 then Some(t) else None
    {
      if k == t.n + 1 {
        assert Unary(t)[..k] == Unary(t);
      }
    }
  }

  const GOOD := Env(true, true, Written)
  const ONE_LINE := "a\n"
  const TWO_LINES := "a\nb\n"

  /** A history and a call on a different file with a different database that meet the assumptions,
      and whose call succeeds. */
  lemma AssumptionsAreMet()
    ensures var e, history, q := Counting(), [Request(Some(TWO_LINES), 0, GOOD)], Request(Some(ONE_LINE), 0, GOOD);
            && Sound(e, Contents(history + [q]))
            && Compiled(e, TWO_LINES, 0) == Some(Tally(2))
            && Call(e, After(e, history), q.file, q.flags, q.env).1 == Ready(Tally(1))
  {
    var e, first, q := Counting(), Request(Some(TWO_LINES), 0, GOOD), Request(Some(ONE_LINE), 0, GOOD);
    assert Contents([first] + [q]) == {TWO_LINES, ONE_LINE} by {
      assert [first] + [q] == [first, q];
    }
    CountingFacts();
    hide GetLines, Compiled, CacheFile, Deserializes, Patterns, Contents, After;
    CacheAgrees(e, [first], q);
    SucceedsOnGood(e, After(e, [first]), ONE_LINE, 0);
  }

  /** A call succeeds when nothing fails and the file compiles. */
  lemma SucceedsOnGood<Db>(e: Engine<Db>, files: Files, content: string, flags: nat)
    requires AllTerminated(GetLines(content)) && Serialized(e, content, flags).Some?
    ensures Call(e, files, Some(content), flags, GOOD).1.Ready?
  {
    hide GetLines, Compiled, CacheFile;
  }

  lemma LineOf(text: string, rest: string)
    requires '\n' !in text && '\0' !in text
    ensures GetLines(text + "\n" + rest) == [text + "\n"] + GetLines(rest)
    ensures PatternOf(text + "\n") == text
  {
    var content := text + "\n" + rest;
    assert content == text + ['\n'] + rest;
    IndexOfUnique(text, '\n', rest);
    assert content[..|text| + 1] == text + "\n" && content[|text| + 1..] == rest;
    assert (text + "\n")[..|text|] == text;
  }

  lemma PatternsOfTwo(x: string, y: string)
    requires Terminated(x) && Terminated(y) && PatternOf(x) != "" && PatternOf(y) != ""
    ensures Patterns([x]) == [PatternOf(x)] && Patterns([x, y]) == [PatternOf(x), PatternOf(y)]
  {
    hide PatternOf;
    var none: seq<string> := [];
    assert [x][..0] == none && [x, y][..1] == [x];
  }

  lemma LinesOfFiles()
    ensures var a, b := "a\n", "b\n";
            && GetLines(ONE_LINE) == [a] && GetLines(TWO_LINES) == [a, b]
            && PatternOf(a) == "a" && PatternOf(b) == "b"
  {
    hide PatternOf;
    assert GetLines("") == [];
    hide GetLines;
    var a, b := "a\n", "b\n";
    assert a == "a" + "\n" + "" == "a" + "\n" && b == "b" + "\n" + "" == "b" + "\n" && TWO_LINES == "a" + "\n" + b;
    LineOf("a", "");
    LineOf("a", b);
    LineOf("b", "");
  }

  lemma CountingFacts()
    ensures Sound(Counting(), {TWO_LINES, ONE_LINE})
    ensures AllTerminated(GetLines(ONE_LINE)) && Compiled(Counting(), ONE_LINE, 0) == Some(Tally(1))
    ensures AllTerminated(GetLines(TWO_LINES)) && Compiled(Counting(), TWO_LINES, 0) == Some(Tally(2))
  {
    CountingDeserializes();
    assert LengthDigest(ONE_LINE)[15] == 2 && LengthDigest(TWO_LINES)[15] == 4;
    LinesOfFiles();
    PatternsOfTwo("a\n", "b\n");
    hide GetLines, PatternOf, Deserializes, LengthDigest, Patterns, Repeat;
  }

  /** Without that assumption the cache can serve the wrong database: of two files with the same
      digest, the second is answered with what the first compiles to, which is right exactly when
      both compile to the same. */
  lemma CollisionServesOther<Db(!new)>(e: Engine<Db>, first: string, second: string, flags: nat)
    requires Deserializes(e) && e.digest(first) == e.digest(second)
    requires AllTerminated(GetLines(first)) && Serialized(e, first, flags).Some?
    ensures var o := Call(e, After(e, [Request(Some(first), flags, GOOD)]), Some(second), flags, GOOD).1;
            && o == Ready(Compiled(e, first, flags).value)
            && (Compiled(e, second, flags) == Some(o.db) <==> Compiled(e, first, flags) == Compiled(e, second, flags))
  {
    var history := [Request(Some(first), flags, GOOD)];
    assert history[..0] == [];
    hide GetLines, Compiled, CacheFile;
    var bytes := Serialized(e, first, flags).value;
    assert bytes[..|bytes|] == bytes;
  }

  const ONE_LONG_LINE := "abc\n"

  /** Two files with the same digest, of which the second is answered with one expression for two. */
  lemma WrongDatabase()
    ensures LengthDigest(ONE_LONG_LINE) == LengthDigest(TWO_LINES)
    ensures Compiled(Counting(), TWO_LINES, 0) == Some(Tally(2))
    ensures var history := [Request(Some(ONE_LONG_LINE), 0, GOOD)];
            Call(Counting(), After(Counting(), history), Some(TWO_LINES), 0, GOOD).1 == Ready(Tally(1))
  {
    LineOf("abc", "");
    assert "abc" + "\n" + "" == ONE_LONG_LINE == "abc" + "\n";
    assert GetLines("") == [];
    CountingFacts();
    LongLineCompiles();
    hide GetLines, Compiled, CacheFile, Deserializes;
    CollisionServesOther(Counting(), ONE_LONG_LINE, TWO_LINES, 0);
  }

  lemma LongLineCompiles()
    requires GetLines(ONE_LONG_LINE) == [ONE_LONG_LINE] && PatternOf(ONE_LONG_LINE) == "abc"
    ensures AllTerminated(GetLines(ONE_LONG_LINE)) && Compiled(Counting(), ONE_LONG_LINE, 0) == Some(Tally(1))
  {
    PatternsOfTwo(ONE_LONG_LINE, ONE_LONG_LINE);
    hide GetLines, PatternOf, Patterns, Repeat;
  }
}
