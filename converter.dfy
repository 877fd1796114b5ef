/**
 * The command-line driver: resolving the configuration from the command
 * line and the environment, merging the per-page conversion results into
 * one chunk list and one chunk-hash index, and counting what changed
 * against the previous index.
 */
module Converter {
  import opened Wrappers
  import opened Strings
  import opened Document

  // ----------------------------------------------------------------------
  // Configuration
  // ----------------------------------------------------------------------

  /** The command-line options; `None` is an option that was not given. */
  datatype Args = Args(baseUrl: Option<string>, email: Option<string>, apiToken: Option<string>,
                       space: Option<string>, rootPageId: Option<string>,
                       includeChildren: Option<bool>)

  /** The resolved settings; every string in it is non-empty. */
  datatype Config = Config(baseUrl: string, email: string, apiToken: string, space: string,
                           rootPageId: string, includeChildren: bool)

  datatype ConfigError =
    | MissingKeys(keys: seq<string>)   // the required settings left unset or empty
    | InvalidBool(text: string)        // `INCLUDE_CHILDREN` that strtobool rejects

  /** The required settings, in the order the error message lists them. */
  const KEYS: seq<string> := ["base_url", "email", "api_token", "space", "root_page_id"]

  /** The environment variable that backs each required setting. */
  const ENV_NAMES: seq<string> := ["CONF_BASE_URL", "CONF_EMAIL", "CONF_API_TOKEN", "CONF_SPACE", "CONF_ROOT_PAGE_ID"]

  const INCLUDE_CHILDREN_VAR := "INCLUDE_CHILDREN"

  /** `os.getenv(name)`. */
  function Getenv(env: map<string, string>, name: string): (r: Option<string>)
    ensures r.Some? <==> name in env
    ensures r.Some? ==> r.value == env[name]
  {
    if name in env then Some(env[name]) else None
  }

  /** Python's `a or b` on an optional string: `a` unless it is None or empty. */
  function OrElse(a: Option<string>, b: Option<string>): (r: Option<string>)
    ensures a.Some? && a.value != "" ==> r == a
    ensures (a.None? || a.value == "") ==> r == b
  {
    if a.Some? && a.value != "" then a else b
  }

  /** The command-line value of each required setting, in `KEYS` order. */
  function CliValues(args: Args): (r: seq<Option<string>>)
    ensures |r| == |KEYS|
  {
    [args.baseUrl, args.email, args.apiToken, args.space, args.rootPageId]
  }

  /** Each required setting: the command-line value if it is non-empty, else
      the environment's. */
  function Resolved(args: Args, env: map<string, string>): (r: seq<Option<string>>)
    ensures |r| == |KEYS|
    ensures forall k :: 0 <= k < |KEYS| ==> r[k] == OrElse(CliValues(args)[k], Getenv(env, ENV_NAMES[k]))
  {
    var cli := CliValues(args);
    seq(|KEYS|, k requires 0 <= k < |KEYS| => OrElse(cli[k], Getenv(env, ENV_NAMES[k])))
  }

  predicate Unset(v: Option<string>)
  {
    v.None? || v.value == ""
  }

  /** The keys whose value is None or empty, in key order. */
  function MissingOf(keys: seq<string>, values: seq<Option<string>>): (r: seq<string>)
    requires |keys| == |values|
    ensures forall x :: x in r ==> x in keys
    ensures r == [] <==> forall k :: 0 <= k < |values| ==> !Unset(values[k])
  {
    if keys == [] then []
    else
      var n := |keys| - 1;
      MissingOf(keys[..n], values[..n]) + (if Unset(values[n]) then [keys[n]] else [])
  }

  /** `include_children`: the command-line flag when given, else strtobool of
      `INCLUDE_CHILDREN`, which defaults to "true"; `strtobool` returns None
      where the library raises ValueError. */
  function IncludeChildren(args: Args, env: map<string, string>, strtobool: string -> Option<bool>): Option<bool>
  {
    if args.includeChildren.Some? then args.includeChildren
    else strtobool(Getenv(env, INCLUDE_CHILDREN_VAR).GetOr("true"))
  }

  /** `env_or_default`: the settings, or the ValueError it raises. The flag
      is resolved first, so an unparsable `INCLUDE_CHILDREN` is reported
      before any missing key. */
  function EnvOrDefault(args: Args, env: map<string, string>, strtobool: string -> Option<bool>)
    : (r: Result<Config, ConfigError>)
    ensures IncludeChildren(args, env, strtobool).None? ==> r.Err? && r.error.InvalidBool?
    ensures r.Err? && r.error.MissingKeys? ==> r.error.keys != [] && r.error.keys == MissingOf(KEYS, Resolved(args, env))
    ensures r.Ok? ==> IncludeChildren(args, env, strtobool) == Some(r.value.includeChildren)
    ensures r.Ok? ==> var v := Resolved(args, env);
      v[0] == Some(r.value.baseUrl) && v[1] == Some(r.value.email) && v[2] == Some(r.value.apiToken) &&
      v[3] == Some(r.value.space) && v[4] == Some(r.value.rootPageId)
  {
    var flag := IncludeChildren(args, env, strtobool);
    if flag.None? then
      Err(InvalidBool(Getenv(env, INCLUDE_CHILDREN_VAR).GetOr("true")))
    else
      var v := Resolved(args, env);
      var missing := MissingOf(KEYS, v);
      if missing != [] then Err(MissingKeys(missing))
      else
        assert forall k :: 0 <= k < |v| ==> !Unset(v[k]);
        Ok(Config(v[0].value, v[1].value, v[2].value, v[3].value, v[4].value, flag.value))
  }

  /** A key is listed as missing exactly when neither the command line nor
      the environment gives it a non-empty value. */
  lemma {:induction false} MissingOfIff(keys: seq<string>, values: seq<Option<string>>, k: nat)
    requires |keys| == |values| && k < |keys|
    requires forall i, j :: 0 <= i < j < |keys| ==> keys[i] != keys[j]
    ensures keys[k] in MissingOf(keys, values) <==> Unset(values[k])
  {
    var n := |keys| - 1;
    var front := MissingOf(keys[..n], values[..n]);
    if k == n {
      assert keys[n] !in front;
    } else {
      MissingOfIff(keys[..n], values[..n], k);
      assert keys[..n][k] == keys[k] && values[..n][k] == values[k];
    }
  }

  /** `env_or_default` succeeds exactly when the flag parses and every
      required setting resolves to a non-empty value; a key is reported
      missing exactly when it resolves to None or "". */
  lemma ConfigIff(args: Args, env: map<string, string>, strtobool: string -> Option<bool>)
    ensures var r := EnvOrDefault(args, env, strtobool);
      var v := Resolved(args, env);
      (r.Ok? <==> IncludeChildren(args, env, strtobool).Some? && forall k :: 0 <= k < |KEYS| ==> !Unset(v[k])) &&
      (IncludeChildren(args, env, strtobool).Some? ==>
        forall k :: 0 <= k < |KEYS| ==> (Unset(v[k]) <==> r.Err? && KEYS[k] in r.error.keys))
  {
    var v := Resolved(args, env);
    var r := EnvOrDefault(args, env, strtobool);
    forall k | 0 <= k < |KEYS|
      ensures KEYS[k] in MissingOf(KEYS, v) <==> Unset(v[k])
    {
      MissingOfIff(KEYS, v, k);
    }
  }

  /** A flag given on the command line wins: the environment's value, and
      how strtobool would read it, make no difference. */
  lemma FlagPrecedence(args: Args, env1: map<string, string>, env2: map<string, string>,
                       parse1: string -> Option<bool>, parse2: string -> Option<bool>)
    requires args.includeChildren.Some?
    requires forall name :: name in ENV_NAMES ==> Getenv(env1, name) == Getenv(env2, name)
    ensures EnvOrDefault(args, env1, parse1) == EnvOrDefault(args, env2, parse2)
    ensures EnvOrDefault(args, env1, parse1).Ok? ==>
      EnvOrDefault(args, env1, parse1).value.includeChildren == args.includeChildren.value
  {
    assert Resolved(args, env1) == Resolved(args, env2);
  }

  /** Without the flag and without `INCLUDE_CHILDREN`, children are included
      whenever strtobool reads "true" as true. */
  lemma IncludeChildrenDefault(args: Args, env: map<string, string>, strtobool: string -> Option<bool>)
    requires args.includeChildren.None? && INCLUDE_CHILDREN_VAR !in env
    requires strtobool("true") == Some(true)
    ensures EnvOrDefault(args, env, strtobool).Ok? ==> EnvOrDefault(args, env, strtobool).value.includeChildren
  {
  }

  // ----------------------------------------------------------------------
  // The export loop
  // ----------------------------------------------------------------------

  /** What converting one page gave: its chunks and its chunk-id-to-hash map. */
  datatype PageOutput = PageOutput(chunks: seq<Chunk>, chunkMap: map<string, string>)

  /** The loop's accumulators: `all_chunks`, `chunk_index`, `processed_docs`. */
  datatype Progress = Progress(allChunks: seq<Chunk>, chunkIndex: map<string, string>, processed: nat)

  const START := Progress([], map[], 0)

  /** One pass of the loop body; None is a page whose fetch failed. */
  function Step(p: Progress, page: Option<PageOutput>): Progress
  {
    match page
    case None => p
    case Some(out) => Progress(p.allChunks + out.chunks, p.chunkIndex + out.chunkMap, p.processed + 1)
  }

  /** The accumulators after the loop has seen `pages`. */
  function Run(pages: seq<Option<PageOutput>>): Progress
  {
    if pages == [] then START else Step(Run(pages[..|pages| - 1]), pages[|pages| - 1])
  }

  /** The loop of `main` over the pages, given what fetching and converting
      each page yields. */
  method ExportPages(pages: seq<Option<PageOutput>>)
    returns (allChunks: seq<Chunk>, chunkIndex: map<string, string>, processedDocs: nat)
    ensures Progress(allChunks, chunkIndex, processedDocs) == Run(pages)
  {
    allChunks := [];
    chunkIndex := map[];
    processedDocs := 0;
    for i := 0 to |pages|
      invariant Progress(allChunks, chunkIndex, processedDocs) == Run(pages[..i])
    {
      assert pages[..i + 1][..i] == pages[..i];
      if pages[i].None? {
        continue;
      }
      var out := pages[i].value;
      allChunks := allChunks + out.chunks;
      chunkIndex := chunkIndex + out.chunkMap;
      processedDocs := processedDocs + 1;
    }
    assert pages[..|pages|] == pages;
  }

  /** Running over two runs of pages is running over each and combining:
      the chunk lists concatenate, the later maps overwrite the earlier
      ones, and the counts add up. */
  lemma {:induction false} RunAppend(p: seq<Option<PageOutput>>, q: seq<Option<PageOutput>>)
    ensures Run(p + q).allChunks == Run(p).allChunks + Run(q).allChunks
    ensures Run(p + q).chunkIndex == Run(p).chunkIndex + Run(q).chunkIndex
    ensures Run(p + q).processed == Run(p).processed + Run(q).processed
  {
    if q == [] {
      assert p + q == p;
      assert Run(p).chunkIndex + map[] == Run(p).chunkIndex;
    } else {
      var n := |q| - 1;
      assert (p + q)[..|p + q| - 1] == p + q[..n];
      assert (p + q)[|p + q| - 1] == q[n];
      RunAppend(p, q[..n]);
      if q[n].Some? {
        var m := q[n].value.chunkMap;
        assert Run(p).chunkIndex + Run(q[..n]).chunkIndex + m == Run(p).chunkIndex + (Run(q[..n]).chunkIndex + m);
      }
    }
  }

  /** A page whose fetch fails contributes nothing, wherever it comes. */
  lemma FailedPageIgnored(p: seq<Option<PageOutput>>, q: seq<Option<PageOutput>>)
    ensures Run(p + [None] + q) == Run(p + q)
  {
    var failed: seq<Option<PageOutput>> := [None];
    RunAppend(p + failed, q);
    RunAppend(p, failed);
    RunAppend(p, q);
    assert failed[..0] == [];
    assert Run(failed) == START;
    assert Run(p).chunkIndex + map[] == Run(p).chunkIndex;
  }

  /** Converted page `k` has `id` in its chunk map. */
  predicate HasId(pages: seq<Option<PageOutput>>, id: string, k: int)
  {
    0 <= k < |pages| && pages[k].Some? && id in pages[k].value.chunkMap
  }

  /** Page `k` is the last converted page whose map has `id`. */
  predicate LastWith(pages: seq<Option<PageOutput>>, id: string, k: int)
  {
    HasId(pages, id, k) && forall j :: k < j < |pages| ==> !HasId(pages, id, j)
  }

  /** An id is in the merged index exactly when some converted page's map has it. */
  lemma {:induction false} IndexHasId(pages: seq<Option<PageOutput>>, id: string)
    ensures id in Run(pages).chunkIndex <==> exists k :: HasId(pages, id, k)
  {
    if pages != [] {
      var n := |pages| - 1;
      var front := pages[..n];
      IndexHasId(front, id);
      assert Run(pages) == Step(Run(front), pages[n]);
      if id in Run(front).chunkIndex {
        var k :| HasId(front, id, k);
        assert HasId(pages, id, k);
      }
      if pages[n].Some? && id in pages[n].value.chunkMap {
        assert HasId(pages, id, n);
      }
      if exists k :: HasId(pages, id, k) {
        var k :| HasId(pages, id, k);
        if k < n {
          assert HasId(front, id, k);
        }
      }
    }
  }

  /** The merged index holds, for an id, the hash from the last converted
      page whose map has it. */
  lemma {:induction false} LastPageWins(pages: seq<Option<PageOutput>>, id: string, k: int)
    requires LastWith(pages, id, k)
    ensures id in Run(pages).chunkIndex && Run(pages).chunkIndex[id] == pages[k].value.chunkMap[id]
  {
    var n := |pages| - 1;
    var front := pages[..n];
    if k < n {
      assert !HasId(pages, id, n);
      forall j | k < j < n
        ensures !HasId(front, id, j)
      {
        assert !HasId(pages, id, j);
      }
      LastPageWins(front, id, k);
    }
  }

  /** No page is counted as processed exactly when every fetch failed, and
      then nothing has been collected. */
  lemma {:induction false} NothingProcessed(pages: seq<Option<PageOutput>>)
    ensures Run(pages).processed == 0 <==> forall k :: 0 <= k < |pages| ==> pages[k].None?
    ensures Run(pages).processed == 0 ==> Run(pages).allChunks == [] && Run(pages).chunkIndex == map[]
  {
    if pages != [] {
      var n := |pages| - 1;
      NothingProcessed(pages[..n]);
      assert forall k :: 0 <= k < n ==> pages[..n][k] == pages[k];
    }
  }

  // ----------------------------------------------------------------------
  // The diff against the previous index
  // ----------------------------------------------------------------------

  /** Ids of the new index whose hash is new or differs from the previous one. */
  function ChangedIds(index: map<string, string>, previous: map<string, string>): set<string>
  {
    set id | id in index && (id !in previous || previous[id] != index[id])
  }

  /** Ids of the previous index that the new one no longer has. */
  function RemovedIds(index: map<string, string>, previous: map<string, string>): set<string>
  {
    previous.Keys - index.Keys
  }

  /** Ids present in both with the same hash. */
  function UnchangedIds(index: map<string, string>, previous: map<string, string>): set<string>
  {
    set id | id in index && id in previous && previous[id] == index[id]
  }

  lemma SubsetSize<T>(a: set<T>, b: set<T>)
    requires a <= b
    ensures |a| <= |b|
  {
    assert b == a + (b - a);
  }

  /** The sizes of two disjoint sets add up. */
  lemma DisjointSize<T>(a: set<T>, b: set<T>, c: set<T>)
    requires c == a + b && a * b == {}
    ensures |c| == |a| + |b|
  {
  }

  /** The changed/new count. */
  function ChangedCount(index: map<string, string>, previous: map<string, string>): (r: nat)
    ensures r <= |index|
  {
    SubsetSize(ChangedIds(index, previous), index.Keys);
    |ChangedIds(index, previous)|
  }

  /** The removed count. */
  function RemovedCount(index: map<string, string>, previous: map<string, string>): (r: nat)
    ensures r <= |previous|
  {
    |RemovedIds(index, previous)|
  }

  /** Every id of the new index is changed or unchanged, and every id of the
      previous one is removed or kept. */
  lemma DiffAccounting(index: map<string, string>, previous: map<string, string>)
    ensures ChangedCount(index, previous) + |UnchangedIds(index, previous)| == |index|
    ensures RemovedCount(index, previous) + |previous.Keys * index.Keys| == |previous|
  {
    NewSplit(index, previous);
    OldSplit(index, previous);
  }

  lemma NewSplit(index: map<string, string>, previous: map<string, string>)
    ensures index.Keys == ChangedIds(index, previous) + UnchangedIds(index, previous)
    ensures ChangedIds(index, previous) * UnchangedIds(index, previous) == {}
    ensures ChangedCount(index, previous) + |UnchangedIds(index, previous)| == |index|
  {
    DisjointSize(ChangedIds(index, previous), UnchangedIds(index, previous), index.Keys);
  }

  lemma OldSplit(index: map<string, string>, previous: map<string, string>)
    ensures RemovedCount(index, previous) + |previous.Keys * index.Keys| == |previous|
  {
    DisjointSize(RemovedIds(index, previous), previous.Keys * index.Keys, previous.Keys);
  }

  /** Both counts are zero exactly when the index has not changed. */
  lemma NoChangeIff(index: map<string, string>, previous: map<string, string>)
    ensures ChangedCount(index, previous) == 0 && RemovedCount(index, previous) == 0 <==> index == previous
  {
    if ChangedCount(index, previous) == 0 && RemovedCount(index, previous) == 0 {
      assert ChangedIds(index, previous) == {};
      assert RemovedIds(index, previous) == {};
      forall id | id in index
        ensures id in previous && previous[id] == index[id]
      {
        assert id !in ChangedIds(index, previous);
      }
      forall id | id in previous
        ensures id in index
      {
        assert id !in RemovedIds(index, previous);
      }
    }
    if index == previous {
      assert ChangedIds(index, previous) == {};
      assert RemovedIds(index, previous) == {};
    }
  }

  /** `{A: h1, B: h2}` followed by `{A: h1, C: h3}`: C is new, B is removed
      and A, whose hash is unchanged, counts in neither. */
  lemma DiffExample(a: string, b: string, c: string, h1: string, h2: string, h3: string)
    requires a != b && b != c && a != c
    ensures var previous := map[a := h1, b := h2];
      var index := map[a := h1, c := h3];
      ChangedIds(index, previous) == {c} && RemovedIds(index, previous) == {b} &&
      ChangedCount(index, previous) == 1 && RemovedCount(index, previous) == 1
  {
    var previous := map[a := h1, b := h2];
    var index := map[a := h1, c := h3];
    assert ChangedIds(index, previous) == {c};
    assert RemovedIds(index, previous) == {b};
  }

  /** What `main` does once the pages are exported. */
  datatype Outcome =
    | NoDocuments                      // warns, writes nothing, returns 0
    | Exported(chunksFile: seq<Chunk>, stateFile: map<string, string>, total: nat, changed: nat, removed: nat)

  /** The end of `main`: with no processed page nothing is written; otherwise
      the chunks file and the new state are written and the counts reported
      against `previous` (the empty map when there was no state file). */
  function Finish(p: Progress, previous: map<string, string>): (r: Outcome)
    ensures r.NoDocuments? <==> p.processed == 0
    ensures r.Exported? ==> r.chunksFile == p.allChunks && r.stateFile == p.chunkIndex && r.total == |p.allChunks|
    ensures r.Exported? ==>
      r.changed == |ChangedIds(p.chunkIndex, previous)| && r.removed == |RemovedIds(p.chunkIndex, previous)|
  {
    if p.processed == 0 then NoDocuments
    else Exported(p.allChunks, p.chunkIndex, |p.allChunks|, ChangedCount(p.chunkIndex, previous),
                  RemovedCount(p.chunkIndex, previous))
  }

  /** The exit code of `main`: 1 when the configuration is rejected, else 0. */
  function ExitCode(config: Result<Config, ConfigError>): (code: int)
    ensures code == 1 <==> config.Err?
    ensures code == 0 || code == 1
  {
    if config.Err? then 1 else 0
  }

  /** The export and its outcome: when every fetch failed nothing is written
      however stale the previous state is. */
  lemma AllFetchesFailed(pages: seq<Option<PageOutput>>, previous: map<string, string>)
    requires forall k :: 0 <= k < |pages| ==> pages[k].None?
    ensures Finish(Run(pages), previous) == NoDocuments
  {
    NothingProcessed(pages);
  }
}
