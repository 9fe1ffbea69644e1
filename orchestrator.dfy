/**
  The mount orchestration of src/main.rs: joining mount definitions to
  pool definitions, requesting one mount per definition, collecting the
  sessions in configuration order, waiting for shutdown, and the process
  exit code. Loading the configuration, spawning the mount tasks and the
  shutdown signal are outside the model; their outcomes are inputs.
 */
module Orchestrator {
  import opened Wrappers

  datatype PoolDef = PoolDef(poolId: nat, path: string)

  datatype MountDef = MountDef(poolId: nat, mountPoint: string)

  /** What `load_and_mount_pools` returns on success. */
  datatype PoolConfig = PoolConfig(pools: seq<PoolDef>, mounts: seq<MountDef>)

  /** `fuser::MountOption`, the three the orchestrator uses. */
  datatype MountOption = FSName(name: string) | AutoUnmount | AllowRoot

  const FS_NAME: string := "rfs"

  /** The options of every mount, in the order they are passed. */
  const MOUNT_OPTIONS: seq<MountOption> := [FSName(FS_NAME), AutoUnmount, AllowRoot]

  /** One `spawn_mount2` request: a handler for `poolRoot`, mounted at `mountPoint` with `options`. */
  datatype MountRequest = MountRequest(mountPoint: string, poolRoot: string, options: seq<MountOption>)

  /** `std::io::Error`: an operating-system error, or one of kind `Other` with a message. */
  datatype IoError = OsError(code: int) | Other(message: string)

  /** `FuseError`, with the `MountConfig` variant that src/main.rs uses. */
  datatype FuseError = Io(cause: IoError) | MountConfig(message: string)

  /** An active kernel mount; dropping it unmounts. */
  datatype Session = Session(handle: nat)

  /** What awaiting one mount task yields: a session, a mount error, or a failure of the task itself. */
  datatype MountOutcome = Mounted(session: Session) | MountFailed(cause: IoError) | TaskFailed(reason: string)

  /** The I/O error a failed mount outcome is reported as. */
  function CauseOf(o: MountOutcome): IoError
    requires !o.Mounted?
  {
    match o
    case MountFailed(e) => e
    case TaskFailed(reason) => Other(reason)
  }

  /**
    `pools.into_iter().map(|p| (p.pool_id, p.path)).collect()`: the keys
    are exactly the pool ids.
   */
  function PoolMap(pools: seq<PoolDef>): (m: map<nat, string>)
    ensures forall k :: 0 <= k < |pools| ==> pools[k].poolId in m
    ensures forall id :: id in m ==> exists k :: 0 <= k < |pools| && pools[k].poolId == id
    decreases |pools|
  {
    if pools == [] then map[]
    else
      var init, last := pools[..|pools| - 1], pools[|pools| - 1];
      var m := PoolMap(init)[last.poolId := last.path];
      assert forall k :: 0 <= k < |init| ==> init[k] == pools[k];
      m
  }

  /** No later pool in `pools` has the id of pool `k`. */
  ghost predicate LastWithId(pools: seq<PoolDef>, k: nat)
    requires k < |pools|
  {
    forall j :: k < j < |pools| ==> pools[j].poolId != pools[k].poolId
  }

  /** Collecting into a map keeps the last insert: each id is bound to the path of the last pool with that id. */
  lemma {:induction false} PoolMapKeepsLast(pools: seq<PoolDef>, k: nat)
    requires k < |pools| && LastWithId(pools, k)
    ensures PoolMap(pools)[pools[k].poolId] == pools[k].path
    decreases |pools|
  {
    var init, last := pools[..|pools| - 1], pools[|pools| - 1];
    if k < |pools| - 1 {
      assert last.poolId != pools[k].poolId;
      assert init[k] == pools[k];
      assert LastWithId(init, k) by {
        forall j | k < j < |init|
          ensures init[j].poolId != init[k].poolId
        {
          assert init[j] == pools[j];
        }
      }
      PoolMapKeepsLast(init, k);
    }
  }

  /** The decimal digit for `d`. */
  function DigitChar(d: nat): (c: char)
    requires d < 10
    ensures '0' <= c <= '9' && (c as int) - ('0' as int) == d
  {
    (('0' as int) + d) as char
  }

  /** `format!("{}", n)`: the decimal representation of `n`. */
  function DecimalString(n: nat): (s: string)
    ensures |s| >= 1 && forall i :: 0 <= i < |s| ==> '0' <= s[i] <= '9'
    decreases n
  {
    if n < 10 then [DigitChar(n)] else DecimalString(n / 10) + [DigitChar(n % 10)]
  }

  /** The number a string of decimal digits denotes. */
  function DecimalValue(s: string): nat
    requires forall i :: 0 <= i < |s| ==> '0' <= s[i] <= '9'
    decreases |s|
  {
    if s == [] then 0 else DecimalValue(s[..|s| - 1]) * 10 + ((s[|s| - 1] as int) - ('0' as int))
  }

  /** The decimal representation names the number: reading it back gives `n`. */
  lemma {:induction false} DecimalRoundTrip(n: nat)
    ensures DecimalValue(DecimalString(n)) == n
    decreases n
  {
    if n >= 10 {
      DecimalRoundTrip(n / 10);
      var s := DecimalString(n);
      assert s[..|s| - 1] == DecimalString(n / 10);
    }
  }

  /** The configuration error of a mount whose pool is not defined. */
  function UnknownPoolMessage(m: MountDef): string
  {
    "Mount point '" + m.mountPoint + "' references non-existent pool_id '" + DecimalString(m.poolId) + "'"
  }

  ghost predicate OccursAt(s: string, part: string, i: nat)
  {
    i + |part| <= |s| && s[i..i + |part|] == part
  }

  ghost predicate Contains(s: string, part: string)
  {
    exists i: nat :: OccursAt(s, part, i)
  }

  /** The configuration error names both the mount point and the missing pool id. */
  lemma UnknownPoolMessageNames(m: MountDef)
    ensures Contains(UnknownPoolMessage(m), m.mountPoint)
    ensures Contains(UnknownPoolMessage(m), DecimalString(m.poolId))
  {
    var prefix := "Mount point '";
    var middle := "' references non-existent pool_id '";
    var s := UnknownPoolMessage(m);
    assert s == prefix + m.mountPoint + middle + DecimalString(m.poolId) + "'";
    assert OccursAt(s, m.mountPoint, |prefix|);
    assert OccursAt(s, DecimalString(m.poolId), |prefix| + |m.mountPoint| + |middle|);
  }

  /** The request made for a mount whose pool root is `root`. */
  function RequestFor(m: MountDef, root: string): (q: MountRequest)
    ensures q.mountPoint == m.mountPoint && q.poolRoot == root
    ensures q.options == [FSName("rfs"), AutoUnmount, AllowRoot]
  {
    MountRequest(m.mountPoint, root, MOUNT_OPTIONS)
  }

  /**
    The first loop of `run`: resolves each mount's pool in configuration
    order and requests its mount, stopping at the first unknown pool id.
    `requests` are the mounts requested before it stopped.
   */
  method SpawnMounts(mounts: seq<MountDef>, poolMap: map<nat, string>)
    returns (requests: seq<MountRequest>, failure: Option<FuseError>)
    ensures |requests| <= |mounts|
    ensures forall k :: 0 <= k < |requests| ==>
              mounts[k].poolId in poolMap && requests[k] == RequestFor(mounts[k], poolMap[mounts[k].poolId])
    ensures failure.None? <==> forall k :: 0 <= k < |mounts| ==> mounts[k].poolId in poolMap
    ensures failure.None? ==> |requests| == |mounts|
    ensures failure.Some? ==> && |requests| < |mounts| && mounts[|requests|].poolId !in poolMap
                              && failure.value == MountConfig(UnknownPoolMessage(mounts[|requests|]))
  {
    requests := [];
    for i := 0 to |mounts|
      invariant |requests| == i
      invariant forall k :: 0 <= k < i ==>
                  mounts[k].poolId in poolMap && requests[k] == RequestFor(mounts[k], poolMap[mounts[k].poolId])
    {
      var m := mounts[i];
      if m.poolId !in poolMap {
        return requests, Some(MountConfig(UnknownPoolMessage(m)));
      }
      requests := requests + [RequestFor(m, poolMap[m.poolId])];
    }
    failure := None;
  }

  /**
    The second loop of `run`: awaits the mount tasks in configuration
    order, keeping each session, and stops at the first failure, which
    becomes an `Io` error.
   */
  method AwaitSessions(outcomes: seq<MountOutcome>) returns (sessions: seq<Session>, failure: Option<FuseError>)
    ensures |sessions| <= |outcomes|
    ensures forall k :: 0 <= k < |sessions| ==> outcomes[k].Mounted? && sessions[k] == outcomes[k].session
    ensures failure.None? <==> forall k :: 0 <= k < |outcomes| ==> outcomes[k].Mounted?
    ensures failure.None? ==> |sessions| == |outcomes|
    ensures failure.Some? ==> && |sessions| < |outcomes| && !outcomes[|sessions|].Mounted?
                              && failure.value == Io(CauseOf(outcomes[|sessions|]))
  {
    sessions := [];
    for i := 0 to |outcomes|
      invariant |sessions| == i
      invariant forall k :: 0 <= k < i ==> outcomes[k].Mounted? && sessions[k] == outcomes[k].session
    {
      match outcomes[i] {
        case Mounted(session) =>
          sessions := sessions + [session];
        case MountFailed(e) =>
          return sessions, Some(Io(e));
        case TaskFailed(reason) =>
          return sessions, Some(Io(Other(reason)));
      }
    }
    failure := None;
  }

  /** Every mount's pool id is defined. */
  ghost predicate AllPoolsKnown(config: PoolConfig)
  {
    var poolMap := PoolMap(config.pools);
    forall k :: 0 <= k < |config.mounts| ==> config.mounts[k].poolId in poolMap
  }

  /** When `run` returns `Ok`. */
  ghost predicate RunSucceeds(load: Result<PoolConfig, IoError>, outcomes: seq<MountOutcome>, shutdown: Result<(), IoError>)
  {
    && load.Success?
    && (|| load.value.mounts == []
        || (&& AllPoolsKnown(load.value)
            && (forall k :: 0 <= k < |outcomes| ==> outcomes[k].Mounted?)
            && shutdown.Success?))
  }

  /**
    `run`: `load` is what loading the pool configuration gives, `outcomes`
    what awaiting each mount's task gives, `shutdown` what waiting for the
    shutdown signal gives. `requested` are the mounts requested and
    `released` the sessions dropped (so unmounted) when `run` returns.
   */
  method Run(load: Result<PoolConfig, IoError>, outcomes: seq<MountOutcome>, shutdown: Result<(), IoError>)
    returns (r: Result<(), FuseError>, requested: seq<MountRequest>, released: seq<Session>)
    requires load.Success? ==> |outcomes| == |load.value.mounts|
    ensures r.Success? <==> RunSucceeds(load, outcomes, shutdown)
    ensures load.Failure? ==> r == Failure(Io(load.error)) && requested == [] && released == []
    ensures load.Success? && load.value.mounts == [] ==> r == Success(()) && requested == [] && released == []
    ensures load.Success? ==>
              var mounts, poolMap := load.value.mounts, PoolMap(load.value.pools);
              && |requested| <= |mounts|
              && (forall k :: 0 <= k < |requested| ==>
                    mounts[k].poolId in poolMap && requested[k] == RequestFor(mounts[k], poolMap[mounts[k].poolId]))
    ensures load.Success? && !AllPoolsKnown(load.value) ==>
              var mounts := load.value.mounts;
              && |requested| < |mounts| && mounts[|requested|].poolId !in PoolMap(load.value.pools)
              && r == Failure(MountConfig(UnknownPoolMessage(mounts[|requested|])))
              && released == []
    ensures load.Success? && load.value.mounts != [] && AllPoolsKnown(load.value) ==>
              && |requested| == |load.value.mounts|
              && |released| <= |outcomes|
              && (forall k :: 0 <= k < |released| ==> outcomes[k].Mounted? && released[k] == outcomes[k].session)
              && if forall k :: 0 <= k < |outcomes| ==> outcomes[k].Mounted? then
                   && |released| == |outcomes|
                   && r == (if shutdown.Success? then Success(()) else Failure(Io(shutdown.error)))
                 else
                   && |released| < |outcomes| && !outcomes[|released|].Mounted?
                   && r == Failure(Io(CauseOf(outcomes[|released|])))
  {
    requested, released := [], [];
    if load.Failure? {
      return Failure(Io(load.error)), requested, released;
    }
    var config := load.value;
    if config.mounts == [] {
      return Success(()), requested, released;
    }
    var poolMap := PoolMap(config.pools);
    var spawnFailure;
    requested, spawnFailure := SpawnMounts(config.mounts, poolMap);
    if spawnFailure.Some? {
      return Failure(spawnFailure.value), requested, released;
    }
    var awaitFailure;
    released, awaitFailure := AwaitSessions(outcomes);
    if awaitFailure.Some? {
      return Failure(awaitFailure.value), requested, released;
    }
    match shutdown {
      case Failure(e) => r := Failure(Io(e));
      case Success(_) => r := Success(());
    }
  }

  /**
    `main`: exits with 1 when the process configuration does not load or
    `run` fails, and with 0 otherwise.
   */
  method RunProcess(config: Result<(), string>, load: Result<PoolConfig, IoError>,
                    outcomes: seq<MountOutcome>, shutdown: Result<(), IoError>)
    returns (code: int)
    requires load.Success? ==> |outcomes| == |load.value.mounts|
    ensures code == 0 || code == 1
    ensures code == 0 <==> config.Success? && RunSucceeds(load, outcomes, shutdown)
  {
    if config.Failure? {
      return 1;
    }
    var r, _, _ := Run(load, outcomes, shutdown);
    code := if r.Success? then 0 else 1;
  }

  /** No mounts configured: `run` succeeds whatever the other inputs are. */
  lemma NoMountsSucceeds(pools: seq<PoolDef>, shutdown: Result<(), IoError>)
    ensures RunSucceeds(Success(PoolConfig(pools, [])), [], shutdown)
  {
  }

  /**
    A mount of pool 7 when only pool 3 is defined: `run` fails, and its
    message names the mount point and the id 7.
   */
  lemma UnknownPoolExample(root: string, mountPoint: string, outcome: MountOutcome, shutdown: Result<(), IoError>)
    ensures !RunSucceeds(Success(PoolConfig([PoolDef(3, root)], [MountDef(7, mountPoint)])), [outcome], shutdown)
    ensures Contains(UnknownPoolMessage(MountDef(7, mountPoint)), mountPoint)
    ensures Contains(UnknownPoolMessage(MountDef(7, mountPoint)), "7")
  {
    var pm := PoolMap([PoolDef(3, root)]);
    var config := PoolConfig([PoolDef(3, root)], [MountDef(7, mountPoint)]);
    assert 7 !in pm;
    assert config.mounts[0].poolId == 7;
    assert !AllPoolsKnown(PoolConfig([PoolDef(3, root)], [MountDef(7, mountPoint)]));
    UnknownPoolMessageNames(MountDef(7, mountPoint));
    assert DecimalString(7) == "7";
  }
}
