/**
 The mount table of the daemon (`nexpackd/src/main.rs`): client threads commit mounts and
 unmounts, and one cleaner thread alternates a scan with rechecks of what the scan found.  The
 lock makes each of these one atomic step; a run is any interleaving of them.
 */
module Daemon {
  import opened ByteCodec

  type AppId = string
  type Time = nat

  datatype MountEntry = MountEntry(rootfs: string, refcount: nat, lastActive: Time)
  type Table = map<AppId, MountEntry>

  datatype UnmountReply = Unmounted | Decremented | NotMounted | UnmountFailed

  // ----- One step, on the table -----

  function Elapsed(now: Time, since: Time): nat { if now >= since then now - since else 0 }

  predicate IsIdle(t: Table, app: AppId, now: Time, timeout: nat) {
    app in t && t[app].refcount == 0 && Elapsed(now, t[app].lastActive) >= timeout
  }

  function AfterMount(t: Table, app: AppId, rootfs: string, now: Time): Table {
    var before := if app in t then t[app] else MountEntry(rootfs, 0, now);
    t[app := before.(refcount := before.refcount + 1, lastActive := now)]
  }

  // `released` is whether the overlay could be unmounted, when that is tried.
  function AfterUnmount(t: Table, app: AppId, now: Time, released: bool): Table {
    if app !in t then t
    else
      var count := if t[app].refcount > 0 then t[app].refcount - 1 else 0;
      if count == 0 && released then t - {app}
      else t[app := t[app].(refcount := count, lastActive := now)]
  }

  function ReplyToUnmount(t: Table, app: AppId, released: bool): UnmountReply {
    if app !in t then NotMounted
    else if t[app].refcount > 1 then Decremented
    else if released then Unmounted else UnmountFailed
  }

  function AfterRecheck(t: Table, app: AppId, now: Time, timeout: nat, released: bool): Table {
    if IsIdle(t, app, now, timeout) && released then t - {app} else t
  }

  class DaemonState {
    var mounts: Table
    const idleTimeout: nat

    constructor (idleTimeout: nat)
      ensures mounts == map[] && this.idleTimeout == idleTimeout
    {
      this.idleTimeout := idleTimeout;
      mounts := map[];
    }

    // The locked part of a mount request.
    method CommitMount(app: AppId, rootfs: string, now: Time)
      modifies this
      ensures mounts == AfterMount(old(mounts), app, rootfs, now)
    {
      if app !in mounts {
        mounts := mounts[app := MountEntry(rootfs, 0, now)];
      }
      mounts := mounts[app := mounts[app].(refcount := mounts[app].refcount + 1)];
      mounts := mounts[app := mounts[app].(lastActive := now)];
    }

    method HandleUnmount(app: AppId, now: Time, released: bool) returns (reply: UnmountReply)
      modifies this
      ensures mounts == AfterUnmount(old(mounts), app, now, released)
      ensures reply == ReplyToUnmount(old(mounts), app, released)
    {
      if app in mounts {
        var count := if mounts[app].refcount > 0 then mounts[app].refcount - 1 else 0;
        mounts := mounts[app := mounts[app].(refcount := count)];
        mounts := mounts[app := mounts[app].(lastActive := now)];
        if mounts[app].refcount == 0 {
          if !released {
            return UnmountFailed;
          }
          mounts := mounts - {app};
          return Unmounted;
        }
        return Decremented;
      }
      return NotMounted;
    }

    // The first phase of the cleaner: the idle apps, in the order the map is walked.
    method IdleScan(now: Time) returns (toRemove: seq<AppId>)
      ensures forall app :: app in toRemove <==> IsIdle(mounts, app, now, idleTimeout)
    {
      toRemove := [];
      var left := mounts.Keys;
      while left != {}
        invariant left <= mounts.Keys
        invariant forall app :: app in toRemove <==> app !in left && IsIdle(mounts, app, now, idleTimeout)
        decreases left
      {
        var app :| app in left;
        left := left - {app};
        if mounts[app].refcount == 0 && Elapsed(now, mounts[app].lastActive) >= idleTimeout {
          toRemove := toRemove + [app];
        }
      }
    }

    // The second phase, once for each app the scan found.
    method IdleRecheck(app: AppId, now: Time, released: bool)
      modifies this
      ensures mounts == AfterRecheck(old(mounts), app, now, idleTimeout, released)
    {
      if app in mounts {
        if mounts[app].refcount == 0 && Elapsed(now, mounts[app].lastActive) >= idleTimeout {
          if !released {
            return;
          }
          mounts := mounts - {app};
        }
      }
    }
  }

  // ----- Runs -----

  // The next atomic step and its moment.  The cleaner scans when it has nothing left to recheck,
  // and `order` is then what it goes on to recheck: the idle apps in some order, but the runs here
  // allow it any list, so what holds of them holds whatever the scan finds.
  datatype Step =
    | Mount(now: Time, app: AppId, rootfs: string)
    | Unmount(now: Time, app: AppId, released: bool)
    | Cleaner(now: Time, order: seq<AppId>, released: bool)

  datatype State = State(mounts: Table, pending: seq<AppId>)

  function Next(s: State, step: Step, timeout: nat): State {
    match step
    case Mount(now, app, rootfs) => s.(mounts := AfterMount(s.mounts, app, rootfs, now))
    case Unmount(now, app, released) => s.(mounts := AfterUnmount(s.mounts, app, now, released))
    case Cleaner(now, order, released) =>
      if s.pending == [] then s.(pending := order)
      else State(AfterRecheck(s.mounts, s.pending[0], now, timeout, released), s.pending[1..])
  }

  function Run(trace: seq<Step>, timeout: nat): State {
    if trace == [] then State(map[], [])
    else Next(Run(trace[..|trace| - 1], timeout), trace[|trace| - 1], timeout)
  }

  function Refcount(t: Table, app: AppId): nat { if app in t then t[app].refcount else 0 }

  predicate Touches(step: Step, app: AppId) { !step.Cleaner? && step.app == app }

  // An app's own history: true for a mount, false for an unmount, whatever became of it.
  function History(trace: seq<Step>, app: AppId): seq<bool> {
    if trace == [] then []
    else
      var last := trace[|trace| - 1];
      History(trace[..|trace| - 1], app) + if Touches(last, app) then [last.Mount?] else []
  }

  // ----- The refcount is the saturating balance of the history -----

  function Balance(h: seq<bool>): nat {
    if h == [] then 0
    else
      var b := Balance(h[..|h| - 1]);
      if h[|h| - 1] then b + 1 else if b > 0 then b - 1 else 0
  }

  lemma BalanceSnoc(h: seq<bool>, mount: bool)
    ensures Balance(h + [mount]) == if mount then Balance(h) + 1 else if Balance(h) > 0 then Balance(h) - 1 else 0
  {
    assert (h + [mount])[..|h|] == h;
  }

  lemma {:induction false} RefcountIsBalance(trace: seq<Step>, timeout: nat, app: AppId)
    ensures Refcount(Run(trace, timeout).mounts, app) == Balance(History(trace, app))
  {
    hide Balance;
    if trace == [] {
      assert Balance([]) == 0 by { BalanceOfNothing(); }
    } else {
      var init, last := trace[..|trace| - 1], trace[|trace| - 1];
      RefcountIsBalance(init, timeout, app);
      if Touches(last, app) {
        BalanceSnoc(History(init, app), last.Mount?);
      } else {
        assert History(init, app) + [] == History(init, app);
      }
    }
  }

  lemma BalanceOfNothing()
    ensures Balance([]) == 0
  {
  }

  // Mounts minus unmounts.
  function Net(h: seq<bool>): int {
    if h == [] then 0 else Net(h[..|h| - 1]) + if h[|h| - 1] then 1 else -1
  }

  // The balance is the greatest net count over the suffixes of the history, the empty one included.
  lemma {:induction false} BalanceIsGreatestSuffix(h: seq<bool>)
    ensures forall k | 0 <= k <= |h| :: Net(h[k..]) <= Balance(h)
    ensures exists k | 0 <= k <= |h| :: Net(h[k..]) == Balance(h)
  {
    assert Net(h[|h|..]) == 0;
    if h != [] {
      var init, last := h[..|h| - 1], h[|h| - 1];
      BalanceIsGreatestSuffix(init);
      forall k | 0 <= k < |h|
        ensures Net(h[k..]) == Net(init[k..]) + if last then 1 else -1
      {
        assert h[k..][..|h[k..]| - 1] == init[k..];
      }
      var best :| 0 <= best <= |init| && Net(init[best..]) == Balance(init);
      assert Net(h[best..]) == Balance(init) + if last then 1 else -1;
    }
  }

  // ----- What the cleaner removes -----

  // The clock never runs backwards from one locked section to the next.
  predicate Monotone(trace: seq<Step>) {
    forall i, j :: 0 <= i < j < |trace| ==> trace[i].now <= trace[j].now
  }

  // Every mount and unmount so far of an app in the table is at most as late as its last
  // activity, and that is not in the future.
  lemma {:induction false} LastActivity(trace: seq<Step>, timeout: nat, app: AppId)
    requires Monotone(trace) && app in Run(trace, timeout).mounts
    ensures trace != [] && Run(trace, timeout).mounts[app].lastActive <= trace[|trace| - 1].now
    ensures forall i | 0 <= i < |trace| && Touches(trace[i], app) ::
              trace[i].now <= Run(trace, timeout).mounts[app].lastActive
  {
    var init, last := trace[..|trace| - 1], trace[|trace| - 1];
    if app in Run(init, timeout).mounts {
      LastActivity(init, timeout, app);
      assert init[|init| - 1].now <= last.now;
      forall i | 0 <= i < |trace| && Touches(trace[i], app)
        ensures trace[i].now <= Run(trace, timeout).mounts[app].lastActive
      {
        if i < |init| {
          assert Touches(init[i], app) && init[i].now <= Run(init, timeout).mounts[app].lastActive;
        }
      }
    }
  }

  // Whenever a cleaner step takes an app out of the table, its balance is 0 and it was neither
  // mounted nor unmounted within the last `timeout`, whatever happened since the scan.
  lemma CleanerRemovesOnlyIdle(trace: seq<Step>, step: Step, timeout: nat, app: AppId)
    requires Monotone(trace + [step]) && step.Cleaner?
    requires app in Run(trace, timeout).mounts && app !in Run(trace + [step], timeout).mounts
    ensures Balance(History(trace, app)) == 0
    ensures forall i | 0 <= i < |trace| && Touches(trace[i], app) :: trace[i].now + timeout <= step.now
  {
    hide Balance, History;
    var all := trace + [step];
    assert all[..|all| - 1] == trace && all[|all| - 1] == step;
    forall i, j | 0 <= i < j < |trace|
      ensures trace[i].now <= trace[j].now
    {
      assert all[i].now <= all[j].now;
    }
    RefcountIsBalance(trace, timeout, app);
    LastActivity(trace, timeout, app);
    assert all[|trace| - 1].now <= all[|trace|].now;
  }

  // The recorded last activity is the moment of some mount or unmount of the app.
  lemma {:induction false} ActivityIsATouch(trace: seq<Step>, timeout: nat, app: AppId) returns (i: nat)
    requires app in Run(trace, timeout).mounts
    ensures i < |trace| && Touches(trace[i], app) && Run(trace, timeout).mounts[app].lastActive == trace[i].now
  {
    var init, last := trace[..|trace| - 1], trace[|trace| - 1];
    if Touches(last, app) {
      i := |trace| - 1;
    } else {
      i := ActivityIsATouch(init, timeout, app);
      assert trace[i] == init[i];
    }
  }

  // Nothing happened to the app for at least `timeout` before `now`.
  predicate Quiet(trace: seq<Step>, app: AppId, now: Time, timeout: nat) {
    forall i | 0 <= i < |trace| && Touches(trace[i], app) :: trace[i].now + timeout <= now
  }

  // What the scan lists and the recheck confirms, in terms of what happened: an app in the table
  // whose balance is 0 and that was neither mounted nor unmounted within the timeout.
  lemma IdleIff(trace: seq<Step>, now: Time, timeout: nat, app: AppId)
    requires Monotone(trace) && (trace != [] ==> trace[|trace| - 1].now <= now)
    ensures IsIdle(Run(trace, timeout).mounts, app, now, timeout) <==>
            && app in Run(trace, timeout).mounts
            && Balance(History(trace, app)) == 0
            && Quiet(trace, app, now, timeout)
  {
    hide Balance, History;
    RefcountIsBalance(trace, timeout, app);
    if app in Run(trace, timeout).mounts {
      LastActivity(trace, timeout, app);
      var i := ActivityIsATouch(trace, timeout, app);
    }
  }

  // A recheck removes the app exactly when its overlay is released and it is idle by that measure;
  // whatever it does, it leaves the other apps alone, and an app that stays as it was.
  lemma CleanerRemovesIff(trace: seq<Step>, step: Step, timeout: nat, app: AppId)
    requires Monotone(trace + [step]) && step.Cleaner?
    requires Run(trace, timeout).pending != [] && Run(trace, timeout).pending[0] == app
    requires app in Run(trace, timeout).mounts
    ensures app !in Run(trace + [step], timeout).mounts <==>
            step.released && Balance(History(trace, app)) == 0 && Quiet(trace, app, step.now, timeout)
    ensures Run(trace + [step], timeout).mounts in [Run(trace, timeout).mounts, Run(trace, timeout).mounts - {app}]
  {
    hide Balance, History;
    var all := trace + [step];
    assert all[..|all| - 1] == trace && all[|all| - 1] == step;
    forall i, j | 0 <= i < j < |trace|
      ensures trace[i].now <= trace[j].now
    {
      assert all[i].now <= all[j].now;
    }
    if trace != [] {
      assert all[|trace| - 1].now <= all[|trace|].now;
    }
    IdleIff(trace, step.now, timeout, app);
  }

  // ----- Replies and mounted directories -----

  // What a client is told: "decremented" exactly while mounts outnumber unmounts by more than
  // one, "unmounted" exactly when this request took the app out of the table.
  lemma ReplyMeaning(trace: seq<Step>, step: Step, timeout: nat)
    requires step.Unmount?
    ensures var before, after := Run(trace, timeout).mounts, Run(trace + [step], timeout).mounts;
            var reply := ReplyToUnmount(before, step.app, step.released);
            && (reply == NotMounted <==> step.app !in before)
            && (reply == Decremented <==> Balance(History(trace, step.app)) > 1)
            && (reply == Unmounted <==> step.app in before && step.app !in after)
            && (reply == UnmountFailed <==>
                  step.app in before && Balance(History(trace, step.app)) <= 1 && !step.released)
            && after - {step.app} == before - {step.app}
  {
    hide Balance, History;
    var all := trace + [step];
    assert all[..|all| - 1] == trace && all[|all| - 1] == step;
    RefcountIsBalance(trace, timeout, step.app);
  }

  // The directory recorded for an app is the one of the mount that put it into the table, however
  // often it was mounted since.
  lemma {:induction false} RootfsIsOfFirstMount(trace: seq<Step>, timeout: nat, app: AppId) returns (i: nat)
    requires app in Run(trace, timeout).mounts
    ensures i < |trace| && trace[i].Mount? && trace[i].app == app
    ensures Run(trace, timeout).mounts[app].rootfs == trace[i].rootfs
    ensures app !in Run(trace[..i], timeout).mounts
    ensures forall j | i < j <= |trace| :: app in Run(trace[..j], timeout).mounts
  {
    var init := trace[..|trace| - 1];
    assert trace[..|trace|] == trace;
    if app in Run(init, timeout).mounts {
      i := RootfsIsOfFirstMount(init, timeout, app);
      assert forall j | 0 <= j <= |init| :: init[..j] == trace[..j];
    } else {
      i := |trace| - 1;
    }
  }

  // ----- Entries that nobody uses -----

  // An entry with refcount 0 is left only by an unmount that failed and was the last thing
  // to happen to its app.
  lemma {:induction false} ZeroMeansFailedUnmount(trace: seq<Step>, timeout: nat, app: AppId) returns (i: nat)
    requires app in Run(trace, timeout).mounts && Run(trace, timeout).mounts[app].refcount == 0
    ensures i < |trace| && trace[i].Unmount? && trace[i].app == app && !trace[i].released
    ensures forall j | i < j < |trace| :: !Touches(trace[j], app)
  {
    var init, last := trace[..|trace| - 1], trace[|trace| - 1];
    if Touches(last, app) {
      i := |trace| - 1;
    } else {
      i := ZeroMeansFailedUnmount(init, timeout, app);
      forall j | i < j < |trace|
        ensures !Touches(trace[j], app)
      {
        if j < |init| {
          assert trace[j] == init[j];
        }
      }
    }
  }

  predicate EveryUnmountReleases(trace: seq<Step>) {
    forall i | 0 <= i < |trace| && trace[i].Unmount? :: trace[i].released
  }

  // If every overlay unmount of a client succeeds, an app is in the table exactly when its
  // balance is positive, so the cleaner never finds anything to remove.
  lemma NothingForTheCleaner(trace: seq<Step>, step: Step, timeout: nat, app: AppId)
    requires EveryUnmountReleases(trace) && step.Cleaner?
    ensures app in Run(trace, timeout).mounts <==> Balance(History(trace, app)) > 0
    ensures Run(trace + [step], timeout).mounts == Run(trace, timeout).mounts
  {
    hide Balance, History;
    var mounts := Run(trace, timeout).mounts;
    forall a | a in mounts
      ensures mounts[a].refcount > 0
    {
      if mounts[a].refcount == 0 {
        var i := ZeroMeansFailedUnmount(trace, timeout, a);
      }
    }
    RefcountIsBalance(trace, timeout, app);
    assert (trace + [step])[..|trace|] == trace;
  }
}
