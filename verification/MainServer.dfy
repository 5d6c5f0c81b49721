/** The handlers of the main process as they run: src/main-worker-cmd.c, src/main-auth.c,
    src/main-proc.c and the parts of src/tun.c and src/main-sec-mod-cmd.c they call. */
module MainServer {
  import opened Options
  import opened LeaseBook
  import opened ConfigStore
  import opened MainProcess

  lemma CountOne(others: set<nat>, ahead: set<nat>, q: nat)
    requires q in ahead
    ensures |others - (ahead - {q})| == |others - ahead| + if q in others then 1 else 0
  {
    if q in others {
      assert others - (ahead - {q}) == (others - ahead) + {q};
    } else {
      assert others - (ahead - {q}) == others - ahead;
    }
  }

  class Server {
    var procs: map<nat, Session>
    var next: nat
    const leases: LeaseDb
    const configs: ConfigDb
    ghost var notes: seq<Note>

    ghost function Contents(): Main
      reads this, leases, configs
    {
      Main(procs, next, leases.Contents(), configs.Contents(), notes)
    }

    /** The main process at start, with `n` virtual hosts besides the default. */
    constructor (n: nat)
      ensures fresh(leases) && fresh(configs)
      ensures Contents() == Begin(n) && Inv(Contents())
    {
      leases := new LeaseDb();
      configs := new ConfigDb(n);
      procs, next, notes := map[], 0, [];
      new;
      BeginInv(n);
    }

    /** new_proc. */
    method NewProc() returns (p: nat)
      requires Inv(Contents())
      modifies this
      ensures p == old(next) && Contents() == Next(old(Contents()), Connect) && Inv(Contents())
    {
      hide Inv, Sound;
      NextKeeps(Contents(), Connect);
      p := next;
      procs := procs[p := Session(Inactive, "", 0, None, false, false, false)];
      next := next + 1;
    }

    /** kill_proc. */
    method KillProc(p: nat)
      requires Inv(Contents()) && p in procs
      modifies this
      ensures Contents() == Next(old(Contents()), Kill(p)) && Inv(Contents())
    {
      hide Inv, Sound;
      NextKeeps(Contents(), Kill(p));
      procs := procs[p := procs[p].(killed := true)];
    }

    /** A worker ends, or sends what it must not. */
    method Terminate(p: nat)
      requires Inv(Contents()) && p in procs
      modifies this, leases, configs
      ensures Contents() == Next(old(Contents()), Disconnect(p)) && Inv(Contents())
    {
      hide Inv, Sound;
      NextKeeps(Contents(), Disconnect(p));
      RemoveProc(p);
    }

    /** reload_sig_watcher_cb. */
    method ReloadSignal(added: nat)
      requires Inv(Contents())
      modifies configs
      ensures Contents() == Next(old(Contents()), ReloadConfig(added)) && Inv(Contents())
    {
      hide Inv, Sound;
      NextKeeps(Contents(), ReloadConfig(added));
      configs.ReloadCfgFile(added);
    }

    /** The attic in perform_maintenance. */
    method Maintain()
      requires Inv(Contents())
      modifies configs
      ensures Contents() == Next(old(Contents()), SweepAttic) && Inv(Contents())
    {
      hide InOrder, WellReplied, Regular;
      NextKeeps(Contents(), SweepAttic);
      configs.ClearOldConfigs();
    }

    /** remove_proc. */
    method RemoveProc(p: nat)
      modifies this, leases, configs
      ensures Contents() == Remove(old(Contents()), p)
    {
      procs := procs - {p};
      leases.RemoveIpLeases(p);
      configs.Unuse(p);
    }

    /** session_open. */
    method OpenSession(p: nat, a: Answer) returns (ok: bool)
      requires p in procs && Sound(Contents().store)
      modifies this, configs
      ensures (Contents(), ok) == SessionOpen(old(Contents()), p, a)
    {
      if a.NoAnswer? || a.Rejected? {
        return false;
      }
      notes := notes + [SecModAccepted(p)];
      if a.NoUsername? {
        return false;
      }
      procs := procs[p := procs[p].(username := a.username)];
      if a.NoConfig? {
        return false;
      }
      procs := procs[p := procs[p].(limit := a.limit)];
      assert procs == old(procs)[p := old(procs)[p].(username := a.username, limit := a.limit)];
      configs.Use(p, a.vhost);
      return a.roaming;
    }

    /** handle_auth_cookie_req. */
    method HandleAuthCookieReq(p: nat, e: Cookie) returns (ok: bool)
      requires p in procs && Sound(Contents().store) && Found(Contents(), e) && e.previous != Some(p)
      modifies this, leases, configs
      ensures (Contents(), ok) == AuthCookieReq(old(Contents()), p, e)
    {
      if !e.valid {
        return false;
      }
      ok := OpenSession(p, e.answer);
      if !ok {
        return;
      }
      if e.previous.Some? {
        var o := e.previous.value;
        if procs[p].username != procs[o].username {
          return false;
        }
        leases.StealIpLeases(o, p);
        procs := procs[o := procs[o].(killed := true)];
      }
      if !e.hashed {
        return false;
      }
      procs := procs[p := procs[p].(sid := Some(e.sid))];
      return true;
    }

    /** check_multiple_users: count the sessions, and stop at one too many. */
    method CheckMultipleUsers(p: nat) returns (ok: bool)
      requires p in procs
      ensures ok <==> WithinLimit(Contents(), p)
    {
      var max := procs[p].limit;
      if max == 0 {
        return true;
      }
      var entries: nat := 1;
      var ahead := procs.Keys;
      ghost var others := Others(Contents(), p);
      assert others - ahead == {};
      while ahead != {}
        invariant ahead <= procs.Keys && entries == 1 + |others - ahead| && entries <= max
        decreases |ahead|
      {
        var q :| q in ahead;
        CountOne(others, ahead, q);
        ahead := ahead - {q};
        if q != p && !procs[q].killed && procs[p].username == procs[q].username {
          entries := entries + 1;
          if entries > max {
            SubsetSize(others - ahead, others);
            return false;
          }
        }
      }
      assert others - {} == others;
      return true;
    }

    /** open_tun. */
    method OpenTunDevice(p: nat, e: Cookie) returns (ok: bool)
      requires p in procs
      modifies this, leases
      ensures (Contents(), ok) == OpenTun(old(Contents()), p, e)
    {
      ok := leases.GetIpLeases(p, e.request);
      if !ok || !e.tunOpens || !e.tunNamed {
        return false;
      }
      procs := procs[p := procs[p].(tunName := true)];
      notes := notes + [TunNamed(p)];
      if Slot(p, V4) in leases.held && !e.ipv4Set {
        return false;
      }
      if !e.ipv6Set {
        leases.Free(Slot(p, V6));
      }
      return Slot(p, V4) in leases.held || Slot(p, V6) in leases.held;
    }

    /** accept_user. */
    method Accept(p: nat, e: Cookie) returns (verdict: Verdict)
      requires p in procs
      modifies this, leases
      ensures (Contents(), verdict) == AcceptUser(old(Contents()), p, e)
    {
      var ok := CheckMultipleUsers(p);
      if !ok {
        return Stop;
      }
      notes := notes + [Allowed(p)];
      ok := OpenTunDevice(p, e);
      if !ok || e.script.ScriptFailed? {
        return Stop;
      }
      if e.script.ScriptForked? {
        notes := notes + [ScriptStarted(p)];
        procs := procs[p := procs[p].(script := true)];
        return Wait;
      }
      return Go;
    }

    /** handle_script_exit. */
    method HandleScriptExit(p: nat, code: bool, sent: bool, routed: bool) returns (ok: bool)
      requires p in procs
      modifies this
      ensures (Contents(), ok) == ScriptExit(old(Contents()), p, code, sent, routed)
    {
      notes := notes + [Replied(p, code && procs[p].tunName)];
      if !sent {
        return false;
      }
      if code {
        if !routed {
          return false;
        }
        procs := procs[p := procs[p].(status := Completed)];
      }
      return true;
    }

    /** handle_cookie_auth_res. */
    method HandleCookieAuthRes(p: nat, result: bool, e: Cookie) returns (ok: bool)
      requires p in procs
      modifies this, leases
      ensures (Contents(), ok) == CookieAuthRes(old(Contents()), p, result, e)
    {
      var verdict := Stop;
      if result {
        verdict := Accept(p, e);
      }
      procs := procs[p := procs[p].(status := if verdict.Go? then Completed else Failed)];
      if verdict.Wait? {
        return true;
      }
      ok := HandleScriptExit(p, verdict.Go?, e.sent, e.routed);
      if !ok {
        procs := procs[p := procs[p].(status := Failed)];
      }
    }

    /** The AUTH_COOKIE_REQ command of a worker. */
    method HandleCookieCommand(p: nat, e: Cookie)
      requires p in procs && Found(Contents(), e) && Inv(Contents())
      modifies this, leases, configs
      ensures Contents() == Next(old(Contents()), CookieRequest(p, e)) && Inv(Contents())
    {
      hide Inv, Sound, AuthCookieReq, CookieAuthRes, Remove;
      NextKeeps(Contents(), CookieRequest(p, e));
      InvLoose(Contents(), p);
      if procs[p].status != Inactive {
        RemoveProc(p);
        return;
      }
      assert Regular(Contents(), p);
      var ok := HandleAuthCookieReq(p, e);
      ok := HandleCookieAuthRes(p, ok, e);
      if !ok {
        RemoveProc(p);
      }
    }

    /** script_child_watcher_cb: the connect script of a session has ended. */
    method ScriptChildWatcher(p: nat, code: bool, sent: bool, routed: bool)
      requires p in procs && procs[p].script && Inv(Contents())
      modifies this, leases, configs
      ensures Contents() == Next(old(Contents()), ScriptEnds(p, code, sent, routed)) && Inv(Contents())
    {
      hide Inv, Sound, ScriptExit, Remove;
      NextKeeps(Contents(), ScriptEnds(p, code, sent, routed));
      notes := notes + [ScriptExited(p, code)];
      procs := procs[p := procs[p].(script := false)];
      var ok := HandleScriptExit(p, code, sent, routed);
      if !ok {
        RemoveProc(p);
      }
    }
  }
}
