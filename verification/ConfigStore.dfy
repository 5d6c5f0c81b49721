/** The configurations of the virtual hosts across reloads: src/config.c keeps an old one in an attic
    as long as a session refers to it. */
module ConfigStore {
  /** The usage counts of the configurations that exist; the one in use for every virtual host, the
      default host first; the archived ones; and the one each session counts in. */
  datatype Store = Store(counts: map<nat, nat>, current: seq<nat>, attic: set<nat>, users: map<nat, nat>, next: nat)

  // ----- what one call does

  /** cfg_new for virtual host `v`. */
  function New(c: Store, v: nat): Store
    requires v <= |c.current|
  {
    c.(counts := c.counts[c.next := 0], current := c.current[..v] + [c.next] + if v < |c.current| then c.current[v + 1..] else [],
       next := c.next + 1)
  }

  /** What adding `n` virtual hosts leaves. */
  function AddHosts(c: Store, n: nat): Store {
    if n == 0 then c else
    var d := AddHosts(c, n - 1);
    New(d, |d.current|)
  }

  /** At start: the default virtual host and `n` from the configuration file. */
  function Start(n: nat): Store {
    AddHosts(Store(map[], [], {}, map[], 0), n + 1)
  }

  /** find_vhost: an unknown name stands for the default virtual host. */
  function Vhost(c: Store, v: nat): nat {
    if v < |c.current| then v else 0
  }

  /** Session `p` starts counting in the configuration of its virtual host. */
  function Acquire(c: Store, p: nat, v: nat): Store
    requires c.current != [] && c.current[Vhost(c, v)] in c.counts
  {
    var k := c.current[Vhost(c, v)];
    c.(counts := c.counts[k := c.counts[k] + 1], users := c.users[p := k])
  }

  /** Session `p` goes. */
  function Leave(c: Store, p: nat): Store {
    if p !in c.users then c
    else
      var k := c.users[p];
      c.(counts := if k in c.counts && c.counts[k] > 0 then c.counts[k := c.counts[k] - 1] else c.counts,
         users := c.users - {p})
  }

  /** What is left when the configurations of the first `n` virtual hosts have been put away: those
      that count no session are gone, the others archived. */
  function Archive(c: Store, n: nat): (r: Store)
    requires n <= |c.current|
    ensures r.current == c.current && r.users == c.users && r.next == c.next
  {
    if n == 0 then c else
    var d, k := Archive(c, n - 1), c.current[n - 1];
    if k in d.counts && d.counts[k] == 0 then d.(counts := d.counts - {k}) else d.(attic := d.attic + {k})
  }

  /** New configurations for the first `n` virtual hosts. */
  function Renew(c: Store, n: nat): (r: Store)
    requires n <= |c.current|
    ensures |r.current| == |c.current|
  {
    if n == 0 then c else New(Renew(c, n - 1), n - 1)
  }

  /** A reload that finds `added` further virtual hosts in the file. */
  function Reload(c: Store, added: nat): Store {
    AddHosts(Renew(Archive(c, |c.current|), |c.current|), added)
  }

  predicate Idle(c: Store, k: nat) {
    k in c.counts && c.counts[k] == 0
  }

  function Sweep(c: Store): Store {
    var idle := set k | k in c.attic && Idle(c, k);
    c.(counts := c.counts - idle, attic := c.attic - idle)
  }

  /** The virtual hosts' configurations, as the program updates them. */
  class ConfigDb {
    var counts: map<nat, nat>
    var current: seq<nat>
    var attic: set<nat>
    var users: map<nat, nat>
    var next: nat

    ghost function Contents(): Store
      reads this
    {
      Store(counts, current, attic, users, next)
    }

    /** The default virtual host and `n` from the configuration file. */
    constructor (n: nat)
      ensures Contents() == Start(n)
    {
      counts, current, attic, users, next := map[], [], {}, map[], 0;
      new;
      for i := 0 to n + 1
        invariant Contents() == AddHosts(Store(map[], [], {}, map[], 0), i)
      {
        CfgNew(|current|);
      }
    }

    /** The end of apply_default_config. */
    method Use(p: nat, v: nat)
      requires current != [] && current[Vhost(Contents(), v)] in counts
      modifies this
      ensures Contents() == Acquire(old(Contents()), p, v)
    {
      users := users[p := current[if v < |current| then v else 0]];
      counts := counts[users[p] := counts[users[p]] + 1];
    }

    /** The count in remove_proc. */
    method Unuse(p: nat)
      modifies this
      ensures Contents() == Leave(old(Contents()), p)
    {
      if p in users {
        if users[p] in counts && counts[users[p]] > 0 {
          counts := counts[users[p] := counts[users[p]] - 1];
        }
        users := users - {p};
      }
    }

    method CfgNew(v: nat)
      requires v <= |current|
      modifies this
      ensures Contents() == New(old(Contents()), v)
    {
      counts := counts[next := 0];
      if v < |current| {
        current := current[..v] + [next] + current[v + 1..];
      } else {
        current := current + [next];
        assert current == old(current)[..v] + [next] + [];
      }
      next := next + 1;
    }

    /** archive_cfg. */
    method ArchiveCfg()
      modifies this
      ensures Contents() == Archive(old(Contents()), |old(current)|)
    {
      for n := 0 to |current|
        invariant Contents() == Archive(old(Contents()), n)
      {
        var k := current[n];
        if k in counts && counts[k] == 0 {
          counts := counts - {k};
        } else {
          attic := attic + {k};
        }
      }
    }

    /** reload_cfg_file in the main process. */
    method ReloadCfgFile(added: nat)
      modifies this
      ensures Contents() == Reload(old(Contents()), added)
    {
      ArchiveCfg();
      ghost var archived := Contents();
      for n := 0 to |current|
        invariant Contents() == Renew(archived, n) && |current| == |archived.current|
      {
        CfgNew(n);
      }
      ghost var renewed := Contents();
      for n := 0 to added
        invariant Contents() == AddHosts(renewed, n)
      {
        CfgNew(|current|);
      }
    }

    /** clear_old_configs. */
    method ClearOldConfigs()
      requires attic <= counts.Keys
      modifies this
      ensures Contents() == Sweep(old(Contents()))
    {
      var ahead := attic;
      while ahead != {}
        invariant ahead <= attic <= counts.Keys && current == old(current) && users == old(users) && next == old(next)
        invariant forall k | k in old(attic) && k !in attic :: Idle(old(Contents()), k)
        invariant forall k | k in attic :: k in old(attic) && (k in ahead || !Idle(old(Contents()), k))
        invariant counts == old(counts) - (old(attic) - attic)
        decreases |ahead|
      {
        var k :| k in ahead;
        ahead := ahead - {k};
        if counts[k] == 0 {
          attic := attic - {k};
          counts := counts - {k};
        }
      }
      assert old(attic) - attic == set k | k in old(attic) && Idle(old(Contents()), k);
    }
  }

  // ----- what every step keeps

  /** The sessions that count in `k`. */
  function Users(users: map<nat, nat>, k: nat): set<nat> {
    set p | p in users && users[p] == k
  }

  /** Every count is the number of sessions that count there, and what they count in exists. */
  ghost predicate Counted(c: Store) {
    && (forall k | k in c.counts :: c.counts[k] == |Users(c.users, k)|)
    && (forall p | p in c.users :: c.users[p] in c.counts)
  }

  /** The configurations that exist are the archived ones and those in use, `live`, each once. */
  ghost predicate Kept(c: Store, live: seq<nat>) {
    && (forall i, j | 0 <= i < j < |live| :: live[i] != live[j])
    && (forall i | 0 <= i < |live| :: live[i] in c.counts && live[i] !in c.attic)
    && (forall k | k in c.counts :: k < c.next && (k in c.attic || k in live))
    && c.attic <= c.counts.Keys
  }

  ghost predicate Sound(c: Store) {
    c.current != [] && Counted(c) && Kept(c, c.current)
  }

  lemma UsersAdded(users: map<nat, nat>, p: nat, k: nat, j: nat)
    requires p !in users
    ensures |Users(users[p := k], j)| == |Users(users, j)| + if j == k then 1 else 0
  {
    if j == k {
      assert Users(users[p := k], j) == Users(users, j) + {p};
    } else {
      assert Users(users[p := k], j) == Users(users, j);
    }
  }

  lemma UsersRemoved(users: map<nat, nat>, p: nat, j: nat)
    requires p in users
    ensures |Users(users - {p}, j)| == |Users(users, j)| - if j == users[p] then 1 else 0
  {
    if j == users[p] {
      assert Users(users, j) == Users(users - {p}, j) + {p};
    } else {
      assert Users(users, j) == Users(users - {p}, j);
    }
  }

  lemma NoUsers(users: map<nat, nat>, k: nat)
    ensures Users(users, k) == {} <==> |Users(users, k)| == 0
    ensures Users(users, k) == {} <==> forall p | p in users :: users[p] != k
  {
    if p :| p in users && users[p] == k {
      assert p in Users(users, k);
    }
  }

  /** A session that counts nowhere yet starts to. */
  lemma AcquireKeeps(c: Store, p: nat, v: nat)
    requires Sound(c) && p !in c.users
    ensures Sound(Acquire(c, p, v))
  {
    hide Users;
    var k := c.current[Vhost(c, v)];
    forall j ensures |Users(c.users[p := k], j)| == |Users(c.users, j)| + if j == k then 1 else 0 {
      UsersAdded(c.users, p, k, j);
    }
  }

  lemma LeaveKeeps(c: Store, p: nat)
    requires Sound(c)
    ensures Sound(Leave(c, p)) && p !in Leave(c, p).users
  {
    hide Users;
    if p in c.users {
      forall j ensures |Users(c.users - {p}, j)| == |Users(c.users, j)| - if j == c.users[p] then 1 else 0 {
        UsersRemoved(c.users, p, j);
      }
    }
  }

  /** A configuration nobody counts in goes: nobody is left with one that is gone. */
  lemma FreeCounted(c: Store, d: Store, idle: set<nat>)
    requires Counted(c) && forall k | k in idle :: Idle(c, k)
    requires d.counts == c.counts - idle && d.users == c.users
    ensures Counted(d)
  {
    forall p | p in d.users ensures d.users[p] in d.counts {
      NoUsers(c.users, c.users[p]);
    }
  }

  lemma {:induction false} ArchiveKeeps(c: Store, n: nat)
    requires Counted(c) && Kept(c, c.current) && n <= |c.current|
    ensures Counted(Archive(c, n)) && Kept(Archive(c, n), c.current[n..])
  {
    hide Counted, Kept;
    if n == 0 {
      assert c.current[0..] == c.current;
    } else {
      ArchiveKeeps(c, n - 1);
      var d, e := Archive(c, n - 1), Archive(c, n);
      var k := c.current[n - 1];
      assert c.current[n - 1..] == [k] + c.current[n..];
      assert d.counts - {} == d.counts;
      FreeCounted(d, e, if Idle(d, k) then {k} else {});
      ArchiveOneKept(d, e, k, c.current[n..]);
    }
  }

  lemma ArchiveOneKept(d: Store, e: Store, k: nat, rest: seq<nat>)
    requires Kept(d, [k] + rest)
    requires e == if Idle(d, k) then d.(counts := d.counts - {k}) else d.(attic := d.attic + {k})
    ensures Kept(e, rest)
  {
    var live := [k] + rest;
    forall i | 0 <= i < |rest| ensures rest[i] == live[i + 1] && rest[i] != live[0] {
    }
  }

  lemma NewKeeps(c: Store, v: nat, live: seq<nat>)
    requires Counted(c) && Kept(c, live) && v <= |c.current|
    ensures Counted(New(c, v)) && Kept(New(c, v), live + [c.next])
  {
    hide Users;
    NoUsers(c.users, c.next);
  }

  lemma {:induction false} RenewKeeps(c: Store, n: nat)
    requires Counted(c) && Kept(c, []) && n <= |c.current|
    ensures Counted(Renew(c, n)) && Kept(Renew(c, n), Renew(c, n).current[..n])
  {
    if n > 0 {
      RenewKeeps(c, n - 1);
      var d := Renew(c, n - 1);
      NewKeeps(d, n - 1, d.current[..n - 1]);
      assert Renew(c, n).current[..n] == d.current[..n - 1] + [d.next];
    }
  }

  lemma {:induction false} AddHostsKeeps(c: Store, n: nat)
    requires Counted(c) && Kept(c, c.current)
    ensures Counted(AddHosts(c, n)) && Kept(AddHosts(c, n), AddHosts(c, n).current)
    ensures |AddHosts(c, n).current| == |c.current| + n
  {
    if n > 0 {
      AddHostsKeeps(c, n - 1);
      var d := AddHosts(c, n - 1);
      NewKeeps(d, |d.current|, d.current);
      assert New(d, |d.current|).current == d.current + [d.next];
    }
  }

  lemma StartSound(n: nat)
    ensures Sound(Start(n)) && Start(n).users == map[]
  {
    AddHostsKeeps(Store(map[], [], {}, map[], 0), n + 1);
    AddHostsUsers(Store(map[], [], {}, map[], 0), n + 1);
  }

  /** A reload keeps every configuration a session counts in. */
  lemma ReloadKeeps(c: Store, added: nat)
    requires Sound(c)
    ensures Sound(Reload(c, added)) && Reload(c, added).users == c.users
  {
    var n := |c.current|;
    ArchiveKeeps(c, n);
    var d := Archive(c, n);
    assert c.current[n..] == [];
    RenewKeeps(d, n);
    var e := Renew(d, n);
    assert e.current[..n] == e.current;
    AddHostsKeeps(e, added);
    RenewUsers(d, n);
    AddHostsUsers(e, added);
  }

  /** A session that starts counting does so in the configuration its virtual host has now, an unknown
      host standing for the default one, and nobody else's changes. */
  lemma AcquireCounts(c: Store, p: nat, v: nat, k: nat)
    requires Sound(c)
    ensures var d, used := Acquire(c, p, v), c.current[if v < |c.current| then v else 0];
      && p in d.users && d.users[p] == used && d.current == c.current && d.attic == c.attic
      && (k in c.counts ==> k in d.counts && d.counts[k] == c.counts[k] + if k == used then 1 else 0)
      && d.users.Keys == c.users.Keys + {p} && forall q | q in c.users && q != p :: d.users[q] == c.users[q]
  {
  }

  /** At start there are the default virtual host and the `n` named ones, nothing in the attic. */
  lemma StartHosts(n: nat)
    ensures |Start(n).current| == n + 1 && Start(n).attic == {}
  {
    var none := Store(map[], [], {}, map[], 0);
    AddHostsKeeps(none, n + 1);
    AddHostsFresh(none, n + 1);
  }

  lemma {:induction false} RenewFresh(c: Store, n: nat)
    requires n <= |c.current|
    ensures var d := Renew(c, n);
      && d.attic == c.attic && c.next <= d.next && |d.current| == |c.current| && c.counts.Keys <= d.counts.Keys
      && (forall i | 0 <= i < n :: d.current[i] >= c.next)
      && (forall k | k < c.next && k in d.counts :: k in c.counts)
  {
    if n > 0 {
      RenewFresh(c, n - 1);
      var d, e := Renew(c, n - 1), Renew(c, n);
      assert forall i | 0 <= i < n - 1 :: e.current[i] == d.current[i];
      assert e.current[n - 1] == d.next;
    }
  }

  lemma {:induction false} AddHostsFresh(c: Store, n: nat)
    ensures var d := AddHosts(c, n);
      && d.attic == c.attic && c.next <= d.next && |d.current| == |c.current| + n && c.counts.Keys <= d.counts.Keys
      && d.current[..|c.current|] == c.current
      && (forall i | |c.current| <= i < |d.current| :: d.current[i] >= c.next)
      && (forall k | k < c.next && k in d.counts :: k in c.counts)
  {
    if n > 0 {
      AddHostsFresh(c, n - 1);
      var d, e := AddHosts(c, n - 1), AddHosts(c, n);
      assert e.current == d.current + [d.next];
    }
  }

  /** Of the configurations put away, those with a session are in the attic and the others are gone. */
  lemma {:induction false} ArchiveSorts(c: Store, n: nat, k: nat)
    requires Counted(c) && Kept(c, c.current) && n <= |c.current|
    ensures var d := Archive(c, n);
      && (k in d.attic <==> k in c.attic || (k in c.current[..n] && k in c.users.Values))
      && (k in d.counts <==> k in c.counts && !(k in c.current[..n] && k !in c.users.Values))
      && (k in d.counts ==> d.counts[k] == c.counts[k])
  {
    hide Counted, Kept;
    if n > 0 {
      var last := c.current[n - 1];
      ArchiveSorts(c, n - 1, k);
      ArchiveSorts(c, n - 1, last);
      assert c.current[..n] == c.current[..n - 1] + [last];
      CurrentConfig(c, n - 1);
    }
  }

  /** A configuration in use stands once, exists, and counts 0 exactly when no session uses it. */
  lemma CurrentConfig(c: Store, i: nat)
    requires Counted(c) && Kept(c, c.current) && i < |c.current|
    ensures var k := c.current[i];
      && k !in c.current[..i] && k in c.counts && k !in c.attic
      && (c.counts[k] == 0 <==> k !in c.users.Values)
  {
    NoUsers(c.users, c.current[i]);
  }

  /** A reload gives every virtual host, old and added, a new configuration; the ones they had go to the
      attic when a session counts in them, and are gone otherwise. */
  lemma ReloadReplaces(c: Store, added: nat, k: nat)
    requires Sound(c)
    ensures var d := Reload(c, added);
      && |d.current| == |c.current| + added && (forall i | 0 <= i < |d.current| :: d.current[i] >= c.next)
      && (k in d.attic <==> k in c.attic || (k in c.current && k in c.users.Values))
      && (k in c.current && k !in c.users.Values ==> k !in d.counts)
  {
    hide Archive, Renew, AddHosts, Counted;
    var n := |c.current|;
    var a := Archive(c, n);
    var r := Renew(a, n);
    ArchiveSorts(c, n, k);
    assert c.current[..n] == c.current;
    RenewFresh(a, n);
    AddHostsFresh(r, added);
  }

  lemma {:induction false} RenewUsers(c: Store, n: nat)
    requires n <= |c.current|
    ensures Renew(c, n).users == c.users
  {
    if n > 0 {
      RenewUsers(c, n - 1);
    }
  }

  lemma {:induction false} AddHostsUsers(c: Store, n: nat)
    ensures AddHosts(c, n).users == c.users
  {
    if n > 0 {
      AddHostsUsers(c, n - 1);
    }
  }

  /** A sweep frees exactly the archived configurations no session counts in. */
  lemma SweepKeeps(c: Store)
    requires Sound(c)
    ensures Sound(Sweep(c)) && Sweep(c).users == c.users
    ensures forall k :: k in Sweep(c).counts <==> k in c.counts && (k in c.attic ==> exists p | p in c.users :: c.users[p] == k)
    ensures Sweep(c).attic == set k | k in c.attic && k in c.users.Values
  {
    hide Users;
    FreeCounted(c, Sweep(c), set k | k in c.attic && Idle(c, k));
    forall k | k in c.attic ensures Idle(c, k) <==> !exists p | p in c.users :: c.users[p] == k {
      NoUsers(c.users, k);
    }
  }
}
