/** The ban database of src/main-ban.c: addresses, their scores, and who is turned away. */
module BanDb {
  import opened Options
  import opened Words

  /** Scores are 32-bit unsigned. */
  const WRAP := 0x1_0000_0000
  type Uint32 = x: nat | x < 0x1_0000_0000
  type Int32 = x: int | -0x8000_0000 <= x < 0x8000_0000

  function Low32(n: nat): Uint32 {
    n % WRAP
  }

  lemma Low32Sum(a: nat, b: nat)
    ensures Low32(Low32(a) + b) == Low32(a + b) && (a < WRAP ==> Low32(a) == a)
  {
  }

  type Address = seq<Letter>

  datatype Settings = Settings(maxBanScore: Int32, banResetTime: Int32, minReauthTime: int, banPointsConnect: Uint32)
  datatype Entry = Entry(score: Uint32, lastReset: int, expires: int)
  type Db = map<Address, Entry>

  /** max_ban_score is signed, and is converted when it is compared with a score. */
  function Threshold(cfg: Settings): (n: Uint32)
    ensures n == 0 <==> cfg.maxBanScore == 0
    ensures (n - cfg.maxBanScore) % 0x1_0000_0000 == 0
  {
    if cfg.maxBanScore < 0 then cfg.maxBanScore + WRAP else cfg.maxBanScore
  }

  predicate Usable(ip: Address) {
    |ip| == 4 || |ip| == 16
  }

  /** Addresses of one IPv6 /64 share an entry. */
  function Massage(ip: Address): Address {
    if |ip| == 16 then ip[..8] + [0, 0, 0, 0, 0, 0, 0, 0] else ip
  }

  /** Two addresses share an entry exactly when they are the same, or IPv6 with the same first 8 bytes. */
  lemma SameEntry(a: Address, b: Address)
    ensures Massage(a) == Massage(b) <==> a == b || (|a| == |b| == 16 && a[..8] == b[..8])
    ensures Massage(Massage(a)) == Massage(a) && (Usable(Massage(a)) <==> Usable(a))
  {
    if |a| == 16 {
      assert Massage(a)[..8] == a[..8];
      if |b| == 16 {
        assert Massage(b)[..8] == b[..8];
      }
    }
  }

  // ----- what one call does

  /** The entry after `points` have been charged to it at `now`. */
  function Charge(cfg: Settings, e: Option<Entry>, now: int, points: Uint32): Entry {
    var open :=
      if e.None? then Entry(0, now, 0)
      else if now > e.value.lastReset + cfg.banResetTime then e.value.(score := 0, lastReset := now)
      else e.value;
    Entry(Low32(open.score + points), open.lastReset,
          if open.score < Threshold(cfg) then now + cfg.minReauthTime else open.expires)
  }

  function Look(db: Db, key: Address): Option<Entry> {
    if key in db then Some(db[key]) else None
  }

  function AddTo(cfg: Settings, db: Db, now: int, ip: Address, points: Uint32): (int, Db) {
    if cfg.maxBanScore == 0 || !Usable(ip) then (0, db) else
    var e := Charge(cfg, Look(db, Massage(ip)), now, points);
    (if cfg.maxBanScore > 0 && e.score >= Threshold(cfg) then -1 else 0, db[Massage(ip) := e])
  }

  /** The clock is read twice: for the charge and for the verdict. */
  function CheckAt(cfg: Settings, db: Db, now: int, later: int, ip: Address): (int, Db) {
    if cfg.maxBanScore == 0 || !Usable(ip) then (0, db) else
    var e := Charge(cfg, Look(db, Massage(ip)), now, cfg.banPointsConnect);
    (if later <= e.expires && e.score >= Threshold(cfg) then 1 else 0, db[Massage(ip) := e])
  }

  function UnbanIn(db: Db, ip: Address): (int, Db) {
    if Usable(ip) && Massage(ip) in db
    then (1, db[Massage(ip) := db[Massage(ip)].(score := 0, expires := 0)])
    else (0, db)
  }

  predicate Expendable(cfg: Settings, e: Entry, now: int) {
    now >= e.expires && now > e.lastReset + cfg.banResetTime
  }

  function Swept(cfg: Settings, db: Db, now: int): Db {
    map k | k in db && !Expendable(cfg, db[k], now) :: db[k]
  }

  class BanTable {
    var entries: Db

    /** add_ip_to_ban_list; -1 means banned. */
    method Add(cfg: Settings, now: int, ip: Address, points: Uint32) returns (ret: int)
      modifies this
      ensures (ret, entries) == AddTo(cfg, old(entries), now, ip, points)
    {
      var expiration := now + cfg.minReauthTime;
      if cfg.maxBanScore == 0 || !Usable(ip) {
        return 0;
      }
      var t := Massage(ip);
      var e;
      if t !in entries {
        e := Entry(0, now, 0);
      } else {
        e := entries[t];
        if now > e.lastReset + cfg.banResetTime {
          e := e.(score := 0, lastReset := now);
        }
      }
      if e.score < Threshold(cfg) {
        e := e.(expires := expiration);
      }
      e := e.(score := Low32(e.score + points));
      entries := entries[t := e];
      if cfg.maxBanScore > 0 && e.score >= Threshold(cfg) {
        return -1;
      }
      return 0;
    }

    /** check_if_banned; 1 means turned away. */
    method Check(cfg: Settings, now: int, later: int, ip: Address) returns (banned: int)
      modifies this
      ensures (banned, entries) == CheckAt(cfg, old(entries), now, later, ip)
    {
      if cfg.maxBanScore == 0 || !Usable(ip) {
        return 0;
      }
      var t := Massage(ip);
      SameEntry(ip, ip);
      var _ := Add(cfg, now, t, cfg.banPointsConnect);
      if t in entries {
        if later > entries[t].expires {
          return 0;
        }
        if entries[t].score >= Threshold(cfg) {
          return 1;
        }
      }
      return 0;
    }

    /** remove_ip_from_ban_list; 1 means there was an entry. */
    method Unban(ip: Address) returns (found: int)
      modifies this
      ensures (found, entries) == UnbanIn(old(entries), ip)
    {
      if Usable(ip) {
        var t := Massage(ip);
        if t in entries {
          entries := entries[t := entries[t].(score := 0, expires := 0)];
          return 1;
        }
      }
      return 0;
    }

    /** cleanup_banned_entries: visit every entry, in whatever order the table yields them. */
    method Cleanup(cfg: Settings, now: int)
      modifies this
      ensures entries == Swept(cfg, old(entries), now)
    {
      var ahead := entries.Keys;
      while ahead != {}
        invariant ahead <= entries.Keys
        invariant entries == map k | k in old(entries) && (k in ahead || !Expendable(cfg, old(entries)[k], now)) :: old(entries)[k]
        decreases |ahead|
      {
        var t :| t in ahead;
        ahead := ahead - {t};
        if Expendable(cfg, entries[t], now) {
          entries := entries - {t};
        }
      }
    }
  }

  // ----- runs

  datatype Event =
    | Add(now: int, ip: Address, points: Uint32)
    | Check(now: int, later: int, ip: Address)
    | Unban(ip: Address)
    | Cleanup(now: int)

  /** The verdicts an event returns (unbanning and cleaning up return none) and the table after it. */
  function Step(cfg: Settings, db: Db, ev: Event): (seq<int>, Db) {
    match ev
    case Add(now, ip, points) => var r := AddTo(cfg, db, now, ip, points); ([r.0], r.1)
    case Check(now, later, ip) => var r := CheckAt(cfg, db, now, later, ip); ([r.0], r.1)
    case Unban(ip) => ([], UnbanIn(db, ip).1)
    case Cleanup(now) => ([], Swept(cfg, db, now))
  }

  function Run(cfg: Settings, db: Db, es: seq<Event>): (seq<int>, Db)
    decreases |es|
  {
    if es == [] then ([], db) else
    var s := Step(cfg, db, es[0]);
    var rest := Run(cfg, s.1, es[1..]);
    (s.0 + rest.0, rest.1)
  }

  /** The time after an event that happens no earlier than `t`. */
  function Clock(ev: Event, t: int): int {
    match ev
    case Add(now, _, _) => now
    case Check(_, later, _) => later
    case Unban(_) => t
    case Cleanup(now) => now
  }

  predicate InOrder(ev: Event, t: int) {
    match ev
    case Check(now, later, _) => t <= now <= later
    case _ => t <= Clock(ev, t)
  }

  /** The clock never goes back. */
  predicate Monotone(es: seq<Event>, t: int) {
    es != [] ==> InOrder(es[0], t) && Monotone(es[1..], Clock(es[0], t))
  }

  function WithoutCleanup(es: seq<Event>): seq<Event> {
    if es == [] then [] else (if es[0].Cleanup? then [] else [es[0]]) + WithoutCleanup(es[1..])
  }

  // ----- cleaning up cannot be noticed

  /** An entry whose window is over counts as none: the next charge starts it afresh. */
  predicate Spent(cfg: Settings, e: Option<Entry>, t: int) {
    e.None? || t > e.value.lastReset + cfg.banResetTime
  }

  predicate AlikeAt(cfg: Settings, x: Option<Entry>, y: Option<Entry>, t: int) {
    x == y || (Spent(cfg, x, t) && Spent(cfg, y, t))
  }

  ghost predicate Alike(cfg: Settings, a: Db, b: Db, t: int) {
    forall k :: AlikeAt(cfg, Look(a, k), Look(b, k), t)
  }

  lemma ChargeAlike(cfg: Settings, x: Option<Entry>, y: Option<Entry>, t: int, now: int, points: Uint32)
    requires cfg.maxBanScore != 0 && t <= now && AlikeAt(cfg, x, y, t)
    ensures Charge(cfg, x, now, points) == Charge(cfg, y, now, points)
  {
  }

  /** Equal events keep two tables alike and give the same verdicts. */
  lemma StepAlike(cfg: Settings, a: Db, b: Db, t: int, ev: Event)
    requires Alike(cfg, a, b, t) && InOrder(ev, t) && !ev.Cleanup?
    ensures Step(cfg, a, ev).0 == Step(cfg, b, ev).0
    ensures Alike(cfg, Step(cfg, a, ev).1, Step(cfg, b, ev).1, Clock(ev, t))
  {
    var k := Massage(ev.ip);
    assert AlikeAt(cfg, Look(a, k), Look(b, k), t);
    if cfg.maxBanScore != 0 && !ev.Unban? {
      ChargeAlike(cfg, Look(a, k), Look(b, k), t, ev.now, if ev.Add? then ev.points else cfg.banPointsConnect);
    }
    forall key ensures AlikeAt(cfg, Look(Step(cfg, a, ev).1, key), Look(Step(cfg, b, ev).1, key), Clock(ev, t)) {
      assert AlikeAt(cfg, Look(a, key), Look(b, key), t);
    }
  }

  /** A cleanup of either table goes unnoticed. */
  lemma SweepAlike(cfg: Settings, a: Db, b: Db, t: int, now: int)
    requires Alike(cfg, a, b, t) && t <= now
    ensures Alike(cfg, Swept(cfg, a, now), b, now)
  {
    forall k ensures AlikeAt(cfg, Look(Swept(cfg, a, now), k), Look(b, k), now) {
      assert AlikeAt(cfg, Look(a, k), Look(b, k), t);
    }
  }

  lemma {:induction false} RunAlike(cfg: Settings, a: Db, b: Db, t: int, es: seq<Event>)
    requires Alike(cfg, a, b, t) && Monotone(es, t)
    ensures Run(cfg, a, es).0 == Run(cfg, b, WithoutCleanup(es)).0
    decreases |es|
  {
    if es != [] {
      var ev, a' := es[0], Step(cfg, a, es[0]).1;
      if ev.Cleanup? {
        SweepAlike(cfg, a, b, t, ev.now);
        RunAlike(cfg, a', b, ev.now, es[1..]);
        assert WithoutCleanup(es) == WithoutCleanup(es[1..]);
      } else {
        StepAlike(cfg, a, b, t, ev);
        RunAlike(cfg, a', Step(cfg, b, ev).1, Clock(ev, t), es[1..]);
        assert WithoutCleanup(es)[0] == ev && WithoutCleanup(es)[1..] == WithoutCleanup(es[1..]);
      }
    }
  }

  /** Two runs that differ only in when cleanup is called give the same verdicts. */
  lemma CleanupInvisible(cfg: Settings, db: Db, t: int, es: seq<Event>, fs: seq<Event>)
    requires Monotone(es, t) && Monotone(fs, t) && WithoutCleanup(es) == WithoutCleanup(fs)
    ensures Run(cfg, db, es).0 == Run(cfg, db, fs).0
  {
    RunAlike(cfg, db, db, t, es);
    RunAlike(cfg, db, db, t, fs);
  }

  // ----- when nothing is kept

  /** With banning switched off nobody is banned and nothing is entered, in any run. */
  lemma {:induction false} BanningOff(cfg: Settings, db: Db, es: seq<Event>)
    requires cfg.maxBanScore == 0
    ensures (forall v | v in Run(cfg, db, es).0 :: v == 0) && Run(cfg, db, es).1.Keys <= db.Keys
    decreases |es|
  {
    if es != [] {
      BanningOff(cfg, Step(cfg, db, es[0]).1, es[1..]);
    }
  }

  /** An address of any other size is let in and leaves the table alone. */
  lemma OtherAddresses(cfg: Settings, db: Db, now: int, later: int, ip: Address, points: Uint32)
    requires |ip| != 4 && |ip| != 16
    ensures AddTo(cfg, db, now, ip, points) == (0, db) && CheckAt(cfg, db, now, later, ip) == (0, db)
    ensures UnbanIn(db, ip) == (0, db)
  {
  }

  /** Unbanning says whether there was an entry, and leaves all others alone. */
  lemma Unbanned(db: Db, ip: Address, key: Address)
    requires |ip| == 4 || |ip| == 16
    ensures UnbanIn(db, ip).0 == if Massage(ip) in db then 1 else 0
    ensures key != Massage(ip) ==> Look(UnbanIn(db, ip).1, key) == Look(db, key)
    ensures Massage(ip) in db <==> Massage(ip) in UnbanIn(db, ip).1
  {
  }

  // ----- what an entry holds

  datatype Charged = Charged(at: int, points: Uint32)

  /** What has been charged to an address since its window was opened or it was unbanned. */
  datatype History = History(start: int, charges: seq<Charged>)

  function Record(cfg: Settings, h: Option<History>, now: int, points: Uint32): History {
    if h.None? || now > h.value.start + cfg.banResetTime then History(now, [Charged(now, points)])
    else h.value.(charges := h.value.charges + [Charged(now, points)])
  }

  predicate Concerns(cfg: Settings, ev: Event, key: Address) {
    !ev.Cleanup? && Usable(ev.ip) && Massage(ev.ip) == key
  }

  function Remember(cfg: Settings, h: Option<History>, ev: Event, key: Address): Option<History> {
    if !Concerns(cfg, ev, key) then h
    else if ev.Unban? then (if h.None? then None else Some(h.value.(charges := [])))
    else if cfg.maxBanScore == 0 then h
    else Some(Record(cfg, h, ev.now, if ev.Add? then ev.points else cfg.banPointsConnect))
  }

  /** The history of `key` after the events `es`; it takes no notice of cleanups. */
  function Chronicle(cfg: Settings, h: Option<History>, es: seq<Event>, key: Address): Option<History>
    decreases |es|
  {
    if es == [] then h else Chronicle(cfg, Remember(cfg, h, es[0], key), es[1..], key)
  }

  function EndClock(es: seq<Event>, t: int): int {
    if es == [] then t else EndClock(es[1..], Clock(es[0], t))
  }

  function Total(charges: seq<Charged>): nat {
    if charges == [] then 0 else Total(charges[..|charges| - 1]) + charges[|charges| - 1].points
  }

  /** The last charge that found the score below the threshold: the ban, if any, counts from there. */
  function Fixed(cfg: Settings, charges: seq<Charged>): int
    requires charges != [] && cfg.maxBanScore != 0
  {
    var before := charges[..|charges| - 1];
    if before == [] || Low32(Total(before)) < Threshold(cfg) then charges[|charges| - 1].at else Fixed(cfg, before)
  }

  /** An entry is what its history says.  A missing entry is one whose window is over by `t`. */
  predicate Tells(cfg: Settings, e: Option<Entry>, h: Option<History>, t: int) {
    if e.None? then h.None? || t > h.value.start + cfg.banResetTime
    else
      && h.Some? && e.value.lastReset == h.value.start
      && e.value.score == Low32(Total(h.value.charges))
      && (h.value.charges == [] ==> e.value.expires == 0)
      && (h.value.charges != [] ==>
            cfg.maxBanScore != 0 && e.value.expires == Fixed(cfg, h.value.charges) + cfg.minReauthTime)
  }

  lemma ChargesGrow(cfg: Settings, before: seq<Charged>, c: Charged)
    requires cfg.maxBanScore != 0
    ensures Low32(Total(before + [c])) == Low32(Low32(Total(before)) + c.points)
    ensures Fixed(cfg, before + [c]) ==
            if before == [] || Low32(Total(before)) < Threshold(cfg) then c.at else Fixed(cfg, before)
    ensures Low32(Total([])) == 0
  {
    assert (before + [c])[..|before|] == before;
    Low32Sum(Total(before), c.points);
  }

  lemma ChargeTells(cfg: Settings, e: Option<Entry>, h: Option<History>, t: int, now: int, points: Uint32)
    requires cfg.maxBanScore != 0 && t <= now && Tells(cfg, e, h, t)
    ensures Tells(cfg, Some(Charge(cfg, e, now, points)), Some(Record(cfg, h, now, points)), now)
  {
    hide Total, Fixed, Low32;
    if e.None? || now > e.value.lastReset + cfg.banResetTime {
      ChargesGrow(cfg, [], Charged(now, points));
      assert [] + [Charged(now, points)] == [Charged(now, points)];
    } else {
      ChargesGrow(cfg, h.value.charges, Charged(now, points));
    }
  }

  lemma StepTells(cfg: Settings, db: Db, h: Option<History>, t: int, ev: Event, key: Address)
    requires Tells(cfg, Look(db, key), h, t) && InOrder(ev, t)
    ensures Tells(cfg, Look(Step(cfg, db, ev).1, key), Remember(cfg, h, ev, key), Clock(ev, t))
  {
    if Concerns(cfg, ev, key) && !ev.Unban? && cfg.maxBanScore != 0 {
      ChargeTells(cfg, Look(db, key), h, t, ev.now, if ev.Add? then ev.points else cfg.banPointsConnect);
    }
  }

  lemma {:induction false} RunTells(cfg: Settings, db: Db, h: Option<History>, t: int, es: seq<Event>, key: Address)
    requires Tells(cfg, Look(db, key), h, t) && Monotone(es, t)
    ensures Tells(cfg, Look(Run(cfg, db, es).1, key), Chronicle(cfg, h, es, key), EndClock(es, t))
    decreases |es|
  {
    if es != [] {
      StepTells(cfg, db, h, t, es[0], key);
      RunTells(cfg, Step(cfg, db, es[0]).1, Remember(cfg, h, es[0], key), Clock(es[0], t), es[1..], key);
    }
  }

  /** After any run from the empty table, an entry's score is the sum of the points charged to it since
      it was created, reset or unbanned, up to wrap-around, and its expiry was set by the last charge
      that found it below the threshold. */
  lemma EntryTellsHistory(cfg: Settings, t: int, es: seq<Event>, key: Address)
    requires Monotone(es, t)
    ensures Tells(cfg, Look(Run(cfg, map[], es).1, key), Chronicle(cfg, None, es, key), EndClock(es, t))
  {
    RunTells(cfg, map[], None, t, es, key);
  }

  /** When the entry of a history expires. */
  function Expiry(cfg: Settings, h: History): int {
    if h.charges == [] || cfg.maxBanScore == 0 then 0 else Fixed(cfg, h.charges) + cfg.minReauthTime
  }

  /** A cleanup after any run frees the entry of an address exactly when its expiry has come and its
      window is over, and changes no entry that stays. */
  lemma CleanupFrees(cfg: Settings, t: int, es: seq<Event>, now: int, key: Address)
    requires Monotone(es, t)
    ensures var db, h := Run(cfg, map[], es).1, Chronicle(cfg, None, es, key);
            var swept := Step(cfg, db, Cleanup(now)).1;
      && (key in db ==> h.Some?)
      && (key in db ==> (key !in swept <==> now >= Expiry(cfg, h.value) && now > h.value.start + cfg.banResetTime))
      && (key in swept ==> key in db && swept[key] == db[key])
  {
    hide Run, Chronicle, Fixed, Total, Low32, EndClock;
    EntryTellsHistory(cfg, t, es, key);
  }

  /** What adding points and checking decide, from the events alone: an address is turned away when
      the points charged to it reach the threshold, until the re-authentication time has passed since
      the charge that fixed the ban. */
  lemma VerdictFollowsHistory(cfg: Settings, t: int, es: seq<Event>, now: int, later: int, ip: Address, points: Uint32)
    requires Monotone(es, t) && EndClock(es, t) <= now && cfg.maxBanScore != 0 && (|ip| == 4 || |ip| == 16)
    ensures var db, h := Run(cfg, map[], es).1, Chronicle(cfg, None, es, Massage(ip));
            var charged := Record(cfg, h, now, points).charges;
            AddTo(cfg, db, now, ip, points).0
            == if cfg.maxBanScore > 0 && Low32(Total(charged)) >= Threshold(cfg) then -1 else 0
    ensures var db, h := Run(cfg, map[], es).1, Chronicle(cfg, None, es, Massage(ip));
            var checked := Record(cfg, h, now, cfg.banPointsConnect).charges;
            CheckAt(cfg, db, now, later, ip).0
            == if Low32(Total(checked)) >= Threshold(cfg) && later <= Fixed(cfg, checked) + cfg.minReauthTime then 1 else 0
  {
    hide Total, Fixed, Low32, Run, Chronicle, EndClock, Charge;
    var k := Massage(ip);
    var db, h := Run(cfg, map[], es).1, Chronicle(cfg, None, es, k);
    EntryTellsHistory(cfg, t, es, k);
    ChargeTells(cfg, Look(db, k), h, EndClock(es, t), now, points);
    ChargeTells(cfg, Look(db, k), h, EndClock(es, t), now, cfg.banPointsConnect);
  }

  /** Charge `i` takes the total to the threshold. */
  predicate Crosses(charges: seq<Charged>, i: nat, threshold: nat)
    requires i < |charges|
  {
    Total(charges[..i]) < threshold <= Total(charges[..i + 1])
  }

  lemma {:induction false} TotalGrows(charges: seq<Charged>, i: nat)
    requires i <= |charges|
    ensures Total(charges[..i]) <= Total(charges)
    decreases |charges|
  {
    if i == |charges| {
      assert charges[..i] == charges;
    } else {
      TotalGrows(charges[..|charges| - 1], i);
      assert charges[..|charges| - 1][..i] == charges[..i];
    }
  }

  /** Without wrap-around the expiry is fixed by the charge that crosses the threshold, however many
      follow: polling does not prolong a ban. */
  lemma {:induction false} BanCountsFromCrossing(cfg: Settings, charges: seq<Charged>, i: nat)
    requires cfg.maxBanScore != 0 && Total(charges) < WRAP
    requires i < |charges| && Crosses(charges, i, Threshold(cfg))
    ensures Fixed(cfg, charges) == charges[i].at
    decreases |charges|
  {
    var n := |charges| - 1;
    var before := charges[..n];
    TotalGrows(charges, n);
    if i < n {
      TotalGrows(before, i + 1);
      assert before[..i] == charges[..i] && before[..i + 1] == charges[..i + 1];
      BanCountsFromCrossing(cfg, before, i);
    }
  }

  /** A check before the expiry lets a banned address in exactly when, within the window, its points
      take the 32-bit score round to below the threshold; or, the window being over, when they do not
      reach the threshold by themselves, or the new expiry is over between the two readings of the clock. */
  lemma BannedBeforeExpiry(cfg: Settings, db: Db, now: int, later: int, ip: Address)
    requires cfg.maxBanScore != 0 && (|ip| == 4 || |ip| == 16) && now <= later && Massage(ip) in db
    requires db[Massage(ip)].score >= Threshold(cfg) && later <= db[Massage(ip)].expires
    ensures CheckAt(cfg, db, now, later, ip).0 == 0
            <==> if now <= db[Massage(ip)].lastReset + cfg.banResetTime
                 then WRAP <= db[Massage(ip)].score + cfg.banPointsConnect < WRAP + Threshold(cfg)
                 else cfg.banPointsConnect < Threshold(cfg) || now + cfg.minReauthTime < later
  {
    hide Low32;
    var e, points := db[Massage(ip)], cfg.banPointsConnect;
    assert Look(db, Massage(ip)) == Some(e);
    SmallSum(e.score, points);
    SmallSum(0, points);
  }

  lemma SmallSum(a: Uint32, b: Uint32)
    ensures Low32(a + b) == if a + b < WRAP then a + b else a + b - WRAP
  {
  }

  /** Wrap-around undoes a ban: turned away, then charged up to 2^32 points, the address is let in well
      before its expiry. */
  lemma ScoreWraps(ip: Address)
    requires |ip| == 4
    ensures var cfg := Settings(10, 1000, 60, 1);
            var es := [Add(0, ip, 9), Check(0, 0, ip), Add(1, ip, 0xffff_fff6), Check(2, 2, ip)];
            Monotone(es, 0) && Run(cfg, map[], es).0 == [0, 1, 0, 0]
  {
    hide Low32, Run, Monotone;
    var cfg := Settings(10, 1000, 60, 1);
    var e1, e2, e3, e4 := Entry(9, 0, 60), Entry(10, 0, 60), Entry(0, 0, 60), Entry(1, 0, 62);
    SmallSum(0, 9);
    SmallSum(9, 1);
    SmallSum(10, 0xffff_fff6);
    SmallSum(0, 1);
    assert Charge(cfg, None, 0, 9) == e1 && Charge(cfg, Some(e1), 0, 1) == e2;
    assert Charge(cfg, Some(e2), 1, 0xffff_fff6) == e3 && Charge(cfg, Some(e3), 2, 1) == e4;
    RunOfFour(cfg, ip, Add(0, ip, 9), Check(0, 0, ip), Add(1, ip, 0xffff_fff6), Check(2, 2, ip), 0, 1, 0, 0, e1, e2, e3, e4);
    FourInOrder(Add(0, ip, 9), Check(0, 0, ip), Add(1, ip, 0xffff_fff6), Check(2, 2, ip));
  }

  /** The end of the window undoes a ban: with the limit, reset and re-authentication times of
      doc/sample.config, an address turned away at 1001 is let in at 1201, though its expiry is 1300. */
  lemma WindowEndsBan(ip: Address)
    requires |ip| == 4
    ensures var cfg := Settings(80, 1200, 300, 1);
            var es := [Add(0, ip, 1), Add(1000, ip, 79), Check(1001, 1001, ip), Check(1201, 1201, ip)];
            && Monotone(es, 0) && Run(cfg, map[], es).0 == [0, -1, 1, 0]
            && Charge(cfg, Some(Charge(cfg, Some(Charge(cfg, None, 0, 1)), 1000, 79)), 1001, 1).expires == 1300
  {
    hide Low32, Run, Monotone;
    var cfg := Settings(80, 1200, 300, 1);
    var e1, e2, e3, e4 := Entry(1, 0, 300), Entry(80, 0, 1300), Entry(81, 0, 1300), Entry(1, 1201, 1501);
    SmallSum(0, 1);
    SmallSum(1, 79);
    SmallSum(80, 1);
    assert Charge(cfg, None, 0, 1) == e1 && Charge(cfg, Some(e1), 1000, 79) == e2;
    assert Charge(cfg, Some(e2), 1001, 1) == e3 && Charge(cfg, Some(e3), 1201, 1) == e4;
    RunOfFour(cfg, ip, Add(0, ip, 1), Add(1000, ip, 79), Check(1001, 1001, ip), Check(1201, 1201, ip), 0, -1, 1, 0, e1, e2, e3, e4);
    FourInOrder(Add(0, ip, 1), Add(1000, ip, 79), Check(1001, 1001, ip), Check(1201, 1201, ip));
  }

  lemma FourInOrder(a: Event, b: Event, c: Event, d: Event)
    requires InOrder(a, 0) && InOrder(b, Clock(a, 0)) && InOrder(c, Clock(b, Clock(a, 0)))
    requires InOrder(d, Clock(c, Clock(b, Clock(a, 0))))
    ensures Monotone([a, b, c, d], 0)
  {
    hide InOrder, Clock;
    var t1 := Clock(a, 0);
    var t2 := Clock(b, t1);
    var t3 := Clock(c, t2);
    assert Monotone([], Clock(d, t3));
    assert [d][1..] == [] && Monotone([d], t3);
    assert [c, d][1..] == [d] && Monotone([c, d], t2);
    assert [b, c, d][1..] == [c, d] && Monotone([b, c, d], t1);
    assert [a, b, c, d][1..] == [b, c, d];
  }

  /** Four events that each leave one entry in the table. */
  lemma RunOfFour(cfg: Settings, ip: Address, a: Event, b: Event, c: Event, d: Event, v1: int, v2: int, v3: int, v4: int,
                  e1: Entry, e2: Entry, e3: Entry, e4: Entry)
    requires Step(cfg, map[], a) == ([v1], map[ip := e1]) && Step(cfg, map[ip := e1], b) == ([v2], map[ip := e1][ip := e2])
    requires Step(cfg, map[ip := e2], c) == ([v3], map[ip := e2][ip := e3])
    requires Step(cfg, map[ip := e3], d) == ([v4], map[ip := e3][ip := e4])
    ensures Run(cfg, map[], [a, b, c, d]).0 == [v1, v2, v3, v4]
  {
    hide Step, Run;
    assert map[ip := e1][ip := e2] == map[ip := e2] && map[ip := e2][ip := e3] == map[ip := e3];
    assert [a, b, c, d][1..] == [b, c, d] && [b, c, d][1..] == [c, d] && [c, d][1..] == [d] && [d][1..] == [];
    RunStep(cfg, map[], [a, b, c, d], [v1], map[ip := e1]);
    RunStep(cfg, map[ip := e1], [b, c, d], [v2], map[ip := e2]);
    RunStep(cfg, map[ip := e2], [c, d], [v3], map[ip := e3]);
    RunStep(cfg, map[ip := e3], [d], [v4], map[ip := e3][ip := e4]);
    RunEnds(cfg, map[ip := e3][ip := e4]);
  }

  lemma RunEnds(cfg: Settings, db: Db)
    ensures Run(cfg, db, []).0 == []
  {
  }

  lemma RunStep(cfg: Settings, db: Db, es: seq<Event>, verdict: seq<int>, db': Db)
    requires es != [] && Step(cfg, db, es[0]) == (verdict, db')
    ensures Run(cfg, db, es).0 == verdict + Run(cfg, db', es[1..]).0
  {
  }

  /** A check once the expiry has passed admits the address, except when the check itself opens a new
      window and its own points suffice for a ban: exactly then it is turned away again. */
  lemma AdmittedAfterExpiry(cfg: Settings, db: Db, now: int, later: int, ip: Address)
    requires cfg.maxBanScore != 0 && (|ip| == 4 || |ip| == 16) && now <= later && Massage(ip) in db
    requires db[Massage(ip)].score >= Threshold(cfg) && later > db[Massage(ip)].expires
    ensures CheckAt(cfg, db, now, later, ip).0 == 1
            <==> && now > db[Massage(ip)].lastReset + cfg.banResetTime
                 && cfg.banPointsConnect >= Threshold(cfg)
                 && later <= now + cfg.minReauthTime
  {
    Low32Sum(cfg.banPointsConnect, 0);
  }

  /** With connection points as high as the limit, an address is turned away again after its expiry. */
  lemma TurnedAwayAgain(ip: Address)
    requires |ip| == 4
    ensures var cfg := Settings(1, 10, 60, 1);
            var es := [Check(0, 0, ip), Check(100, 100, ip)];
            var first := Run(cfg, map[], es[..1]).1;
            Monotone(es, 0) && ip in first && 100 > first[ip].expires && Run(cfg, map[], es).0 == [1, 1]
  {
    var cfg := Settings(1, 10, 60, 1);
    var es := [Check(0, 0, ip), Check(100, 100, ip)];
    var s := Step(cfg, map[], es[0]);
    Low32Sum(1, 0);
    assert s == ([1], map[ip := Entry(1, 0, 60)]);
    assert es[..1] == [es[0]] && es[1..] == [es[1]];
    assert Charge(cfg, Look(s.1, ip), 100, 1) == Entry(1, 100, 160);
    assert Step(cfg, s.1, es[1]).0 == [1];
    assert Run(cfg, s.1, es[1..]).0 == [1];
    assert Monotone(es[1..], 0);
  }
}
