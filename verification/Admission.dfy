/** Who is admitted: what becomes of a cookie request and of a connect script's exit, told from the
    state before and from what the environment answers (src/main-worker-cmd.c, src/main-auth.c). */
module Admission {
  import opened Options
  import opened LeaseBook
  import opened ConfigStore
  import opened MainProcess

  // ----- what it takes

  /** The session can be opened: a cookie of the right form, accepted by the security module with a user
      name and a configuration, from an address that may use it, and, where another session has the same
      id, of the same user. */
  predicate Opens(m: Main, e: Cookie) {
    && e.valid && e.answer.Opened? && e.answer.roaming
    && (e.previous.Some? ==> e.previous.value in m.procs && m.procs[e.previous.value].username == e.answer.username)
  }

  /** The sessions of the same user that stay when this one is opened. */
  function Rivals(m: Main, p: nat, e: Cookie): set<nat>
    requires e.answer.Opened?
  {
    set q | q in m.procs && q != p && e.previous != Some(q) && !m.procs[q].killed && m.procs[q].username == e.answer.username
  }

  /** The user may have one more session. */
  predicate HasRoom(m: Main, p: nat, e: Cookie)
    requires e.answer.Opened?
  {
    e.answer.limit == 0 || |Rivals(m, p, e)| < e.answer.limit
  }

  /** The leases once those of the session with the same id have changed hands. */
  function Inherited(m: Main, p: nat, e: Cookie): Book {
    if e.previous.Some? then Steal(m.book, e.previous.value, p) else m.book
  }

  /** Leases are granted, the tun device opens under a name, and at least one of the addresses is set;
      an IPv4 address must be. */
  predicate Equips(b: Book, p: nat, e: Cookie) {
    var (c, granted) := Grant(b, p, e.request);
    && granted && e.tunOpens && e.tunNamed && (Slot(p, V4) in c.held ==> e.ipv4Set)
    && (Slot(p, V4) in c.held || (Slot(p, V6) in c.held && e.ipv6Set))
  }

  predicate Passes(m: Main, p: nat, e: Cookie) {
    Opens(m, e) && e.hashed && HasRoom(m, p, e) && Equips(Inherited(m, p, e), p, e)
  }

  /** The session once it has been opened: the user name and the limit it was opened with, and the id. */
  function Named(s: Session, e: Cookie): Session {
    Answered(s, e.answer).(sid := Some(e.sid))
  }

  function Answered(s: Session, a: Answer): Session {
    match a
    case Opened(username, _, limit, _) => s.(username := username, limit := limit)
    case NoConfig(username) => s.(username := username)
    case _ => s
  }

  predicate SameIdentity(s: Session, t: Session) {
    s.username == t.username && s.limit == t.limit && s.sid == t.sid
  }

  // ----- step by step

  lemma SessionOpenOutcome(m: Main, p: nat, a: Answer)
    requires p in m.procs && Sound(m.store)
    ensures var (r, ok) := SessionOpen(m, p, a);
      && (ok <==> a.Opened? && a.roaming) && r.book == m.book
      && r.store == (if a.Opened? then Acquire(m.store, p, a.vhost) else m.store)
      && r.procs == m.procs[p := Answered(m.procs[p], a)]
      && (r.notes == m.notes || r.notes == m.notes + [SecModAccepted(p)])
  {
    hide Sound, Acquire;
  }

  lemma AuthVerdict(m: Main, p: nat, e: Cookie)
    requires p in m.procs && Sound(m.store) && Found(m, e) && m.procs[p].sid.None?
    ensures var (r, ok) := AuthCookieReq(m, p, e);
      && (ok <==> Opens(m, e) && e.hashed)
      && r.book == (if Opens(m, e) then Inherited(m, p, e) else m.book)
      && r.store == (if e.valid && e.answer.Opened? then Acquire(m.store, p, e.answer.vhost) else m.store)
  {
    hide Sound, Steal, Acquire, SessionOpen;
    if e.valid {
      SessionOpenOutcome(m, p, e.answer);
    }
  }

  lemma AuthOthers(m: Main, p: nat, e: Cookie, q: nat)
    requires p in m.procs && Sound(m.store) && Found(m, e) && m.procs[p].sid.None? && q in m.procs && q != p
    ensures AuthCookieReq(m, p, e).0.procs[q]
            == if Opens(m, e) && e.previous == Some(q) then m.procs[q].(killed := true) else m.procs[q]
  {
    hide Sound, Steal, Acquire, SessionOpen;
    if e.valid {
      SessionOpenOutcome(m, p, e.answer);
    }
  }

  /** What opening the session leaves. */
  lemma AuthOutcome(m: Main, p: nat, e: Cookie)
    requires p in m.procs && Sound(m.store) && Found(m, e) && m.procs[p].sid.None?
    ensures var (r, ok) := AuthCookieReq(m, p, e);
      && (ok <==> Opens(m, e) && e.hashed)
      && r.book == (if Opens(m, e) then Inherited(m, p, e) else m.book)
      && r.store == (if e.valid && e.answer.Opened? then Acquire(m.store, p, e.answer.vhost) else m.store)
      && (forall q | q in m.procs && q != p ::
            r.procs[q] == if Opens(m, e) && e.previous == Some(q) then m.procs[q].(killed := true) else m.procs[q])
  {
    hide Sound, AuthCookieReq, Opens, Inherited, Acquire;
    AuthVerdict(m, p, e);
    forall q | q in m.procs && q != p
      ensures AuthCookieReq(m, p, e).0.procs[q]
              == if Opens(m, e) && e.previous == Some(q) then m.procs[q].(killed := true) else m.procs[q]
    {
      AuthOthers(m, p, e, q);
    }
  }

  lemma AuthNotes(m: Main, p: nat, e: Cookie)
    requires p in m.procs && Sound(m.store) && Found(m, e) && m.procs[p].sid.None?
    ensures var r := AuthCookieReq(m, p, e).0;
      r.notes == m.notes || r.notes == m.notes + [SecModAccepted(p)]
  {
    hide Sound, TakeOver, SessionOpen;
    SessionOpenOutcome(m, p, e.answer);
    if e.previous.Some? {
      TakeOverSession(SessionOpen(m, p, e.answer).0, p, e.previous.value);
    }
  }

  lemma AuthSession(m: Main, p: nat, e: Cookie)
    requires p in m.procs && Sound(m.store) && Found(m, e) && m.procs[p].sid.None?
    ensures var (r, ok) := AuthCookieReq(m, p, e);
      && r.procs[p].script == m.procs[p].script
      && r.procs[p] == if ok then Named(m.procs[p], e) else if e.valid then Answered(m.procs[p], e.answer) else m.procs[p]
  {
    hide Sound, TakeOver, SessionOpen, Answered;
    if e.valid {
      SessionOpenOutcome(m, p, e.answer);
      var m1 := SessionOpen(m, p, e.answer).0;
      AnsweredScript(m.procs[p], e.answer);
      if e.previous.Some? {
        TakeOverSession(m1, p, e.previous.value);
      }
    }
  }

  lemma AnsweredScript(s: Session, a: Answer)
    ensures Answered(s, a).script == s.script
  {
  }

  lemma TakeOverSession(m: Main, p: nat, o: nat)
    requires o in m.procs && p in m.procs && o != p
    ensures TakeOver(m, p, o).procs.Keys == m.procs.Keys && TakeOver(m, p, o).procs[p] == m.procs[p]
    ensures TakeOver(m, p, o).notes == m.notes
  {
    hide Steal;
  }

  /** The check for other sessions of the user, after the session has been opened. */
  lemma RoomOutcome(m: Main, p: nat, e: Cookie)
    requires p in m.procs && Sound(m.store) && Found(m, e) && m.procs[p].sid.None? && Opens(m, e) && e.hashed
    ensures WithinLimit(AuthCookieReq(m, p, e).0, p) <==> HasRoom(m, p, e)
  {
    hide AuthCookieReq, Sound, Opens;
    AuthOutcome(m, p, e);
    AuthSession(m, p, e);
    var r := AuthCookieReq(m, p, e).0;
    OpensPrevious(m, e);
    assert Others(r, p) == Rivals(m, p, e);
  }

  lemma OpensPrevious(m: Main, e: Cookie)
    requires Opens(m, e)
    ensures e.answer.Opened?
  {
  }

  lemma OpenTunOutcome(m: Main, p: nat, e: Cookie)
    requires p in m.procs
    ensures var (r, ok) := OpenTun(m, p, e);
      && (ok <==> Equips(m.book, p, e)) && (ok ==> r.procs[p].tunName)
      && r.procs == m.procs[p := m.procs[p].(tunName := r.procs[p].tunName)]
      && r.notes == m.notes + (if r.notes == m.notes then [] else [TunNamed(p)])
  {
    hide Grant;
  }

  lemma AcceptOutcome(m: Main, p: nat, e: Cookie)
    requires p in m.procs
    ensures var (r, verdict) := AcceptUser(m, p, e);
      var pass := WithinLimit(m, p) && Equips(m.book, p, e);
      && (verdict.Go? <==> pass && e.script.NoScript?) && (verdict.Wait? <==> pass && e.script.ScriptForked?)
      && (verdict.Go? || verdict.Wait? ==> r.procs[p].tunName)
      && r.procs[p].script == (m.procs[p].script || verdict.Wait?)
      && (forall n | n in r.notes && n !in m.notes :: !n.Replied?)
  {
    hide OpenTun, WithinLimit, Equips;
    OpenTunOutcome(Say(m, Allowed(p)), p, e);
  }

  lemma ScriptExitOutcome(m: Main, p: nat, code: bool, sent: bool, routed: bool)
    requires p in m.procs && (code ==> m.procs[p].tunName)
    ensures var (r, done) := ScriptExit(m, p, code, sent, routed);
      && (done <==> sent && (code ==> routed)) && r.notes == m.notes + [Replied(p, code)]
      && r.procs[p].script == m.procs[p].script
      && r.procs[p].status == if done && code then Completed else m.procs[p].status
  {
  }

  /** What becomes of a session that has been opened or not. */
  lemma ResOutcome(m: Main, p: nat, ok: bool, e: Cookie)
    requires p in m.procs && NoReply(m.notes, p) && !m.procs[p].script
    ensures var (r, done) := CookieAuthRes(m, p, ok, e);
      var pass := ok && WithinLimit(m, p) && Equips(m.book, p, e);
      var go, wait := pass && e.script.NoScript?, pass && e.script.ScriptForked?;
      && (done <==> wait || (e.sent && (go ==> e.routed)))
      && (done ==> r.procs[p].status == (if go then Completed else Failed) && r.procs[p].script == wait)
      && (Replied(p, true) in r.notes <==> go) && (Replied(p, false) in r.notes <==> !go && !wait)
  {
    hide AcceptUser, WithinLimit, Equips, ScriptExit;
    AcceptOutcome(m, p, e);
    var (m1, verdict) := if ok then AcceptUser(m, p, e) else (m, Stop);
    var m2 := SetStatus(m1, p, if verdict.Go? then Completed else Failed);
    assert NoReply(m1.notes, p);
    ScriptExitOutcome(m2, p, verdict.Go?, e.sent, e.routed);
  }

  // ----- the outcome

  /** A first cookie request admits the session, sends it to wait for its connect script, or denies it,
      exactly by what it takes; one whose reply or routes do not go through is removed. */
  lemma CookieOutcome(m: Main, p: nat, e: Cookie)
    requires Inv(m) && p in m.procs && m.procs[p].status.Inactive? && Found(m, e)
    ensures var r := Next(m, CookieRequest(p, e));
      var go, wait := Passes(m, p, e) && e.script.NoScript?, Passes(m, p, e) && e.script.ScriptForked?;
      && (p in r.procs && r.procs[p].status.Completed? <==> go && e.sent && e.routed)
      && (p in r.procs && r.procs[p].script <==> wait)
      && (p in r.procs && r.procs[p].status.Failed? && !r.procs[p].script <==> !go && !wait && e.sent)
      && (Replied(p, true) in r.notes <==> go) && (Replied(p, false) in r.notes <==> !go && !wait)
  {
    hide Inv, Sound, AuthCookieReq, CookieAuthRes, Opens, HasRoom, Equips, WithinLimit;
    InvLoose(m, p);
    assert Untouched(m, p);
    AuthOutcome(m, p, e);
    AuthSession(m, p, e);
    var (m1, ok) := AuthCookieReq(m, p, e);
    if ok {
      RoomOutcome(m, p, e);
    }
    AuthNotes(m, p, e);
    assert NoReply(m1.notes, p);
    ResOutcome(m1, p, ok, e);
  }

  /** A session that has asked before is removed, and told nothing. */
  lemma SecondRequest(m: Main, p: nat, e: Cookie)
    requires Inv(m) && p in m.procs && !m.procs[p].status.Inactive? && Found(m, e)
    ensures var r := Next(m, CookieRequest(p, e));
      p !in r.procs && r.notes == m.notes && r.book == Release(m.book, p) && r.store == Leave(m.store, p)
  {
    hide Inv, Release, Leave;
    InvLoose(m, p);
  }

  /** The exit of its connect script admits a waiting session or denies it. */
  lemma ScriptOutcome(m: Main, p: nat, code: bool, sent: bool, routed: bool)
    requires Inv(m) && p in m.procs && m.procs[p].script
    ensures var r := Next(m, ScriptEnds(p, code, sent, routed));
      && (p in r.procs && r.procs[p].status.Completed? <==> code && sent && routed)
      && (p in r.procs && r.procs[p].status.Failed? && !r.procs[p].script <==> !code && sent)
      && (Replied(p, true) in r.notes <==> code) && (Replied(p, false) in r.notes <==> !code)
  {
    hide Inv, Sound, ScriptExit;
    InvLoose(m, p);
    var m1 := Put(Say(m, ScriptExited(p, code)), p, m.procs[p].(script := false));
    ScriptExitOutcome(m1, p, code, sent, routed);
  }

  // ----- what a session holds then

  /** The leases after the tun device has been dealt with: an IPv6 address that cannot be set is given up. */
  function TunBook(b: Book, p: nat, e: Cookie): Book {
    var (c, granted) := Grant(b, p, e.request);
    if granted && e.tunOpens && e.tunNamed && (Slot(p, V4) in c.held ==> e.ipv4Set) && !e.ipv6Set then Drop(c, Slot(p, V6))
    else c
  }

  lemma ResHolds(m: Main, p: nat, ok: bool, e: Cookie)
    requires p in m.procs
    ensures var (r, done) := CookieAuthRes(m, p, ok, e);
      && r.book == (if ok && WithinLimit(m, p) then TunBook(m.book, p, e) else m.book) && r.store == m.store
      && r.procs.Keys == m.procs.Keys && (forall q | q in m.procs && q != p :: r.procs[q] == m.procs[q])
      && SameIdentity(r.procs[p], m.procs[p])
  {
    hide AcceptUser, WithinLimit, TunBook;
    AcceptHolds(m, p, e);
  }

  lemma AcceptHolds(m: Main, p: nat, e: Cookie)
    requires p in m.procs
    ensures var r := AcceptUser(m, p, e).0;
      && r.book == (if WithinLimit(m, p) then TunBook(m.book, p, e) else m.book) && r.store == m.store
      && r.procs.Keys == m.procs.Keys && (forall q | q in m.procs && q != p :: r.procs[q] == m.procs[q])
      && SameIdentity(r.procs[p], m.procs[p])
  {
    hide WithinLimit, OpenTun, TunBook, Equips;
    TunHolds(Say(m, Allowed(p)), p, e);
    OpenTunOutcome(Say(m, Allowed(p)), p, e);
  }

  lemma TunHolds(m: Main, p: nat, e: Cookie)
    requires p in m.procs
    ensures OpenTun(m, p, e).0.book == TunBook(m.book, p, e) && OpenTun(m, p, e).0.store == m.store
  {
    hide Grant, Drop;
  }

  /** The leases a request leaves when it does not end with the session's removal. */
  function BookDue(m: Main, p: nat, e: Cookie): Book {
    if !Opens(m, e) then m.book
    else if e.hashed && HasRoom(m, p, e) then TunBook(Inherited(m, p, e), p, e)
    else Inherited(m, p, e)
  }

  /** What a session that is still there after its request has: the user name, limit and id it was opened
      with, the leases of the session whose id it took and those it was granted, and a count in the
      configuration its virtual host has now. */
  lemma CookieHolds(m: Main, p: nat, e: Cookie)
    requires Inv(m) && p in m.procs && m.procs[p].status.Inactive? && Found(m, e)
    ensures var r := Next(m, CookieRequest(p, e));
      p in r.procs ==>
        && r.store == (if e.valid && e.answer.Opened? then Acquire(m.store, p, e.answer.vhost) else m.store)
        && r.book == BookDue(m, p, e)
        && SameIdentity(r.procs[p], if Opens(m, e) && e.hashed then Named(m.procs[p], e)
                                    else if e.valid then Answered(m.procs[p], e.answer) else m.procs[p])
  {
    hide Inv, Sound, AuthCookieReq, CookieAuthRes, HasRoom, WithinLimit, TunBook, Inherited, Acquire, Named, Answered;
    InvLoose(m, p);
    assert Untouched(m, p);
    AuthOutcome(m, p, e);
    AuthSession(m, p, e);
    var (m1, ok) := AuthCookieReq(m, p, e);
    if ok {
      RoomOutcome(m, p, e);
    }
    ResHolds(m1, p, ok, e);
  }

  /** A session that takes over the id of another one of its user ends with the very leases the other
      had, but for an IPv6 address that cannot be set; the other one is left none, and told to end. */
  lemma Reconnect(m: Main, p: nat, e: Cookie, o: nat, f: Family)
    requires Inv(m) && p in m.procs && m.procs[p].status.Inactive? && Found(m, e) && e.previous == Some(o) && Opens(m, e)
    requires p in Next(m, CookieRequest(p, e)).procs && Slot(o, f) in m.book.held && (f.V6? ==> e.ipv6Set)
    ensures var r := Next(m, CookieRequest(p, e));
      && Slot(p, f) in r.book.held && r.book.held[Slot(p, f)] == m.book.held[Slot(o, f)]
      && o in r.procs && r.procs[o].killed && Slot(o, f) !in r.book.held
  {
    hide Inv, Next, Opens, TunBook, HasRoom, Steal;
    InvLoose(m, p);
    assert Untouched(m, p);
    CookieHolds(m, p, e);
    OthersOutcome(m, p, e, o);
    StealMoves(m.book, o, p, f);
    TunBookKeeps(Inherited(m, p, e), p, e, f);
    TunBookOthers(Inherited(m, p, e), p, e, Slot(o, f));
  }

  lemma TunBookKeeps(b: Book, p: nat, e: Cookie, f: Family)
    requires Slot(p, f) in b.held && (f.V6? ==> e.ipv6Set)
    ensures Slot(p, f) in TunBook(b, p, e).held && TunBook(b, p, e).held[Slot(p, f)] == b.held[Slot(p, f)]
  {
    hide Search;
    EitherFamily(Slot(p, f));
  }

  lemma TunBookOthers(b: Book, p: nat, e: Cookie, s: Slot)
    requires s.proc != p
    ensures s in TunBook(b, p, e).held <==> s in b.held
    ensures s in b.held ==> TunBook(b, p, e).held[s] == b.held[s]
  {
    hide Search;
  }

  /** No other session changes, except that the one whose id is taken over is told to end. */
  lemma OthersOutcome(m: Main, p: nat, e: Cookie, q: nat)
    requires Inv(m) && p in m.procs && m.procs[p].status.Inactive? && Found(m, e) && q in m.procs && q != p
    ensures var r := Next(m, CookieRequest(p, e));
      && q in r.procs
      && r.procs[q] == if Opens(m, e) && e.previous == Some(q) then m.procs[q].(killed := true) else m.procs[q]
  {
    hide Inv, Sound, AuthCookieReq, CookieAuthRes, Opens, WithinLimit, TunBook;
    InvLoose(m, p);
    assert Untouched(m, p);
    AuthOutcome(m, p, e);
    var (m1, ok) := AuthCookieReq(m, p, e);
    ResHolds(m1, p, ok, e);
  }

  // ----- the other events

  /** A connection is a new session that has asked for nothing. */
  lemma Connected(m: Main)
    requires Inv(m)
    ensures var r := Next(m, Connect);
      && m.next !in m.procs && r.procs.Keys == m.procs.Keys + {m.next} && r.procs[m.next].status.Inactive?
      && !r.procs[m.next].killed && Untouched(r, m.next)
      && (forall q | q in m.procs :: r.procs[q] == m.procs[q]) && r.book == m.book && r.store == m.store && r.notes == m.notes
  {
    hide InOrder, Sound, WellReplied;
  }

  /** Telling a session to end changes that mark and nothing else. */
  lemma Killed(m: Main, p: nat)
    requires Inv(m) && p in m.procs
    ensures var r := Next(m, Kill(p));
      r.procs[p].killed && r == m.(procs := m.procs[p := m.procs[p].(killed := true)])
  {
    hide Inv;
  }

  /** A session that ends takes its leases and its count with it, and nobody else's. */
  lemma Disconnected(m: Main, p: nat)
    requires Inv(m) && p in m.procs
    ensures var r := Next(m, Disconnect(p));
      && r.procs == m.procs - {p} && r.notes == m.notes && p !in r.store.users
      && (forall s | s in r.book.held :: s.proc != p) && SameBut(m.book, r.book, SlotsOf(p))
      && (forall q | q != p :: (q in r.store.users <==> q in m.store.users))
  {
    hide InOrder, Release, Leave, SameBut;
    InvLoose(m, p);
    assert InOrder(m.book) by {
      LooseBook(m, p);
    }
    ReleaseKeeps(m.book, p);
    LeaveKeeps(m.store, p);
    LeaveOne(m.store, p);
  }

  /** After any run the maintenance frees the archived configurations no session counts in, and those only. */
  lemma SweepOfEveryRun(n: nat, es: seq<Event>, m: Main, k: nat)
    requires Leads(Begin(n), es, m)
    ensures Sound(m.store)
    ensures var r := Next(m, SweepAttic);
      && (k in r.store.attic <==> k in m.store.attic && k in m.store.users.Values)
      && (k in r.store.counts <==> k in m.store.counts && (k in m.store.attic ==> k in m.store.users.Values))
      && r.store.current == m.store.current && r.store.users == m.store.users && r.procs == m.procs && r.book == m.book
  {
    hide Sound, Inv;
    EveryRunKeeps(n, es, m);
    InvLoose(m, 0);
    SweepKeeps(m.store);
  }

  /** After any run a reload gives every virtual host a new configuration; those they had are archived
      when a session counts in them, and gone otherwise; no session notices. */
  lemma ReloadOfEveryRun(n: nat, es: seq<Event>, m: Main, added: nat, k: nat)
    requires Leads(Begin(n), es, m)
    ensures Sound(m.store)
    ensures var r := Next(m, ReloadConfig(added));
      && |r.store.current| == |m.store.current| + added && (forall i | 0 <= i < |r.store.current| :: r.store.current[i] >= m.store.next)
      && (k in r.store.attic <==> k in m.store.attic || (k in m.store.current && k in m.store.users.Values))
      && (k in m.store.current && k !in m.store.users.Values ==> k !in r.store.counts)
      && r.procs == m.procs && r.book == m.book && r.store.users == m.store.users
  {
    hide Sound, Reload, Inv;
    EveryRunKeeps(n, es, m);
    InvLoose(m, 0);
    ReloadReplaces(m.store, added, k);
    ReloadKeeps(m.store, added);
  }
}
