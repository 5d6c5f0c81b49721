/** The main process: sessions are opened, admitted and removed (src/main-worker-cmd.c, src/main-auth.c,
    src/main-proc.c), with the leases and the configurations they hold on the way. */
module MainProcess {
  import opened Options
  import opened LeaseBook
  import opened ConfigStore

  /** The states the main process puts a session in. */
  datatype Status = Inactive | Failed | Completed

  /** A session.  `limit` is max_same_clients of its configuration, `sid` the session id it is found by,
      `script` tells that its connect script is running. */
  datatype Session = Session(status: Status, username: string, limit: nat, sid: Option<nat>, killed: bool, script: bool, tunName: bool)

  /** What has happened to a session, as far as admission goes. */
  datatype Note =
    | SecModAccepted(proc: nat)
    | Allowed(proc: nat)
    | TunNamed(proc: nat)
    | ScriptStarted(proc: nat)
    | ScriptExited(proc: nat, ok: bool)
    | Replied(proc: nat, ok: bool)

  datatype Main = Main(procs: map<nat, Session>, next: nat, book: Book, store: Store, notes: seq<Note>)

  function Say(m: Main, n: Note): Main {
    m.(notes := m.notes + [n])
  }

  function Put(m: Main, p: nat, s: Session): Main {
    m.(procs := m.procs[p := s])
  }

  // ----- what the environment decides

  /** The answer of the security module, and whether the address test that may follow is passed. */
  datatype Answer =
    | NoAnswer
    | Rejected
    | NoUsername
    | NoConfig(username: string)
    | Opened(username: string, vhost: nat, limit: nat, roaming: bool)

  datatype Script = NoScript | ScriptFailed | ScriptForked

  /** One cookie request: whether the cookie is well formed, the answer, the session id and the session
      found by it, whether this one could be entered in the table of ids, what the lease searches go by,
      what the tun device does, the script, and whether the reply and the routes go through. */
  datatype Cookie = Cookie(
    valid: bool, answer: Answer, sid: nat, previous: Option<nat>, hashed: bool, request: Request,
    tunOpens: bool, tunNamed: bool, ipv4Set: bool, ipv6Set: bool, script: Script, sent: bool, routed: bool)

  /** The session found is one that has the id. */
  ghost predicate Found(m: Main, e: Cookie) {
    match e.previous
    case None => forall q | q in m.procs :: m.procs[q].sid != Some(e.sid)
    case Some(o) => o in m.procs && m.procs[o].sid == Some(e.sid)
  }

  // ----- handlers

  /** session_open. */
  function SessionOpen(m: Main, p: nat, a: Answer): (r: (Main, bool))
    requires p in m.procs && Sound(m.store)
    ensures r.0.procs.Keys == m.procs.Keys
  {
    match a
    case NoAnswer => (m, false)
    case Rejected => (m, false)
    case NoUsername => (Say(m, SecModAccepted(p)), false)
    case NoConfig(u) => (Put(Say(m, SecModAccepted(p)), p, m.procs[p].(username := u)), false)
    case Opened(u, v, limit, roaming) =>
      var m' := Put(Say(m, SecModAccepted(p)), p, m.procs[p].(username := u, limit := limit));
      (m'.(store := Acquire(m.store, p, v)), roaming)
  }

  /** The session that has the id so far loses its leases to the new one and is told to end. */
  function TakeOver(m: Main, p: nat, o: nat): Main
    requires o in m.procs
  {
    Put(m, o, m.procs[o].(killed := true)).(book := Steal(m.book, o, p))
  }

  /** handle_auth_cookie_req. */
  function AuthCookieReq(m: Main, p: nat, e: Cookie): (r: (Main, bool))
    requires p in m.procs && Sound(m.store) && Found(m, e)
    ensures r.0.procs.Keys == m.procs.Keys
  {
    if !e.valid then (m, false) else
    var (m1, open) := SessionOpen(m, p, e.answer);
    if !open then (m1, false)
    else if e.previous.Some? && m1.procs[e.previous.value].username != m1.procs[p].username then (m1, false)
    else
      var m2 := if e.previous.Some? then TakeOver(m1, p, e.previous.value) else m1;
      if e.hashed then (Put(m2, p, m2.procs[p].(sid := Some(e.sid))), true) else (m2, false)
  }

  /** The other sessions of the same user that have not been told to end. */
  function Others(m: Main, p: nat): set<nat>
    requires p in m.procs
  {
    set q | q in m.procs && q != p && !m.procs[q].killed && m.procs[q].username == m.procs[p].username
  }

  /** check_multiple_users. */
  predicate WithinLimit(m: Main, p: nat)
    requires p in m.procs
  {
    m.procs[p].limit == 0 || |Others(m, p)| + 1 <= m.procs[p].limit
  }

  predicate HasLease(m: Main, p: nat) {
    Slot(p, V4) in m.book.held || Slot(p, V6) in m.book.held
  }

  /** open_tun. */
  function OpenTun(m: Main, p: nat, e: Cookie): (r: (Main, bool))
    requires p in m.procs
    ensures r.0.procs.Keys == m.procs.Keys
  {
    var (b, granted) := Grant(m.book, p, e.request);
    var m1 := m.(book := b);
    if !granted || !e.tunOpens || !e.tunNamed then (m1, false) else
    var m2 := Put(Say(m1, TunNamed(p)), p, m1.procs[p].(tunName := true));
    if Slot(p, V4) in m2.book.held && !e.ipv4Set then (m2, false) else
    var m3 := if e.ipv6Set then m2 else m2.(book := Drop(m2.book, Slot(p, V6)));
    (m3, HasLease(m3, p))
  }

  datatype Verdict = Go | Stop | Wait

  /** accept_user. */
  function AcceptUser(m: Main, p: nat, e: Cookie): (r: (Main, Verdict))
    requires p in m.procs
    ensures r.0.procs.Keys == m.procs.Keys
  {
    if !WithinLimit(m, p) then (m, Stop) else
    var (m1, open) := OpenTun(Say(m, Allowed(p)), p, e);
    if !open then (m1, Stop) else
    match e.script
    case NoScript => (m1, Go)
    case ScriptFailed => (m1, Stop)
    case ScriptForked => (Put(Say(m1, ScriptStarted(p)), p, m1.procs[p].(script := true)), Wait)
  }

  /** send_cookie_auth_reply: without a tun name even success is told as failure. */
  function Reply(m: Main, p: nat, ok: bool): Main
    requires p in m.procs
  {
    Say(m, Replied(p, ok && m.procs[p].tunName))
  }

  /** handle_script_exit; `code` tells that the script exited with 0. */
  function ScriptExit(m: Main, p: nat, code: bool, sent: bool, routed: bool): (r: (Main, bool))
    requires p in m.procs
    ensures r.0.procs.Keys == m.procs.Keys
  {
    var m1 := Reply(m, p, code);
    if !code then (m1, sent)
    else if !sent || !routed then (m1, false)
    else (Put(m1, p, m1.procs[p].(status := Completed)), true)
  }

  function SetStatus(m: Main, p: nat, status: Status): (r: Main)
    requires p in m.procs
    ensures r.procs.Keys == m.procs.Keys
  {
    Put(m, p, m.procs[p].(status := status))
  }

  /** handle_cookie_auth_res. */
  function CookieAuthRes(m: Main, p: nat, ok: bool, e: Cookie): (r: (Main, bool))
    requires p in m.procs
    ensures r.0.procs.Keys == m.procs.Keys
  {
    var (m1, verdict) := if ok then AcceptUser(m, p, e) else (m, Stop);
    var m2 := SetStatus(m1, p, if verdict.Go? then Completed else Failed);
    if verdict.Wait? then (m2, true) else
    var (m3, done) := ScriptExit(m2, p, verdict.Go?, e.sent, e.routed);
    (if done then m3 else SetStatus(m3, p, Failed), done)
  }

  /** remove_proc. */
  function Remove(m: Main, p: nat): Main {
    m.(procs := m.procs - {p}, book := Release(m.book, p), store := Leave(m.store, p))
  }

  /** AUTH_COOKIE_REQ: only a session nothing has been asked for yet may ask; one whose request ends in
      an error is removed. */
  function CookieCommand(m: Main, p: nat, e: Cookie): Main
    requires p in m.procs && Sound(m.store) && Found(m, e)
  {
    if !m.procs[p].status.Inactive? then Remove(m, p) else
    var (m1, ok) := AuthCookieReq(m, p, e);
    var (m2, done) := CookieAuthRes(m1, p, ok, e);
    if done then m2 else Remove(m2, p)
  }

  /** The connect script of a session ends. */
  function ScriptCommand(m: Main, p: nat, code: bool, sent: bool, routed: bool): Main
    requires p in m.procs
  {
    var m1 := Put(Say(m, ScriptExited(p, code)), p, m.procs[p].(script := false));
    var (m2, done) := ScriptExit(m1, p, code, sent, routed);
    if done then m2 else Remove(m2, p)
  }

  // ----- runs

  datatype Event =
    | Connect
    | CookieRequest(proc: nat, cookie: Cookie)
    | ScriptEnds(proc: nat, code: bool, sent: bool, routed: bool)
    | Kill(proc: nat)
    | Disconnect(proc: nat)
    | ReloadConfig(added: nat)
    | SweepAttic

  ghost predicate Enabled(m: Main, ev: Event) {
    match ev
    case CookieRequest(p, e) => p in m.procs && Found(m, e)
    case ScriptEnds(p, _, _, _) => p in m.procs && m.procs[p].script
    case Kill(p) => p in m.procs
    case Disconnect(p) => p in m.procs
    case _ => true
  }

  function Next(m: Main, ev: Event): Main
    requires Sound(m.store) && Enabled(m, ev)
  {
    match ev
    case Connect => m.(procs := m.procs[m.next := Session(Inactive, "", 0, None, false, false, false)], next := m.next + 1)
    case CookieRequest(p, e) => CookieCommand(m, p, e)
    case ScriptEnds(p, code, sent, routed) => ScriptCommand(m, p, code, sent, routed)
    case Kill(p) => Put(m, p, m.procs[p].(killed := true))
    case Disconnect(p) => Remove(m, p)
    case ReloadConfig(added) => m.(store := Reload(m.store, added))
    case SweepAttic => m.(store := Sweep(m.store))
  }

  // ----- what every step keeps

  ghost predicate NoReply(notes: seq<Note>, p: nat) {
    forall n | n in notes && n.Replied? :: n.proc != p
  }

  /** Everything a success has to be preceded by. */
  ghost predicate Cleared(notes: seq<Note>, p: nat) {
    && SecModAccepted(p) in notes && Allowed(p) in notes && TunNamed(p) in notes
    && (ScriptStarted(p) in notes ==> ScriptExited(p, true) in notes)
  }

  /** No session is replied to twice, and success is told only after everything it takes. */
  ghost predicate WellReplied(notes: seq<Note>) {
    forall i | 0 <= i < |notes| && notes[i].Replied? ::
      NoReply(notes[..i], notes[i].proc) && (notes[i].ok ==> Cleared(notes[..i], notes[i].proc))
  }

  lemma SayKeeps(notes: seq<Note>, n: Note)
    requires WellReplied(notes)
    requires n.Replied? ==> NoReply(notes, n.proc) && (n.ok ==> Cleared(notes, n.proc))
    ensures WellReplied(notes + [n])
  {
    var all := notes + [n];
    forall i | 0 <= i < |all| && all[i].Replied?
      ensures NoReply(all[..i], all[i].proc) && (all[i].ok ==> Cleared(all[..i], all[i].proc))
    {
      if i < |notes| {
        assert all[..i] == notes[..i] && all[i] == notes[i];
      } else {
        assert all[..i] == notes;
      }
    }
  }

  /** Nothing has happened to the session and it holds nothing. */
  ghost predicate Untouched(m: Main, q: nat)
    requires q in m.procs
  {
    && (forall n | n in m.notes :: n.proc != q)
    && !m.procs[q].script && m.procs[q].sid.None?
    && Slot(q, V4) !in m.book.held && Slot(q, V6) !in m.book.held && q !in m.store.users
  }

  /** The session waits for its connect script, and all else has been seen to. */
  ghost predicate Pending(m: Main, q: nat)
    requires q in m.procs
  {
    && m.procs[q].status.Failed? && m.procs[q].tunName && NoReply(m.notes, q)
    && SecModAccepted(q) in m.notes && Allowed(q) in m.notes && TunNamed(q) in m.notes
  }

  ghost predicate Regular(m: Main, q: nat)
    requires q in m.procs
  {
    && (m.procs[q].status.Inactive? ==> Untouched(m, q))
    && (m.procs[q].script ==> Pending(m, q))
  }

  /** Only sessions there are hold anything, and numbers are not used again. */
  ghost predicate Bounded(m: Main) {
    && (forall q | q in m.procs :: q < m.next)
    && (forall n | n in m.notes :: n.proc < m.next)
    && (forall s | s in m.book.held :: s.proc in m.procs)
    && (forall q | q in m.store.users :: q in m.procs)
  }

  ghost predicate Core(m: Main) {
    WellReplied(m.notes) && InOrder(m.book) && Sound(m.store) && Bounded(m)
  }

  /** All is well, except perhaps with `p`, which is being dealt with. */
  ghost predicate Loose(m: Main, p: nat) {
    Core(m) && forall q | q in m.procs && q != p :: Regular(m, q)
  }

  /** The request of `p` is being dealt with, and has not been replied to. */
  ghost predicate Midway(m: Main, p: nat) {
    Loose(m, p) && p in m.procs && NoReply(m.notes, p) && !m.procs[p].script && ScriptStarted(p) !in m.notes
  }

  ghost predicate Inv(m: Main) {
    Core(m) && forall q | q in m.procs :: Regular(m, q)
  }

  lemma InvLoose(m: Main, p: nat)
    requires Inv(m)
    ensures Loose(m, p) && Sound(m.store) && (p in m.procs ==> Regular(m, p))
  {
    hide InOrder, Sound, WellReplied;
  }

  lemma SayLoose(m: Main, p: nat, n: Note)
    requires Loose(m, p) && p in m.procs && n.proc == p
    requires n.Replied? ==> NoReply(m.notes, n.proc) && (n.ok ==> Cleared(m.notes, n.proc))
    ensures Loose(Say(m, n), p)
  {
    hide InOrder, Sound, WellReplied;
    SayKeeps(m.notes, n);
  }

  lemma PutLoose(m: Main, p: nat, s: Session)
    requires Loose(m, p) && p in m.procs
    ensures Loose(Put(m, p, s), p)
  {
    hide InOrder, Sound, WellReplied;
  }

  lemma BookLoose(m: Main, p: nat, b: Book)
    requires Loose(m, p) && p in m.procs && InOrder(b)
    requires SameBut(m.book, b, SlotsOf(p))
    ensures Loose(m.(book := b), p)
  {
    hide InOrder, Sound, WellReplied, SlotsOf;
    forall s: Slot ensures s in SlotsOf(p) <==> s.proc == p {
      SlotsOfProc(p, s);
    }
  }

  lemma TakeOverLoose(m: Main, p: nat, o: nat)
    requires Loose(m, p) && p in m.procs && o in m.procs && o != p && !m.procs[o].status.Inactive?
    requires Slot(p, V4) !in m.book.held && Slot(p, V6) !in m.book.held
    ensures Loose(TakeOver(m, p, o), p)
  {
    hide InOrder, Sound, WellReplied;
    forall s | s in m.book.held ensures s.proc != p {
      EitherFamily(s);
    }
    StealKeeps(m.book, o, p);
  }

  /** Whatever went wrong, removing the session makes all well. */
  lemma RemoveRestores(m: Main, p: nat)
    requires Loose(m, p)
    ensures Inv(Remove(m, p))
  {
    hide InOrder, Sound, WellReplied, Release, Leave;
    ReleaseKeeps(m.book, p);
    LeaveKeeps(m.store, p);
    LeaveOne(m.store, p);
  }

  lemma LeaveOne(c: Store, p: nat)
    ensures forall q :: q in Leave(c, p).users <==> q in c.users && q != p
  {
  }

  lemma AcquireLoose(m: Main, p: nat, v: nat)
    requires Loose(m, p) && p in m.procs && p !in m.store.users
    ensures Loose(m.(store := Acquire(m.store, p, v)), p)
  {
    hide InOrder, Sound, WellReplied;
    AcquireKeeps(m.store, p, v);
  }

  lemma SessionOpenKeeps(m: Main, p: nat, a: Answer)
    requires Midway(m, p) && Untouched(m, p)
    ensures var (r, ok) := SessionOpen(m, p, a);
      && Midway(r, p) && r.book == m.book && (ok ==> SecModAccepted(p) in r.notes)
      && forall q | q in m.procs && q != p :: r.procs[q] == m.procs[q]
  {
    hide Loose;
    var m1 := Say(m, SecModAccepted(p));
    SayLoose(m, p, SecModAccepted(p));
    if a.NoConfig? {
      PutLoose(m1, p, m.procs[p].(username := a.username));
    } else if a.Opened? {
      var s := m.procs[p].(username := a.username, limit := a.limit);
      PutLoose(m1, p, s);
      AcquireLoose(Put(m1, p, s), p, a.vhost);
    }
  }

  lemma AuthCookieKeeps(m: Main, p: nat, e: Cookie)
    requires Inv(m) && p in m.procs && m.procs[p].status.Inactive? && Found(m, e)
    ensures var (r, ok) := AuthCookieReq(m, p, e);
      Midway(r, p) && (ok ==> SecModAccepted(p) in r.notes)
  {
    hide InOrder, Sound, WellReplied;
    assert Untouched(m, p) && Midway(m, p);
    if e.valid {
      SessionOpenKeeps(m, p, e.answer);
      var (m1, open) := SessionOpen(m, p, e.answer);
      if open && e.previous.Some? && m1.procs[e.previous.value].username == m1.procs[p].username {
        TakeOverLoose(m1, p, e.previous.value);
      }
      var m2 := if e.previous.Some? then TakeOver(m1, p, e.previous.value) else m1;
      if open && e.hashed && (e.previous.Some? ==> m1.procs[e.previous.value].username == m1.procs[p].username) {
        PutLoose(m2, p, m2.procs[p].(sid := Some(e.sid)));
      }
    }
  }

  /** What is known of a session once its tun device has a name. */
  ghost predicate Equipped(m: Main, p: nat) {
    && p in m.procs && m.procs[p].tunName
    && SecModAccepted(p) in m.notes && Allowed(p) in m.notes && TunNamed(p) in m.notes
  }

  lemma OpenTunKeeps(m: Main, p: nat, e: Cookie)
    requires Midway(m, p) && SecModAccepted(p) in m.notes && Allowed(p) in m.notes
    ensures var (r, ok) := OpenTun(m, p, e);
      Midway(r, p) && (ok ==> Equipped(r, p))
  {
    hide Loose, InOrder, Grant, Drop;
    var m1 := m.(book := Grant(m.book, p, e.request).0);
    LooseBook(m, p);
    GrantKeeps(m.book, p, e.request);
    BookLoose(m, p, m1.book);
    SayLoose(m1, p, TunNamed(p));
    var m2 := Put(Say(m1, TunNamed(p)), p, m1.procs[p].(tunName := true));
    PutLoose(Say(m1, TunNamed(p)), p, m1.procs[p].(tunName := true));
    DropKeeps(m2.book, Slot(p, V6));
    DropOne(m2.book, Slot(p, V6));
    assert SameBut(m2.book, Drop(m2.book, Slot(p, V6)), SlotsOf(p));
    BookLoose(m2, p, Drop(m2.book, Slot(p, V6)));
  }

  lemma LooseBook(m: Main, p: nat)
    requires Loose(m, p)
    ensures InOrder(m.book)
  {
  }

  lemma AcceptUserKeeps(m: Main, p: nat, e: Cookie)
    requires Midway(m, p) && SecModAccepted(p) in m.notes
    ensures var (r, verdict) := AcceptUser(m, p, e);
      && Loose(r, p) && NoReply(r.notes, p)
      && (verdict.Wait? <==> r.procs[p].script) && (verdict.Wait? <==> ScriptStarted(p) in r.notes)
      && (verdict.Wait? || verdict.Go? ==> Equipped(r, p))
  {
    hide Loose, InOrder, OpenTun, WithinLimit;
    SayLoose(m, p, Allowed(p));
    var m0 := Say(m, Allowed(p));
    OpenTunKeeps(m0, p, e);
    var m1 := OpenTun(m0, p, e).0;
    SayLoose(m1, p, ScriptStarted(p));
    PutLoose(Say(m1, ScriptStarted(p)), p, m1.procs[p].(script := true));
  }

  /** Replying to a session that has had no reply. */
  lemma ScriptExitKeeps(m: Main, p: nat, code: bool, sent: bool, routed: bool)
    requires Loose(m, p) && p in m.procs && NoReply(m.notes, p) && !m.procs[p].script
    requires code ==> Equipped(m, p) && (ScriptStarted(p) in m.notes ==> ScriptExited(p, true) in m.notes)
    ensures var (r, done) := ScriptExit(m, p, code, sent, routed);
      && Loose(r, p) && !r.procs[p].script && (done && code ==> r.procs[p].status.Completed?)
      && (!done || !code ==> r.procs[p] == m.procs[p])
  {
    hide Loose;
    SayLoose(m, p, Replied(p, code && m.procs[p].tunName));
    var m1 := Reply(m, p, code);
    PutLoose(m1, p, m1.procs[p].(status := Completed));
  }

  lemma Settled(m: Main, p: nat)
    requires Loose(m, p) && (p in m.procs ==> Regular(m, p))
    ensures Inv(m)
  {
  }

  lemma CookieAuthResKeeps(m: Main, p: nat, ok: bool, e: Cookie)
    requires Midway(m, p) && (ok ==> SecModAccepted(p) in m.notes)
    ensures var (r, done) := CookieAuthRes(m, p, ok, e);
      Loose(r, p) && (done ==> Inv(r))
  {
    hide Loose, AcceptUser;
    if ok {
      AcceptUserKeeps(m, p, e);
    }
    var (m1, verdict) := if ok then AcceptUser(m, p, e) else (m, Stop);
    var status := if verdict.Go? then Completed else Failed;
    var m2 := SetStatus(m1, p, status);
    PutLoose(m1, p, m1.procs[p].(status := status));
    if verdict.Wait? {
      Settled(m2, p);
    } else {
      ScriptExitKeeps(m2, p, verdict.Go?, e.sent, e.routed);
      var (m3, done) := ScriptExit(m2, p, verdict.Go?, e.sent, e.routed);
      if done {
        Settled(m3, p);
      } else {
        PutLoose(m3, p, m3.procs[p].(status := Failed));
      }
    }
  }

  lemma CookieCommandKeeps(m: Main, p: nat, e: Cookie)
    requires Inv(m) && p in m.procs && Found(m, e)
    ensures Inv(CookieCommand(m, p, e))
  {
    hide Loose, Inv, AuthCookieReq, CookieAuthRes;
    InvLoose(m, p);
    if !m.procs[p].status.Inactive? {
      RemoveRestores(m, p);
    } else {
      AuthCookieKeeps(m, p, e);
      var (m1, ok) := AuthCookieReq(m, p, e);
      CookieAuthResKeeps(m1, p, ok, e);
      var (m2, done) := CookieAuthRes(m1, p, ok, e);
      if !done {
        RemoveRestores(m2, p);
      }
    }
  }

  lemma ScriptCommandKeeps(m: Main, p: nat, code: bool, sent: bool, routed: bool)
    requires Inv(m) && p in m.procs && m.procs[p].script
    ensures Inv(ScriptCommand(m, p, code, sent, routed))
  {
    hide Loose, Inv;
    InvLoose(m, p);
    SayLoose(m, p, ScriptExited(p, code));
    var m1 := Put(Say(m, ScriptExited(p, code)), p, m.procs[p].(script := false));
    PutLoose(Say(m, ScriptExited(p, code)), p, m.procs[p].(script := false));
    assert Pending(m, p);
    ScriptExitKeeps(m1, p, code, sent, routed);
    var (m2, done) := ScriptExit(m1, p, code, sent, routed);
    if done {
      Settled(m2, p);
    } else {
      RemoveRestores(m2, p);
    }
  }

  lemma StoreKeeps(m: Main, c: Store)
    requires Inv(m) && Sound(c) && c.users == m.store.users
    ensures Inv(m.(store := c))
  {
    hide InOrder, Sound, WellReplied;
  }

  /** Every step keeps everything in order. */
  lemma NextKeeps(m: Main, ev: Event)
    requires Inv(m) && Enabled(m, ev)
    ensures Inv(Next(m, ev))
  {
    match ev
    case Connect => ConnectKeeps(m);
    case CookieRequest(p, e) => CookieCommandKeeps(m, p, e);
    case ScriptEnds(p, code, sent, routed) => ScriptCommandKeeps(m, p, code, sent, routed);
    case Kill(p) => KillKeeps(m, p);
    case Disconnect(p) => RemoveRestores(m, p);
    case ReloadConfig(added) =>
      ReloadKeeps(m.store, added);
      StoreKeeps(m, Reload(m.store, added));
    case SweepAttic =>
      SweepKeeps(m.store);
      StoreKeeps(m, Sweep(m.store));
  }

  lemma ConnectKeeps(m: Main)
    requires Inv(m)
    ensures Inv(Next(m, Connect))
  {
    hide InOrder, Sound, WellReplied;
  }

  lemma KillKeeps(m: Main, p: nat)
    requires Inv(m) && p in m.procs
    ensures Inv(Next(m, Kill(p)))
  {
    hide InOrder, Sound, WellReplied;
  }

  /** At start there are no sessions; the configuration names `n` virtual hosts besides the default. */
  function Begin(n: nat): Main {
    Main(map[], 0, EMPTY, Start(n), [])
  }

  /** The events `es` can happen, one after the other, and lead from `m` to `r`. */
  ghost predicate Leads(m: Main, es: seq<Event>, r: Main)
    decreases |es|
  {
    if es == [] then r == m
    else Sound(m.store) && Enabled(m, es[0]) && Leads(Next(m, es[0]), es[1..], r)
  }

  lemma {:induction false} LeadsKeeps(m: Main, es: seq<Event>, r: Main)
    requires Inv(m) && Leads(m, es, r)
    ensures Inv(r)
    decreases |es|
  {
    hide Inv, Next, Sound;
    if es != [] {
      NextKeeps(m, es[0]);
      LeadsKeeps(Next(m, es[0]), es[1..], r);
    }
  }

  lemma BeginInv(n: nat)
    ensures Inv(Begin(n))
  {
    hide Sound, Start;
    StartSound(n);
  }

  lemma EveryRunKeeps(n: nat, es: seq<Event>, r: Main)
    requires Leads(Begin(n), es, r)
    ensures Inv(r)
  {
    BeginInv(n);
    LeadsKeeps(Begin(n), es, r);
  }

  /** After every run the lease table is exactly the pool leases of the sessions there are, each held
      by one session, and no two with the same signature. */
  lemma LeasesOfEveryRun(n: nat, es: seq<Event>, r: Main)
    requires Leads(Begin(n), es, r)
    ensures Entered(r.book) && Owned(r.book) && OneOwner(r.book) && DistinctSignatures(r.book)
    ensures forall s | s in r.book.held :: s.proc in r.procs
  {
    EveryRunKeeps(n, es, r);
  }

  /** After every run a configuration's count is the number of sessions that count in it, none of them
      is left with one that is gone, and a sweep frees the archived ones that have no session. */
  lemma ConfigsOfEveryRun(n: nat, es: seq<Event>, r: Main)
    requires Leads(Begin(n), es, r)
    ensures forall k | k in r.store.counts :: r.store.counts[k] == |Users(r.store.users, k)|
    ensures forall p | p in r.store.users :: p in r.procs && r.store.users[p] in r.store.counts
    ensures forall k | k in r.store.attic :: k in Sweep(r.store).counts <==> Users(r.store.users, k) != {}
  {
    hide Users, Sweep, WellReplied, InOrder;
    EveryRunKeeps(n, es, r);
    SweepKeeps(r.store);
    forall k ensures Users(r.store.users, k) != {} <==> exists p | p in r.store.users :: r.store.users[p] == k {
      NoUsers(r.store.users, k);
    }
  }

  /** After every run two pool leases overlap exactly when the smaller subnet starts inside the larger
      one; in particular leases of equal prefix never do. */
  lemma BlocksOfEveryRun(n: nat, es: seq<Event>, r: Main, s: Slot, t: Slot)
    requires Leads(Begin(n), es, r) && s in r.book.held && t in r.book.held && s != t && s.family.V6? && t.family.V6?
    requires r.book.held[s].pooled && r.book.held[t].pooled && r.book.held[s].prefix <= r.book.held[t].prefix
    ensures Overlap(r.book.held[s], r.book.held[t])
            <==> r.book.held[s].prefix < r.book.held[t].prefix && StartsInside(r.book.held[t], r.book.held[s])
  {
    hide Sound, InOrder, Overlap, StartsInside;
    EveryRunKeeps(n, es, r);
    BlocksOverlapExactly(r.book, s, t);
  }

  /** In every run a session is replied to at most once; success only after the security module
      accepted it, the check for other sessions of the user let it pass, its tun device had a name, and
      its connect script, if one was started, exited with 0; and no session is both admitted and waiting
      for its script. */
  lemma RepliesOfEveryRun(n: nat, es: seq<Event>, r: Main)
    requires Leads(Begin(n), es, r)
    ensures forall i, j | 0 <= i < j < |r.notes| && r.notes[i].Replied? && r.notes[j].Replied? :: r.notes[i].proc != r.notes[j].proc
    ensures forall i, p | 0 <= i < |r.notes| && r.notes[i] == Replied(p, true) :: Cleared(r.notes[..i], p)
    ensures forall p | p in r.procs :: !(r.procs[p].script && r.procs[p].status.Completed?)
  {
    hide InOrder, Sound;
    EveryRunKeeps(n, es, r);
    forall i, j | 0 <= i < j < |r.notes| && r.notes[i].Replied? && r.notes[j].Replied?
      ensures r.notes[i].proc != r.notes[j].proc
    {
      assert r.notes[i] in r.notes[..j];
    }
  }

  // ----- the limit on sessions of one user

  /** The sessions of `u` that passed the check and have not been told to end. */
  ghost function Admitted(m: Main, u: string): set<nat> {
    set q | q in m.procs && m.procs[q].username == u && !m.procs[q].killed && Allowed(q) in m.notes
  }

  /** From `m` to `r` no user name changes, none is brought back, and none passes the check. */
  ghost predicate Quiet(m: Main, r: Main) {
    && (forall q | q in r.procs :: q in m.procs && r.procs[q].username == m.procs[q].username && (m.procs[q].killed ==> r.procs[q].killed))
    && (forall q :: Allowed(q) in r.notes ==> Allowed(q) in m.notes)
  }

  lemma QuietAdmitted(m: Main, r: Main, u: string)
    requires Quiet(m, r)
    ensures |Admitted(r, u)| <= |Admitted(m, u)|
  {
    SubsetSize(Admitted(r, u), Admitted(m, u));
  }

  lemma {:induction false} SubsetSize(a: set<nat>, b: set<nat>)
    requires a <= b
    ensures |a| <= |b|
  {
    if x :| x in a {
      SubsetSize(a - {x}, b - {x});
    }
  }

  lemma QuietSelf(m: Main)
    ensures Quiet(m, m)
  {
  }

  lemma QuietRemove(m: Main, p: nat)
    ensures Quiet(m, Remove(m, p))
  {
    hide Release, Leave;
  }

  lemma QuietSay(m: Main, n: Note)
    requires !n.Allowed?
    ensures Quiet(m, Say(m, n))
  {
  }

  lemma QuietPut(m: Main, p: nat, s: Session)
    requires p in m.procs && s.username == m.procs[p].username && s.killed == m.procs[p].killed
    ensures Quiet(m, Put(m, p, s))
  {
  }

  lemma QuietChain(m: Main, m': Main, r: Main)
    requires Quiet(m, m') && Quiet(m', r)
    ensures Quiet(m, r)
  {
  }

  lemma OpenTunQuiet(m: Main, p: nat, e: Cookie)
    requires p in m.procs
    ensures Quiet(m, OpenTun(m, p, e).0)
  {
    hide Grant;
    var m1 := m.(book := Grant(m.book, p, e.request).0);
    var m2 := Say(m1, TunNamed(p));
    var s := m1.procs[p].(tunName := true);
    QuietSay(m1, TunNamed(p));
    QuietPut(m2, p, s);
    QuietChain(m1, m2, Put(m2, p, s));
  }

  lemma AcceptUserQuiet(m: Main, p: nat, e: Cookie)
    requires p in m.procs
    ensures var r := AcceptUser(m, p, e).0;
      if WithinLimit(m, p) then Quiet(Say(m, Allowed(p)), r) else r == m
  {
    hide OpenTun, Quiet, WithinLimit;
    if WithinLimit(m, p) {
      var m0 := Say(m, Allowed(p));
      OpenTunQuiet(m0, p, e);
      var m1 := OpenTun(m0, p, e).0;
      var m2 := Say(m1, ScriptStarted(p));
      var s := m1.procs[p].(script := true);
      QuietSay(m1, ScriptStarted(p));
      QuietPut(m2, p, s);
      QuietChain(m0, m1, m2);
      QuietChain(m0, m2, Put(m2, p, s));
    }
  }

  lemma ScriptExitQuiet(m: Main, p: nat, code: bool, sent: bool, routed: bool)
    requires p in m.procs
    ensures Quiet(m, ScriptExit(m, p, code, sent, routed).0)
  {
    hide Quiet;
    var m1 := Reply(m, p, code);
    var s := m1.procs[p].(status := Completed);
    QuietSay(m, Replied(p, code && m.procs[p].tunName));
    QuietPut(m1, p, s);
    QuietChain(m, m1, Put(m1, p, s));
  }

  lemma CookieAuthResQuiet(m: Main, p: nat, ok: bool, e: Cookie)
    requires p in m.procs
    ensures var r := CookieAuthRes(m, p, ok, e).0;
      Quiet(if ok && WithinLimit(m, p) then Say(m, Allowed(p)) else m, r)
  {
    hide AcceptUser, Quiet, WithinLimit, ScriptExit;
    var m0 := if ok && WithinLimit(m, p) then Say(m, Allowed(p)) else m;
    AcceptUserQuiet(m, p, e);
    QuietSelf(m);
    var (m1, verdict) := if ok then AcceptUser(m, p, e) else (m, Stop);
    var status := if verdict.Go? then Completed else Failed;
    var m2 := SetStatus(m1, p, status);
    QuietPut(m1, p, m1.procs[p].(status := status));
    QuietChain(m0, m1, m2);
    ScriptExitQuiet(m2, p, verdict.Go?, e.sent, e.routed);
    var m3 := ScriptExit(m2, p, verdict.Go?, e.sent, e.routed).0;
    QuietChain(m0, m2, m3);
    QuietPut(m3, p, m3.procs[p].(status := Failed));
    QuietChain(m0, m3, SetStatus(m3, p, Failed));
  }

  /** Like Quiet, but the user name of `p` may change. */
  ghost predicate QuietBut(m: Main, r: Main, p: nat) {
    && (forall q | q in r.procs && q != p ::
          q in m.procs && r.procs[q].username == m.procs[q].username && (m.procs[q].killed ==> r.procs[q].killed))
    && (forall q :: Allowed(q) in r.notes ==> Allowed(q) in m.notes)
  }

  lemma SessionOpenQuiet(m: Main, p: nat, a: Answer)
    requires p in m.procs && Sound(m.store)
    ensures var (r, ok) := SessionOpen(m, p, a);
      && QuietBut(m, r, p)
      && (ok ==> a.Opened? && r.procs[p].username == a.username && r.procs[p].limit == a.limit)
  {
    hide Sound, Acquire;
  }

  lemma TakeOverQuiet(m: Main, p: nat, o: nat)
    requires o in m.procs
    ensures Quiet(m, TakeOver(m, p, o))
    ensures TakeOver(m, p, o).procs.Keys == m.procs.Keys
    ensures forall q | q in m.procs && q != o :: TakeOver(m, p, o).procs[q] == m.procs[q]
  {
    hide Steal;
  }

  lemma QuietIsBut(m: Main, m': Main, r: Main, p: nat)
    requires Quiet(m', r) && (m == m' || QuietBut(m, m', p))
    ensures QuietBut(m, r, p)
  {
  }

  /** Opening a session admits nobody; what it leaves is the user name and the limit it was given. */
  lemma AuthCookieQuiet(m: Main, p: nat, e: Cookie)
    requires p in m.procs && Sound(m.store) && Found(m, e) && m.procs[p].sid.None?
    ensures var (r, ok) := AuthCookieReq(m, p, e);
      && QuietBut(m, r, p)
      && (ok ==> e.answer.Opened? && r.procs[p].username == e.answer.username && r.procs[p].limit == e.answer.limit)
  {
    hide Sound, SessionOpen, TakeOver, Quiet, QuietBut;
    QuietSelf(m);
    QuietIsBut(m, m, m, p);
    if e.valid {
      SessionOpenQuiet(m, p, e.answer);
      var (m1, open) := SessionOpen(m, p, e.answer);
      QuietSelf(m1);
      if e.previous.Some? {
        TakeOverQuiet(m1, p, e.previous.value);
      }
      var m2 := if e.previous.Some? then TakeOver(m1, p, e.previous.value) else m1;
      QuietIsBut(m, m1, m2, p);
      QuietPut(m2, p, m2.procs[p].(sid := Some(e.sid)));
      QuietIsBut(m, m2, Put(m2, p, m2.procs[p].(sid := Some(e.sid))), p);
    }
  }

  lemma AuthCookieAdmits(m: Main, p: nat, e: Cookie, u: string)
    requires Inv(m) && p in m.procs && m.procs[p].status.Inactive? && Found(m, e)
    ensures var (r, ok) := AuthCookieReq(m, p, e);
      && Admitted(r, u) <= Admitted(m, u)
      && (ok ==> e.answer.Opened? && r.procs[p].username == e.answer.username && r.procs[p].limit == e.answer.limit)
  {
    hide Inv, Sound, AuthCookieReq, Pending;
    InvLoose(m, p);
    assert Untouched(m, p);
    AuthCookieQuiet(m, p, e);
    assert Allowed(p) !in m.notes;
  }

  /** Passing the check leaves no more than `limit` sessions of the user. */
  lemma CheckAdmits(m: Main, p: nat, u: string, limit: nat)
    requires p in m.procs && WithinLimit(m, p) && 0 < limit && |Admitted(m, u)| <= limit
    requires m.procs[p].username == u ==> m.procs[p].limit == limit
    ensures |Admitted(Say(m, Allowed(p)), u)| <= limit
  {
    var after := Admitted(Say(m, Allowed(p)), u);
    if m.procs[p].username == u {
      SubsetSize(after, Others(m, p) + {p});
    } else {
      SubsetSize(after, Admitted(m, u));
    }
  }

  /** Whoever opens a session for `u` does so with the limit `limit`. */
  predicate CarriesLimit(ev: Event, u: string, limit: nat) {
    ev.CookieRequest? && ev.cookie.answer.Opened? && ev.cookie.answer.username == u ==> ev.cookie.answer.limit == limit
  }

  lemma CookieAdmits(m: Main, p: nat, e: Cookie, u: string, limit: nat)
    requires Inv(m) && p in m.procs && Found(m, e) && 0 < limit && CarriesLimit(CookieRequest(p, e), u, limit)
    requires |Admitted(m, u)| <= limit
    ensures |Admitted(CookieCommand(m, p, e), u)| <= limit
  {
    hide AuthCookieReq, CookieAuthRes, Inv, WithinLimit, Admitted, Quiet, Remove, Sound;
    InvLoose(m, p);
    if !m.procs[p].status.Inactive? {
      QuietRemove(m, p);
      QuietAdmitted(m, Remove(m, p), u);
    } else {
      AuthCookieAdmits(m, p, e, u);
      var (m1, ok) := AuthCookieReq(m, p, e);
      SubsetSize(Admitted(m1, u), Admitted(m, u));
      CookieAuthResQuiet(m1, p, ok, e);
      var m0 := if ok && WithinLimit(m1, p) then Say(m1, Allowed(p)) else m1;
      if ok && WithinLimit(m1, p) {
        CheckAdmits(m1, p, u, limit);
      }
      var m2 := CookieAuthRes(m1, p, ok, e).0;
      QuietAdmitted(m0, m2, u);
      QuietRemove(m2, p);
      QuietAdmitted(m2, Remove(m2, p), u);
    }
  }

  lemma ScriptAdmits(m: Main, p: nat, code: bool, sent: bool, routed: bool, u: string)
    requires p in m.procs
    ensures |Admitted(ScriptCommand(m, p, code, sent, routed), u)| <= |Admitted(m, u)|
  {
    hide ScriptExit, Admitted, Quiet, Remove;
    var m0 := Say(m, ScriptExited(p, code));
    var s := m.procs[p].(script := false);
    QuietSay(m, ScriptExited(p, code));
    QuietPut(m0, p, s);
    QuietChain(m, m0, Put(m0, p, s));
    ScriptExitQuiet(Put(m0, p, s), p, code, sent, routed);
    var m2 := ScriptExit(Put(m0, p, s), p, code, sent, routed).0;
    QuietChain(m, Put(m0, p, s), m2);
    QuietAdmitted(m, m2, u);
    QuietRemove(m2, p);
    QuietAdmitted(m2, Remove(m2, p), u);
  }

  lemma ConnectAdmits(m: Main, u: string)
    requires Inv(m)
    ensures Admitted(Next(m, Connect), u) == Admitted(m, u)
  {
    hide InOrder, Sound, WellReplied;
  }

  lemma NextAdmits(m: Main, ev: Event, u: string, limit: nat)
    requires Inv(m) && Enabled(m, ev) && 0 < limit && CarriesLimit(ev, u, limit) && |Admitted(m, u)| <= limit
    ensures |Admitted(Next(m, ev), u)| <= limit
  {
    hide Inv, Sound, Admitted, CookieCommand, ScriptCommand, Remove, Reload, Sweep;
    InvLoose(m, 0);
    match ev
    case CookieRequest(p, e) => CookieAdmits(m, p, e, u, limit);
    case ScriptEnds(p, code, sent, routed) => ScriptAdmits(m, p, code, sent, routed, u);
    case Connect => ConnectAdmits(m, u);
    case Disconnect(p) =>
      QuietRemove(m, p);
      QuietAdmitted(m, Remove(m, p), u);
    case _ =>
      assert Quiet(m, Next(m, ev));
      QuietAdmitted(m, Next(m, ev), u);
  }

  lemma {:induction false} LeadsAdmits(m: Main, es: seq<Event>, r: Main, u: string, limit: nat)
    requires Inv(m) && Leads(m, es, r) && 0 < limit && |Admitted(m, u)| <= limit
    requires forall ev | ev in es :: CarriesLimit(ev, u, limit)
    ensures |Admitted(r, u)| <= limit
    decreases |es|
  {
    hide Inv, Next, Sound, Admitted;
    if es != [] {
      NextKeeps(m, es[0]);
      NextAdmits(m, es[0], u, limit);
      LeadsAdmits(Next(m, es[0]), es[1..], r, u, limit);
    }
  }

  /** If all sessions of a user come with the same limit, then after every run at most so many of them
      are there, admitted and not told to end. */
  lemma LimitOfEveryRun(n: nat, es: seq<Event>, r: Main, u: string, limit: nat)
    requires Leads(Begin(n), es, r) && 0 < limit && forall ev | ev in es :: CarriesLimit(ev, u, limit)
    ensures |Admitted(r, u)| <= limit
  {
    BeginInv(n);
    LeadsAdmits(Begin(n), es, r, u, limit);
  }
}
