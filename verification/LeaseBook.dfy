/** Who owns which lease: the lease table of src/ip-lease.c and the leases the sessions hold. */
module LeaseBook {
  import opened IpPool

  datatype Family = V4 | V6

  /** Where a session keeps a lease: its ipv4 or its ipv6 field. */
  datatype Slot = Slot(proc: nat, family: Family)

  /** A lease; `id` tells apart leases that are otherwise equal, as their addresses in memory do. */
  datatype Lease = Lease(id: nat, sig: Address, prefix: nat, pooled: bool)

  /** What the sessions hold, and the table: the leases entered in it, by the signature each was
      entered under. */
  datatype Book = Book(held: map<Slot, Lease>, table: map<nat, Address>, next: nat)

  const EMPTY := Book(map[], map[], 0)

  function Enter(b: Book, s: Slot, o: Outcome): Book
    requires o.Leased?
  {
    var l := Lease(b.next, o.sig, o.prefix, o.pooled);
    Book(b.held[s := l], if o.pooled then b.table[b.next := o.sig] else b.table, b.next + 1)
  }

  /** What the two searches go by: the configured networks, the addresses asked for, the bytes drawn
      and the hosts that answer. */
  datatype Request = Request(
    network4: Given<Quad>, netmask: Given<Quad>, explicit4: Given<Quad>, draw4: nat -> Quad, answers: Address -> bool,
    network6: Given<Wide>, prefix: nat, subnetPrefix: nat, explicit6: Given<Wide>, draw6: nat -> Wide)

  function Search(b: Book, r: Request, f: Family): Outcome {
    match f
    case V4 => Lease4(b.table.Values, r.network4, r.netmask, r.explicit4, r.draw4, r.answers)
    case V6 => Lease6(b.table.Values, r.network6, r.prefix, r.subnetPrefix, r.explicit6, r.draw6)
  }

  /** One family of get_ip_leases: nothing to do when the session has a lease already. */
  function Settle(b: Book, s: Slot, r: Request): (Book, bool) {
    if s in b.held then (b, true) else
    match Search(b, r, s.family)
    case NoLease => (b, true)
    case Refused => (b, false)
    case Leased(_, _, _, _, _) => (Enter(b, s, Search(b, r, s.family)), true)
  }

  /** What get_ip_leases leaves. */
  function Grant(b: Book, p: nat, r: Request): (Book, bool) {
    var (b4, ok4) := Settle(b, Slot(p, V4), r);
    if !ok4 then (b4, false) else
    var (b6, ok6) := Settle(b4, Slot(p, V6), r);
    (b6, ok6 && (Slot(p, V4) in b6.held || Slot(p, V6) in b6.held))
  }

  /** A session loses the lease in a slot, and the lease goes. */
  function Drop(b: Book, s: Slot): Book {
    if s !in b.held then b
    else Book(b.held - {s}, if b.held[s].pooled then b.table - {b.held[s].id} else b.table, b.next)
  }

  function Release(b: Book, p: nat): Book {
    Drop(Drop(b, Slot(p, V4)), Slot(p, V6))
  }

  /** Both fields of `thief` become those of `victim`, which keeps nothing. */
  function Steal(b: Book, victim: nat, thief: nat): Book {
    b.(held := map s | s in MovedSlots(b, victim, thief) :: if s.proc == thief then b.held[Slot(victim, s.family)] else b.held[s])
  }

  lemma EitherFamily(s: Slot)
    ensures s == Slot(s.proc, V4) || s == Slot(s.proc, V6)
  {
    match s.family
    case V4 =>
    case V6 =>
  }

  function MovedSlots(b: Book, victim: nat, thief: nat): (r: set<Slot>)
    ensures forall s :: s in r <==> if s.proc == thief then Slot(victim, s.family) in b.held else s in b.held && s.proc != victim
  {
    (set s | s in b.held && s.proc != victim && s.proc != thief) +
    (set s | s in b.held && s.proc == victim :: Slot(thief, s.family))
  }

  /** The lease table and the sessions' fields, as the program updates them. */
  class LeaseDb {
    var held: map<Slot, Lease>
    var table: map<nat, Address>
    var next: nat

    ghost function Contents(): Book
      reads this
    {
      Book(held, table, next)
    }

    /** ip_lease_init. */
    constructor ()
      ensures Contents() == EMPTY
    {
      held, table, next := map[], map[], 0;
    }

    method Insert(s: Slot, o: Outcome)
      requires o.Leased?
      modifies this
      ensures Contents() == Enter(old(Contents()), s, o)
    {
      var l := Lease(next, o.sig, o.prefix, o.pooled);
      held := held[s := l];
      if o.pooled {
        table := table[l.id := l.sig];
      }
      next := next + 1;
    }

    /** get_ip_leases. */
    method GetIpLeases(p: nat, r: Request) returns (ok: bool)
      modifies this
      ensures (Contents(), ok) == Grant(old(Contents()), p, r)
    {
      var o;
      if Slot(p, V4) !in held {
        o := GetIpv4Lease(table.Values, r.network4, r.netmask, r.explicit4, r.draw4, r.answers);
        if o.Refused? {
          return false;
        }
        if o.Leased? {
          Insert(Slot(p, V4), o);
        }
      }
      if Slot(p, V6) !in held {
        o := GetIpv6Lease(table.Values, r.network6, r.prefix, r.subnetPrefix, r.explicit6, r.draw6);
        if o.Refused? {
          return false;
        }
        if o.Leased? {
          Insert(Slot(p, V6), o);
        }
      }
      return Slot(p, V4) in held || Slot(p, V6) in held;
    }

    /** Freeing a lease runs unref_ip_lease, which takes it out of the table it was entered in. */
    method Free(s: Slot)
      modifies this
      ensures Contents() == Drop(old(Contents()), s)
    {
      if s in held {
        if held[s].pooled {
          table := table - {held[s].id};
        }
        held := held - {s};
      }
    }

    /** remove_ip_leases. */
    method RemoveIpLeases(p: nat)
      modifies this
      ensures Contents() == Release(old(Contents()), p)
    {
      Free(Slot(p, V4));
      Free(Slot(p, V6));
    }

    method Move(f: Family, victim: nat, thief: nat)
      requires victim != thief
      modifies this
      ensures table == old(table) && next == old(next)
      ensures forall s :: s in held <==>
                if s == Slot(thief, f) then Slot(victim, f) in old(held) else s in old(held) && s != Slot(victim, f)
      ensures forall s | s in held :: held[s] == old(held)[if s == Slot(thief, f) then Slot(victim, f) else s]
    {
      if Slot(victim, f) in held {
        held := held[Slot(thief, f) := held[Slot(victim, f)]] - {Slot(victim, f)};
      } else {
        held := held - {Slot(thief, f)};
      }
    }

    /** steal_ip_leases. */
    method StealIpLeases(victim: nat, thief: nat)
      requires victim != thief
      modifies this
      ensures Contents() == Steal(old(Contents()), victim, thief)
    {
      Move(V4, victim, thief);
      Move(V6, victim, thief);
      ghost var after := Steal(old(Contents()), victim, thief).held;
      forall s ensures s in held <==> s in after {
        EitherFamily(s);
      }
      forall s | s in held ensures held[s] == after[s] {
        EitherFamily(s);
      }
    }
  }

  // ----- what every step keeps

  /** Every pool lease a session holds is in the table, under its signature. */
  ghost predicate Entered(b: Book) {
    forall s | s in b.held && b.held[s].pooled :: b.held[s].id in b.table && b.table[b.held[s].id] == b.held[s].sig
  }

  /** Every lease in the table is a pool lease some session holds. */
  ghost predicate Owned(b: Book) {
    forall i | i in b.table :: exists s | s in b.held :: b.held[s].pooled && b.held[s].id == i
  }

  /** No lease is held twice. */
  ghost predicate OneOwner(b: Book) {
    && (forall s | s in b.held :: b.held[s].id < b.next)
    && (forall s, t | s in b.held && t in b.held && b.held[s].id == b.held[t].id :: s == t)
  }

  /** No two leases in the table have the same signature. */
  ghost predicate DistinctSignatures(b: Book) {
    forall i, j | i in b.table && j in b.table && b.table[i] == b.table[j] :: i == j
  }

  /** The signature of an IPv6 lease is the address its subnet starts at. */
  ghost predicate SubnetSignatures(b: Book) {
    forall s | s in b.held && s.family.V6? :: Aligned(b.held[s].sig, b.held[s].prefix)
  }

  predicate Aligned(sig: Address, prefix: nat) {
    |sig| == 16 && And(sig, PrefixMask(prefix)) == sig
  }

  ghost predicate InOrder(b: Book) {
    Entered(b) && Owned(b) && OneOwner(b) && DistinctSignatures(b) && SubnetSignatures(b)
  }

  lemma EnterOwned(b: Book, s: Slot, o: Outcome)
    requires Owned(b) && s !in b.held && o.Leased?
    ensures Owned(Enter(b, s, o))
  {
    var c := Enter(b, s, o);
    forall i | i in c.table ensures exists t | t in c.held :: c.held[t].pooled && c.held[t].id == i {
      if i == b.next && o.pooled {
        assert c.held[s].id == i;
      } else {
        var t :| t in b.held && b.held[t].pooled && b.held[t].id == i;
        assert c.held[t] == b.held[t];
      }
    }
  }

  lemma EnterKeeps(b: Book, s: Slot, o: Outcome)
    requires InOrder(b) && s !in b.held && o.Leased? && (o.pooled ==> o.sig !in b.table.Values)
    requires s.family.V6? ==> Aligned(o.sig, o.prefix)
    ensures InOrder(Enter(b, s, o))
  {
    hide Owned, Aligned;
    EnterOwned(b, s, o);
  }

  lemma SettleKeeps(b: Book, s: Slot, r: Request)
    requires InOrder(b)
    ensures InOrder(Settle(b, s, r).0)
    ensures SameBut(b, Settle(b, s, r).0, {s})
  {
    hide Lease4, Lease6, InOrder, Enter, And, SameBut;
    NothingBut(b, s);
    Lease4Sound(b.table.Values, r.network4, r.netmask, r.explicit4, r.draw4, r.answers);
    Lease6Sound(b.table.Values, r.network6, r.prefix, r.subnetPrefix, r.explicit6, r.draw6);
    var o := Search(b, r, s.family);
    if s !in b.held && o.Leased? {
      if s.family.V6? {
        MasksNest(o.rip, o.prefix, o.prefix);
      }
      EnterKeeps(b, s, o);
      EnterOne(b, s, o);
    }
  }

  /** Outside the slots `at` the sessions hold the very same leases. */
  ghost predicate SameBut(b: Book, c: Book, at: set<Slot>) {
    forall t | t !in at :: (t in c.held <==> t in b.held) && (t in b.held ==> c.held[t] == b.held[t])
  }

  lemma NothingBut(b: Book, s: Slot)
    ensures SameBut(b, b, {s})
  {
  }

  lemma EnterOne(b: Book, s: Slot, o: Outcome)
    requires o.Leased?
    ensures SameBut(b, Enter(b, s, o), {s})
  {
  }

  lemma DropOne(b: Book, s: Slot)
    ensures SameBut(b, Drop(b, s), {s})
  {
  }

  /** The two slots of a session. */
  function SlotsOf(p: nat): set<Slot> {
    {Slot(p, V4), Slot(p, V6)}
  }

  lemma SlotsOfProc(p: nat, s: Slot)
    ensures s in SlotsOf(p) <==> s.proc == p
  {
    EitherFamily(s);
  }

  /** get_ip_leases keeps the book in order, also when it fails half way, and touches no one else. */
  lemma GrantKeeps(b: Book, p: nat, r: Request)
    requires InOrder(b)
    ensures InOrder(Grant(b, p, r).0)
    ensures SameBut(b, Grant(b, p, r).0, SlotsOf(p))
  {
    hide InOrder, Settle;
    SettleKeeps(b, Slot(p, V4), r);
    SettleKeeps(Settle(b, Slot(p, V4), r).0, Slot(p, V6), r);
  }

  lemma DropOwned(b: Book, s: Slot)
    requires Owned(b)
    ensures Owned(Drop(b, s))
  {
    var c := Drop(b, s);
    forall i | i in c.table ensures exists t | t in c.held :: c.held[t].pooled && c.held[t].id == i {
      var t :| t in b.held && b.held[t].pooled && b.held[t].id == i;
      assert t in c.held;
    }
  }

  lemma DropKeeps(b: Book, s: Slot)
    requires InOrder(b)
    ensures InOrder(Drop(b, s))
  {
    hide Owned;
    DropOwned(b, s);
  }

  lemma ReleaseKeeps(b: Book, p: nat)
    requires InOrder(b)
    ensures InOrder(Release(b, p))
    ensures SameBut(b, Release(b, p), SlotsOf(p)) && forall s | s in Release(b, p).held :: s.proc != p
  {
    hide InOrder;
    DropKeeps(b, Slot(p, V4));
    DropKeeps(Drop(b, Slot(p, V4)), Slot(p, V6));
    forall s | s in Release(b, p).held ensures s.proc != p {
      EitherFamily(s);
    }
  }

  lemma StealOwned(b: Book, victim: nat, thief: nat)
    requires Owned(b) && victim != thief && forall s | s in b.held && s.proc == thief :: !b.held[s].pooled
    ensures Owned(Steal(b, victim, thief))
  {
    var c := Steal(b, victim, thief);
    forall i | i in c.table ensures exists t | t in c.held :: c.held[t].pooled && c.held[t].id == i {
      var t :| t in b.held && b.held[t].pooled && b.held[t].id == i;
      var u := if t.proc == victim then Slot(thief, t.family) else t;
      assert u in c.held && c.held[u] == b.held[t];
    }
  }

  /** A pool lease of the thief's is lost: it stays in the table and nobody owns it. */
  lemma StealOrphans(b: Book, victim: nat, thief: nat, s: Slot)
    requires Entered(b) && OneOwner(b) && victim != thief && s in b.held && s.proc == thief && b.held[s].pooled
    ensures !Owned(Steal(b, victim, thief))
  {
    assert b.held[s].id in Steal(b, victim, thief).table;
  }

  lemma StealInOrder(b: Book, victim: nat, thief: nat)
    requires InOrder(b) && victim != thief && forall s | s in b.held && s.proc == thief :: !b.held[s].pooled
    ensures InOrder(Steal(b, victim, thief))
  {
    hide Owned;
    StealOwned(b, victim, thief);
  }

  /** Stealing keeps the book in order exactly when the thief has no pool lease to lose. */
  lemma StealKeeps(b: Book, victim: nat, thief: nat)
    requires InOrder(b) && victim != thief
    ensures InOrder(Steal(b, victim, thief)) <==> forall s | s in b.held && s.proc == thief :: !b.held[s].pooled
  {
    hide Owned, Entered, OneOwner, DistinctSignatures, Steal;
    if s :| s in b.held && s.proc == thief && b.held[s].pooled {
      StealOrphans(b, victim, thief, s);
    } else {
      StealInOrder(b, victim, thief);
    }
  }

  // ----- what a step gives

  /** What a session has in a slot once get_ip_leases got to it: what it had, or what the search found. */
  lemma SettleGives(b: Book, s: Slot, r: Request)
    ensures var (c, ok), o := Settle(b, s, r), Search(b, r, s.family);
      && (ok <==> s in b.held || !o.Refused?) && (s in c.held <==> s in b.held || o.Leased?)
      && (s in b.held || !o.Leased? ==> c == b)
      && (s !in b.held && o.Leased? ==> c.held[s] == Lease(b.next, o.sig, o.prefix, o.pooled))
      && (s !in b.held && o.Leased? && o.pooled ==> b.next in c.table && c.table[b.next] == o.sig)
  {
    hide Search;
  }

  /** get_ip_leases succeeds exactly when neither search that is needed fails, and there is a lease in the
      end: one the session had, or one that was found. */
  lemma GrantGives(b: Book, p: nat, r: Request)
    ensures var (c, ok), b4 := Grant(b, p, r), Settle(b, Slot(p, V4), r).0;
      var had4, had6, o4, o6 := Slot(p, V4) in b.held, Slot(p, V6) in b.held, Search(b, r, V4), Search(b4, r, V6);
      && (ok <==> (had4 || !o4.Refused?) && (had6 || !o6.Refused?) && (had4 || had6 || o4.Leased? || o6.Leased?))
      && (Slot(p, V4) in c.held <==> had4 || o4.Leased?)
      && (Slot(p, V6) in c.held <==> had6 || (o6.Leased? && (had4 || !o4.Refused?)))
      && (!had4 && o4.Leased? ==> c.held[Slot(p, V4)] == Lease(b.next, o4.sig, o4.prefix, o4.pooled))
      && (!had6 && Slot(p, V6) in c.held ==> c.held[Slot(p, V6)] == Lease(b4.next, o6.sig, o6.prefix, o6.pooled))
  {
    hide Settle, Search, SameBut;
    var b4 := Settle(b, Slot(p, V4), r).0;
    SettleGives(b, Slot(p, V4), r);
    SettleGives(b4, Slot(p, V6), r);
    SettleOne(b, Slot(p, V4), r, Slot(p, V6));
    SettleOne(b4, Slot(p, V6), r, Slot(p, V4));
  }

  lemma SettleOne(b: Book, s: Slot, r: Request, t: Slot)
    requires s != t
    ensures var c := Settle(b, s, r).0;
      (t in c.held <==> t in b.held) && (t in b.held ==> c.held[t] == b.held[t])
  {
    hide Search;
  }

  /** The thief ends with the very leases the victim had, and the victim with none. */
  lemma StealMoves(b: Book, victim: nat, thief: nat, f: Family)
    requires victim != thief
    ensures var c := Steal(b, victim, thief);
      && (Slot(thief, f) in c.held <==> Slot(victim, f) in b.held)
      && (Slot(victim, f) in b.held ==> c.held[Slot(thief, f)] == b.held[Slot(victim, f)])
      && Slot(victim, f) !in c.held && c.table == b.table
    ensures SameBut(b, Steal(b, victim, thief), SlotsOf(victim) + SlotsOf(thief))
  {
    hide SlotsOf;
    forall s ensures s in SlotsOf(victim) + SlotsOf(thief) <==> s.proc == victim || s.proc == thief {
      SlotsOfProc(victim, s);
      SlotsOfProc(thief, s);
    }
  }

  // ----- blocks

  /** The addresses an IPv6 lease covers. */
  predicate Covers(l: Lease, a: Wide) {
    And(a, PrefixMask(l.prefix)) == l.sig
  }

  ghost predicate Overlap(l: Lease, k: Lease) {
    exists a: Wide :: Covers(l, a) && Covers(k, a)
  }

  /** The subnet of `k` starts inside that of `l`. */
  predicate StartsInside(k: Lease, l: Lease) {
    |k.sig| == 16 && Covers(l, k.sig)
  }

  /** Two IPv6 leases have an address in common exactly when the smaller subnet starts inside the
      larger one. */
  lemma OverlapExactly(l: Lease, k: Lease)
    requires Aligned(l.sig, l.prefix) && Aligned(k.sig, k.prefix) && l.prefix <= k.prefix
    ensures Overlap(l, k) <==> StartsInside(k, l)
  {
    if a: Wide :| Covers(l, a) && Covers(k, a) {
      MasksNest(a, l.prefix, k.prefix);
    }
    if Covers(l, k.sig) {
      assert Covers(k, k.sig);
    }
  }

  /** Two pool leases held at the same time overlap exactly when the smaller subnet starts inside the
      larger one, and so never when the prefixes are equal. */
  lemma BlocksOverlapExactly(b: Book, s: Slot, t: Slot)
    requires InOrder(b) && s in b.held && t in b.held && s != t && s.family.V6? && t.family.V6?
    requires b.held[s].pooled && b.held[t].pooled && b.held[s].prefix <= b.held[t].prefix
    ensures Overlap(b.held[s], b.held[t])
            <==> b.held[s].prefix < b.held[t].prefix && StartsInside(b.held[t], b.held[s])
  {
    hide And, PrefixMask;
    OverlapExactly(b.held[s], b.held[t]);
    assert b.table[b.held[s].id] == b.held[s].sig && b.table[b.held[t].id] == b.held[t].sig;
  }

  /** Pool leases of equal prefix held at the same time cover no address in common. */
  lemma BlocksDisjoint(b: Book, s: Slot, t: Slot, a: Wide)
    requires InOrder(b) && s in b.held && t in b.held && s != t
    requires b.held[s].pooled && b.held[t].pooled && b.held[s].prefix == b.held[t].prefix
    ensures !(Covers(b.held[s], a) && Covers(b.held[t], a))
  {
    assert b.table[b.held[s].id] == b.held[s].sig && b.table[b.held[t].id] == b.held[t].sig;
  }

  /** Leases of different prefix may overlap: the table compares signatures only. */
  lemma BlocksOverlap()
    ensures var zero: Wide := seq(16, _ => 0);
            var raw: Wide := zero[7 := 1][8 := 1];
            var wide := Lease(0, And(raw, PrefixMask(64)), 64, true);
            var narrow := Lease(1, And(raw, PrefixMask(80)), 80, true);
            && Lease6({}, Bytes(zero), 32, 64, Absent, _ => raw) == Leased(raw, Local(zero), wide.sig, 64, true)
            && Lease6({wide.sig}, Bytes(zero), 32, 80, Absent, _ => raw) == Leased(raw, Local(zero), narrow.sig, 80, true)
            && Covers(wide, raw) && Covers(narrow, raw)
  {
    var zero: Wide := seq(16, _ => 0);
    var raw: Wide := zero[7 := 1][8 := 1];
    var mask := PrefixMask(32);
    assert And(zero, mask) == zero;
    assert Host(zero, mask, raw) == raw;
    var wide, narrow := And(raw, PrefixMask(64)), And(raw, PrefixMask(80));
    assert wide[7] == 1 && wide[8] == 0 && narrow[8] == 1 && zero[7] == 0 && zero[8] == 0;
    FirstTry6({}, zero, 32, 64, raw);
    FirstTry6({wide}, zero, 32, 80, raw);
  }
}
