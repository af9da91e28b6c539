/**
  Slot enumeration, `pk11_provide`: list the slots, and visit them in order
  until one yields a client certificate with its private key. A visit reads
  the slot information, skips an empty slot, opens a session, logs in, and
  runs the matcher; the session of the winning slot is kept in the context,
  every other session opened is closed before the next slot is visited.
 */
module Provide {
  import opened Pkcs11
  import opened Token
  import opened TokenLogin
  import opened Matcher
  import opened Lifecycle
  import opened Sessions

  /** The outcome of one slot: the private key handle when the slot won, and the trace. */
  datatype Visit = Visit(key: Option<nat>, trace: seq<Event>)

  /** The slot whose session is kept, and the key found on it. */
  datatype Winner = Winner(slot: nat, key: nat)

  datatype Enumeration = Enumeration(winner: Option<Winner>, trace: seq<Event>)

  datatype Provided = Provided(ctx: Context, trace: seq<Event>)

  /** A visit to `slot` opens a session on it: its information reads, shows a token, and the open succeeds. */
  predicate Opens(slot: Slot) {
    slot.info.Some? && slot.info.value.flags & CKF_TOKEN_PRESENT != 0 && slot.openRv == CKR_OK
  }

  /** One iteration of the slot loop. */
  function VisitSlot(slot: Slot, env: Env): (v: Visit)
    ensures v.key.Some? ==> Opens(slot)
  {
    if slot.info.None? then Visit(None, [GetSlotInfo(slot.id, false)])
    else
      var info := slot.info.value;
      var query := GetSlotInfo(slot.id, true);
      if info.flags & CKF_TOKEN_PRESENT == 0 then Visit(None, [query])
      else
        var opening := OpenSession(slot.id, slot.openRv);
        if slot.openRv != CKR_OK then Visit(None, [query, opening])
        else
          var login := Login(slot, info.description, env.pin);
          var before := [query, opening] + login.trace;
          if login.rc != 0 then Visit(None, before + [CloseSession(slot.id)])
          else
            var m := FindClientCert(slot, env.importable);
            if m.key.Some? then Visit(m.key, before + m.trace)
            else Visit(None, before + m.trace + [CloseSession(slot.id)])
  }

  /** The loop body of `pk11_provide` for the session's callback and certificate parser. */
  function Visitor(env: Env): Slot -> Visit {
    slot => VisitSlot(slot, env)
  }

  // One visit.

  /**
    A visit opens a session exactly when `Opens` holds; the winner keeps
    its session open, and a slot that does not win has its session closed.
   */
  lemma VisitSessions(slot: Slot, env: Env)
    ensures var v := VisitSlot(slot, env);
            && (!Opens(slot) ==> SessionOps(v.trace) == [] && v.key.None?)
            && (Opens(slot) && v.key.Some? ==> SessionOps(v.trace) == [OpenSession(slot.id, CKR_OK)])
            && (Opens(slot) && v.key.None? ==>
                  SessionOps(v.trace) == [OpenSession(slot.id, CKR_OK), CloseSession(slot.id)])
  {
    var v := VisitSlot(slot, env);
    if slot.info.None? || slot.info.value.flags & CKF_TOKEN_PRESENT == 0 {
      SingleSessionOp(v.trace[0]);
    } else if slot.openRv != CKR_OK {
      var query := GetSlotInfo(slot.id, true);
      var opening := OpenSession(slot.id, slot.openRv);
      assert v.trace == [query, opening];
      SingleSessionOp(query);
      SingleSessionOp(opening);
      FilterAppend([query], [opening], IsSessionOp);
    } else {
      OpenedVisitSessions(slot, env);
    }
  }

  /** The session calls of a visit that opened a session. */
  lemma OpenedVisitSessions(slot: Slot, env: Env)
    requires Opens(slot)
    ensures var v := VisitSlot(slot, env);
            && (v.key.Some? ==> SessionOps(v.trace) == [OpenSession(slot.id, CKR_OK)])
            && (v.key.None? ==> SessionOps(v.trace) == [OpenSession(slot.id, CKR_OK), CloseSession(slot.id)])
  {
    var info := slot.info.value;
    var query := GetSlotInfo(slot.id, true);
    var opening := OpenSession(slot.id, slot.openRv);
    var login := Login(slot, info.description, env.pin);
    var before := [query, opening] + login.trace;
    SingleSessionOp(query);
    SingleSessionOp(opening);
    FilterAppend([query], [opening], IsSessionOp);
    LoginEvents(slot, info.description, env.pin);
    EventsWithoutSessionOps(login.trace);
    FilterAppend([query, opening], login.trace, IsSessionOp);
    assert SessionOps(before) == [opening];
    var close := CloseSession(slot.id);
    SingleSessionOp(close);
    if login.rc != 0 {
      assert VisitSlot(slot, env).trace == before + [close];
      FilterAppend(before, [close], IsSessionOp);
    } else {
      var m := FindClientCert(slot, env.importable);
      MatchOpensNoSession(slot, env.importable);
      FilterAppend(before, m.trace, IsSessionOp);
      if m.key.None? {
        assert VisitSlot(slot, env).trace == before + m.trace + [close];
        FilterAppend(before + m.trace, [close], IsSessionOp);
      } else {
        assert VisitSlot(slot, env).trace == before + m.trace;
      }
    }
  }

  /**
    A slot wins exactly when a session opens on it, the login succeeds, and
    the matcher finds both a certificate and its key; the key is the
    matcher's.
   */
  lemma VisitWinsIff(slot: Slot, env: Env)
    ensures var v := VisitSlot(slot, env);
            && (v.key.Some? <==> && Opens(slot)
                                 && Login(slot, slot.info.value.description, env.pin).rc == 0
                                 && FindClientCert(slot, env.importable).key.Some?)
            && (v.key.Some? ==> v.key == FindClientCert(slot, env.importable).key)
  {
  }

  /** The matcher only searches, fetches attributes and installs a certificate. */
  lemma MatchEvents(slot: Slot, importable: set<seq<byte>>)
    ensures var t := FindClientCert(slot, importable).trace;
            forall i :: 0 <= i < |t| ==> t[i].FindInit? || t[i].FindFinal? || t[i].GetAttributes? || t[i].SetClientCert?
  {
    var x := FindX509(slot, importable, 0);
    MatchTrace(slot, importable);
    if FindInitAnswer(slot, 0) == CKR_OK {
      var scan := ScanCerts(slot.id, SearchResults(slot.objects, CertTemplate), importable);
      assert x.trace == [FindInit(slot.id, CertTemplate, CKR_OK)] + scan.trace + [FindFinal(slot.id)];
    }
  }

  /** The events of a visit never destroy the module. */
  lemma VisitKeepsModule(slot: Slot, env: Env)
    ensures var t := VisitSlot(slot, env).trace;
            forall i :: 0 <= i < |t| ==> !t[i].DestroyModule?
  {
    var v := VisitSlot(slot, env);
    if Opens(slot) {
      var info := slot.info.value;
      var login := Login(slot, info.description, env.pin);
      LoginEvents(slot, info.description, env.pin);
      var before := [GetSlotInfo(slot.id, true), OpenSession(slot.id, CKR_OK)] + login.trace;
      assert forall i :: 0 <= i < |before| ==> !before[i].DestroyModule?;
      if login.rc == 0 {
        var m := FindClientCert(slot, env.importable);
        MatchEvents(slot, env.importable);
        assert forall i :: 0 <= i < |before + m.trace| ==> !(before + m.trace)[i].DestroyModule?;
      }
    }
  }

  /**
    The session discipline of one visit: a winner leaves exactly its own
    session open, any other visit opens and closes a session on its slot
    or opens none, and no visit destroys the module.
   */
  predicate Disciplined(slot: Slot, v: Visit) {
    && (v.key.Some? ==> SessionOps(v.trace) == [OpenSession(slot.id, CKR_OK)])
    && (v.key.None? ==> SessionOps(v.trace) == []
                        || SessionOps(v.trace) == [OpenSession(slot.id, CKR_OK), CloseSession(slot.id)])
    && (forall i :: 0 <= i < |v.trace| ==> !v.trace[i].DestroyModule?)
  }

  lemma VisitDisciplined(slot: Slot, env: Env)
    ensures Disciplined(slot, VisitSlot(slot, env))
  {
    VisitSessions(slot, env);
    VisitKeepsModule(slot, env);
  }

  predicate AllDisciplined(slots: seq<Slot>, visit: Slot -> Visit) {
    forall j :: 0 <= j < |slots| ==> Disciplined(slots[j], visit(slots[j]))
  }

  lemma VisitorDisciplined(slots: seq<Slot>, env: Env)
    ensures AllDisciplined(slots, Visitor(env))
  {
    forall j | 0 <= j < |slots|
      ensures Disciplined(slots[j], Visitor(env)(slots[j]))
    {
      VisitDisciplined(slots[j], env);
    }
  }

  // The slot loop, for any visit.

  /** The slot ids of `slots`. */
  function Ids(slots: seq<Slot>): set<nat> {
    set j | 0 <= j < |slots| :: slots[j].id
  }

  /** The loop over the listed slots: the first winner ends it. */
  function Enumerate(slots: seq<Slot>, visit: Slot -> Visit): (r: Enumeration)
    ensures r.winner.Some? ==> r.winner.value.slot in Ids(slots)
  {
    if |slots| == 0 then Enumeration(None, [])
    else
      var v := visit(slots[0]);
      if v.key.Some? then Enumeration(Some(Winner(slots[0].id, v.key.value)), v.trace)
      else
        var rest := Enumerate(slots[1..], visit);
        assert rest.winner.Some? ==> rest.winner.value.slot in Ids(slots) by {
          if rest.winner.Some? {
            var j :| 0 <= j < |slots[1..]| && slots[1..][j].id == rest.winner.value.slot;
            assert slots[j + 1].id == rest.winner.value.slot;
          }
        }
        Enumeration(rest.winner, v.trace + rest.trace)
  }

  /** The traces of visits to `slots`, one after the other. */
  function Visits(slots: seq<Slot>, visit: Slot -> Visit): seq<Event> {
    if |slots| == 0 then [] else visit(slots[0]).trace + Visits(slots[1..], visit)
  }

  /**
    When slot `k` is the first to win, it is the winner with its key, and
    exactly the slots up to and including it are visited.
   */
  lemma {:induction false} EnumerateFirstWinner(slots: seq<Slot>, visit: Slot -> Visit, k: nat)
    requires k < |slots| && visit(slots[k]).key.Some?
    requires forall j :: 0 <= j < k ==> visit(slots[j]).key.None?
    ensures var r := Enumerate(slots, visit);
            && r.winner == Some(Winner(slots[k].id, visit(slots[k]).key.value))
            && r.trace == Visits(slots[..k + 1], visit)
  {
    if k == 0 {
      assert slots[..1][1..] == [];
      assert Visits(slots[..1], visit) == visit(slots[0]).trace + [];
    } else {
      EnumerateFirstWinner(slots[1..], visit, k - 1);
      assert slots[..k + 1][1..] == slots[1..][..k];
    }
  }

  /** When no slot wins, there is no winner and every slot is visited. */
  lemma {:induction false} EnumerateWithoutWinner(slots: seq<Slot>, visit: Slot -> Visit)
    requires forall j :: 0 <= j < |slots| ==> visit(slots[j]).key.None?
    ensures Enumerate(slots, visit) == Enumeration(None, Visits(slots, visit))
  {
    if |slots| > 0 {
      EnumerateWithoutWinner(slots[1..], visit);
    }
  }

  /** Everything a visited slot does stays in the enumeration's trace. */
  lemma {:induction false} EnumerateKeepsVisitEvents(slots: seq<Slot>, visit: Slot -> Visit, j: nat)
    requires j < |slots|
    requires forall i :: 0 <= i < j ==> visit(slots[i]).key.None?
    ensures forall e :: e in visit(slots[j]).trace ==> e in Enumerate(slots, visit).trace
  {
    if j > 0 {
      forall i | 0 <= i < j - 1
        ensures visit(slots[1..][i]).key.None?
      {
        assert slots[1..][i] == slots[i + 1];
      }
      EnumerateKeepsVisitEvents(slots[1..], visit, j - 1);
      assert slots[1..][j - 1] == slots[j];
    }
  }

  /** Only visited slots have sessions opened on them. */
  lemma {:induction false} VisitsOpenOnListed(slots: seq<Slot>, visit: Slot -> Visit)
    requires AllDisciplined(slots, visit)
    ensures forall i :: 0 <= i < |SessionOps(Visits(slots, visit))| ==>
              SessionOps(Visits(slots, visit))[i].slot in Ids(slots)
  {
    if |slots| > 0 {
      var v := visit(slots[0]);
      assert Disciplined(slots[0], v);
      assert AllDisciplined(slots[1..], visit) by {
        forall j | 0 <= j < |slots[1..]|
          ensures Disciplined(slots[1..][j], visit(slots[1..][j]))
        {
          assert slots[1..][j] == slots[j + 1];
        }
      }
      VisitsOpenOnListed(slots[1..], visit);
      FilterAppend(v.trace, Visits(slots[1..], visit), IsSessionOp);
      var a: seq<Event> := SessionOps(v.trace);
      var b: seq<Event> := SessionOps(Visits(slots[1..], visit));
      assert forall t :: 0 <= t < |b| ==> b[t].slot in Ids(slots[1..]);
      assert SessionOps(Visits(slots, visit)) == a + b;
      assert slots[0].id in Ids(slots);
      forall i | 0 <= i < |a + b|
        ensures (a + b)[i].slot in Ids(slots)
      {
        if i >= |a| {
          assert (a + b)[i] == b[i - |a|];
          assert b[i - |a|].slot in Ids(slots[1..]);
          var j :| 0 <= j < |slots[1..]| && slots[1..][j].id == b[i - |a|].slot;
          assert slots[j + 1].id == b[i - |a|].slot;
        }
      }
    }
  }

  lemma AllDisciplinedTail(slots: seq<Slot>, visit: Slot -> Visit)
    requires |slots| >= 1 && AllDisciplined(slots, visit)
    ensures Disciplined(slots[0], visit(slots[0])) && AllDisciplined(slots[1..], visit)
  {
    forall j | 0 <= j < |slots[1..]|
      ensures Disciplined(slots[1..][j], visit(slots[1..][j]))
    {
      assert slots[1..][j] == slots[j + 1];
    }
  }

  /**
    Session operations `ops` pair up, except that when there is a winner
    its session is opened last and left open.
   */
  predicate SessionShape(ops: seq<Event>, winner: Option<Winner>) {
    && (winner.None? ==> Balanced(ops))
    && (winner.Some? ==> |ops| >= 1 && ops[|ops| - 1] == OpenSession(winner.value.slot, CKR_OK)
                         && Balanced(ops[..|ops| - 1]))
  }

  lemma ShapePrepend(a: seq<Event>, b: seq<Event>, winner: Option<Winner>)
    requires Balanced(a) && SessionShape(b, winner)
    ensures SessionShape(a + b, winner)
  {
    if winner.None? {
      BalancedAppend(a, b);
    } else {
      BalancedAppend(a, b[..|b| - 1]);
      assert (a + b)[..|a + b| - 1] == a + b[..|b| - 1];
    }
  }

  /**
    Sessions are opened and closed in pairs during the enumeration; when a
    slot wins, its open session is the last session operation and no other
    session is left open.
   */
  lemma {:induction false} EnumerateSessions(slots: seq<Slot>, visit: Slot -> Visit)
    requires AllDisciplined(slots, visit)
    ensures SessionShape(SessionOps(Enumerate(slots, visit).trace), Enumerate(slots, visit).winner)
  {
    if |slots| > 0 {
      var v := visit(slots[0]);
      AllDisciplinedTail(slots, visit);
      var a := SessionOps(v.trace);
      if v.key.Some? {
        assert a[..0] == [];
      } else {
        assert Balanced(a) by {
          if a != [] {
            assert a[2..] == [];
          }
        }
        var rest := Enumerate(slots[1..], visit);
        EnumerateSessions(slots[1..], visit);
        assert Enumerate(slots, visit) == Enumeration(rest.winner, v.trace + rest.trace);
        FilterAppend(v.trace, rest.trace, IsSessionOp);
        ShapePrepend(a, SessionOps(rest.trace), rest.winner);
      }
    }
  }

  /** The enumeration never destroys the module. */
  lemma {:induction false} EnumerateKeepsModule(slots: seq<Slot>, visit: Slot -> Visit)
    requires AllDisciplined(slots, visit)
    ensures forall i :: 0 <= i < |Enumerate(slots, visit).trace| ==> !Enumerate(slots, visit).trace[i].DestroyModule?
  {
    if |slots| > 0 {
      var v := visit(slots[0]);
      AllDisciplinedTail(slots, visit);
      if v.key.None? {
        var rest := Enumerate(slots[1..], visit);
        EnumerateKeepsModule(slots[1..], visit);
        var t := v.trace + rest.trace;
        assert Enumerate(slots, visit).trace == t;
        forall i | 0 <= i < |t|
          ensures !t[i].DestroyModule?
        {
          if i < |v.trace| {
            assert t[i] == v.trace[i];
            assert !v.trace[i].DestroyModule?;
          } else {
            assert t[i] == rest.trace[i - |v.trace|];
            assert !rest.trace[i - |v.trace|].DestroyModule?;
          }
        }
      }
    }
  }

  // pk11_provide.

  /** The slot listing succeeded and returned at most the counted slots. */
  predicate Listed(m: Module) {
    m.count.Some? && m.count.value > 0 && m.slots.Some? && |m.slots.value| <= m.count.value
  }

  /**
    `pk11_provide`: count the slots with a token, list them, and enumerate.
    A second listing that no longer fits the count is CKR_BUFFER_TOO_SMALL.
   */
  function ProvideClient(ctx: Context, m: Module, env: Env): (r: Provided)
    ensures r.ctx.moduleHandle == ctx.moduleHandle
    ensures r.ctx != ctx ==> r.ctx.session.Some? && Listed(m)
  {
    if m.count.None? then Provided(ctx, [GetSlotList(false, false)])
    else if m.count.value == 0 then Provided(ctx, [GetSlotList(false, true)])
    else if m.slots.None? || |m.slots.value| > m.count.value then
      Provided(ctx, [GetSlotList(false, true), GetSlotList(true, false)])
    else
      var e := Enumerate(m.slots.value, Visitor(env));
      var ctx' := if e.winner.Some? then ctx.(session := Some(e.winner.value.slot), privkey := e.winner.value.key)
                  else ctx;
      Provided(ctx', [GetSlotList(false, true), GetSlotList(true, true)] + e.trace)
  }

  /** A failed or empty slot listing changes nothing and opens no session. */
  lemma ProvideWithoutSlots(ctx: Context, m: Module, env: Env)
    requires !Listed(m)
    ensures var r := ProvideClient(ctx, m, env);
            r.ctx == ctx && SessionOps(r.trace) == [] && 1 <= |r.trace| <= 2
  {
    var r := ProvideClient(ctx, m, env);
    EventsWithoutSessionOps(r.trace);
  }

  /** After a successful listing, `pk11_provide` is the two listings followed by the enumeration. */
  lemma ProvideListed(ctx: Context, m: Module, env: Env)
    requires Listed(m)
    ensures var e := Enumerate(m.slots.value, Visitor(env));
            var r := ProvideClient(ctx, m, env);
            && r.trace == [GetSlotList(false, true), GetSlotList(true, true)] + e.trace
            && SessionOps(r.trace) == SessionOps(e.trace)
            && (e.winner.None? ==> r.ctx == ctx)
            && (e.winner.Some? ==> r.ctx == ctx.(session := Some(e.winner.value.slot), privkey := e.winner.value.key))
  {
    var e := Enumerate(m.slots.value, Visitor(env));
    var lists := [GetSlotList(false, true), GetSlotList(true, true)];
    EventsWithoutSessionOps(lists);
    FilterAppend(lists, e.trace, IsSessionOp);
  }

  /**
    After a successful listing the context takes the session and key of the
    first slot that wins, and only slots up to that one had sessions opened.
   */
  lemma ProvideTakesFirstWinner(ctx: Context, m: Module, env: Env, k: nat)
    requires Listed(m)
    requires k < |m.slots.value| && VisitSlot(m.slots.value[k], env).key.Some?
    requires forall j :: 0 <= j < k ==> VisitSlot(m.slots.value[j], env).key.None?
    ensures var r := ProvideClient(ctx, m, env);
            var slot := m.slots.value[k];
            && r.ctx == ctx.(session := Some(slot.id), privkey := VisitSlot(slot, env).key.value)
            && (forall i :: 0 <= i < |SessionOps(r.trace)| ==> SessionOps(r.trace)[i].slot in Ids(m.slots.value[..k + 1]))
  {
    var slots := m.slots.value;
    var visit := Visitor(env);
    EnumerateFirstWinner(slots, visit, k);
    VisitorDisciplined(slots[..k + 1], env);
    VisitsOpenOnListed(slots[..k + 1], visit);
    ProvideListed(ctx, m, env);
  }

  /** When no listed slot wins, the context is unchanged. */
  lemma ProvideWithoutWinner(ctx: Context, m: Module, env: Env)
    requires Listed(m)
    requires forall j :: 0 <= j < |m.slots.value| ==> VisitSlot(m.slots.value[j], env).key.None?
    ensures ProvideClient(ctx, m, env).ctx == ctx
  {
    EnumerateWithoutWinner(m.slots.value, Visitor(env));
  }

  // The whole lifecycle.

  /**
    The session operations of a provide call pair up, except that a winner's
    session is left open as the last one and taken into the context; without
    a winner the context is unchanged.
   */
  lemma ProvideSessions(ctx: Context, m: Module, env: Env)
    ensures var r := ProvideClient(ctx, m, env);
            var ops := SessionOps(r.trace);
            || (r.ctx == ctx && Balanced(ops))
            || (&& r.ctx.session.Some? && |ops| >= 1
                && ops[|ops| - 1] == OpenSession(r.ctx.session.value, CKR_OK)
                && Balanced(ops[..|ops| - 1]))
  {
    if !Listed(m) {
      ProvideWithoutSlots(ctx, m, env);
    } else {
      ProvideListed(ctx, m, env);
      VisitorDisciplined(m.slots.value, env);
      EnumerateSessions(m.slots.value, Visitor(env));
    }
  }

  /**
    A slot whose login succeeds and whose certificate search finds a
    certificate leaves that certificate installed on the HTTP session,
    whether or not a key is found for it afterwards.
   */
  lemma VisitInstallsFoundCert(slot: Slot, env: Env)
    requires Opens(slot)
    requires Login(slot, slot.info.value.description, env.pin).rc == 0
    requires FindClientCert(slot, env.importable).cert.Some?
    ensures SetClientCert(FindClientCert(slot, env.importable).cert.value.der) in VisitSlot(slot, env).trace
  {
    CertInstalledRegardless(slot, env.importable);
  }

  /**
    Any slot the enumeration reaches installs the certificate it finds during
    the provide call, even when that slot does not win; a later slot's
    certificate replaces it (`ProvideInstallsWinnersCert`).
   */
  lemma ProvideInstallsFoundCert(ctx: Context, m: Module, env: Env, j: nat)
    requires Listed(m) && j < |m.slots.value|
    requires forall i :: 0 <= i < j ==> VisitSlot(m.slots.value[i], env).key.None?
    requires Opens(m.slots.value[j])
    requires Login(m.slots.value[j], m.slots.value[j].info.value.description, env.pin).rc == 0
    requires FindClientCert(m.slots.value[j], env.importable).cert.Some?
    ensures SetClientCert(FindClientCert(m.slots.value[j], env.importable).cert.value.der)
            in ProvideClient(ctx, m, env).trace
  {
    var slots := m.slots.value;
    var visit := Visitor(env);
    forall i | 0 <= i < j
      ensures visit(slots[i]).key.None?
    {
      assert visit(slots[i]) == VisitSlot(slots[i], env);
    }
    VisitInstallsFoundCert(slots[j], env);
    assert visit(slots[j]) == VisitSlot(slots[j], env);
    EnumerateKeepsVisitEvents(slots, visit, j);
    ProvideListed(ctx, m, env);
  }

  /** A winning visit ends with the matcher's certificate as the last one installed. */
  lemma VisitLastInstalled(slot: Slot, env: Env)
    requires VisitSlot(slot, env).key.Some?
    ensures FindClientCert(slot, env.importable).cert.Some?
    ensures LastInstalled(VisitSlot(slot, env).trace, FindClientCert(slot, env.importable).cert.value.der)
  {
    var m := FindClientCert(slot, env.importable);
    var info := slot.info.value;
    var login := Login(slot, info.description, env.pin);
    var before := [GetSlotInfo(slot.id, true), OpenSession(slot.id, slot.openRv)] + login.trace;
    assert VisitSlot(slot, env).trace == before + m.trace;
    MatchLastInstalled(slot, env.importable);
    LastInstalledPrepend(before, m.trace, m.cert.value.der);
  }

  /** When the last of slots 0..k installs `der` last, so do the visits to slots 0..k together. */
  lemma {:induction false} VisitsLastInstalled(slots: seq<Slot>, visit: Slot -> Visit, k: nat, der: seq<byte>)
    requires k < |slots| && LastInstalled(visit(slots[k]).trace, der)
    ensures LastInstalled(Visits(slots[..k + 1], visit), der)
  {
    if k == 0 {
      assert slots[..1][1..] == [];
      assert Visits(slots[..1], visit) == visit(slots[0]).trace + [];
      LastInstalledAppend(visit(slots[0]).trace, [], der);
    } else {
      assert slots[1..][k - 1] == slots[k];
      VisitsLastInstalled(slots[1..], visit, k - 1, der);
      assert slots[..k + 1][1..] == slots[1..][..k];
      LastInstalledPrepend(visit(slots[0]).trace, Visits(slots[1..][..k], visit), der);
    }
  }

  /**
    When a slot wins, the certificate left installed on the HTTP session is
    the winner's, and the key the context holds carries that certificate's
    CKA_ID: certificates installed by earlier, losing slots are replaced.
   */
  lemma ProvideInstallsWinnersCert(ctx: Context, m: Module, env: Env, k: nat)
    requires Listed(m)
    requires k < |m.slots.value| && VisitSlot(m.slots.value[k], env).key.Some?
    requires forall j :: 0 <= j < k ==> VisitSlot(m.slots.value[j], env).key.None?
    ensures var slot := m.slots.value[k];
            var cert := FindClientCert(slot, env.importable).cert;
            var r := ProvideClient(ctx, m, env);
            && cert.Some?
            && LastInstalled(r.trace, cert.value.der)
            && exists j :: 0 <= j < |slot.objects| && slot.objects[j].handle == r.ctx.privkey
                           && IsRsaKeyFor(slot.objects[j], cert.value.id)
  {
    var slots := m.slots.value;
    var slot := slots[k];
    var visit := Visitor(env);
    var r := ProvideClient(ctx, m, env);
    ProvideTakesFirstWinner(ctx, m, env, k);
    ProvideListed(ctx, m, env);
    forall j | 0 <= j < k
      ensures visit(slots[j]).key.None?
    {
      assert visit(slots[j]) == VisitSlot(slots[j], env);
    }
    assert visit(slot) == VisitSlot(slot, env);
    EnumerateFirstWinner(slots, visit, k);
    VisitLastInstalled(slot, env);
    var mc := FindClientCert(slot, env.importable);
    VisitsLastInstalled(slots, visit, k, mc.cert.value.der);
    LastInstalledPrepend([GetSlotList(false, true), GetSlotList(true, true)], Enumerate(slots, visit).trace, mc.cert.value.der);
    VisitWinsIff(slot, env);
    MatchTrace(slot, env.importable);
    KeyFoundIff(slot, mc.cert.value.id, 1);
  }

  /** A provide call never destroys the module. */
  lemma ProvideKeepsModule(ctx: Context, m: Module, env: Env)
    ensures var t := ProvideClient(ctx, m, env).trace;
            forall i :: 0 <= i < |t| ==> !t[i].DestroyModule?
  {
    if Listed(m) {
      var r := ProvideClient(ctx, m, env);
      var e := Enumerate(m.slots.value, Visitor(env));
      ProvideListed(ctx, m, env);
      VisitorDisciplined(m.slots.value, env);
      EnumerateKeepsModule(m.slots.value, Visitor(env));
      forall i | 0 <= i < |r.trace|
        ensures !r.trace[i].DestroyModule?
      {
        if i >= 2 {
          assert r.trace[i] == e.trace[i - 2];
        }
      }
    }
  }

  /** What a provide call leaves behind for the destructor. */
  predicate LeavesOneSession(before: Context, p: Provided) {
    var ops := SessionOps(p.trace);
    && (|| (p.ctx == before && Balanced(ops))
        || (&& p.ctx.session.Some? && |ops| >= 1
            && ops[|ops| - 1] == OpenSession(p.ctx.session.value, CKR_OK)
            && Balanced(ops[..|ops| - 1])))
    && (forall i :: 0 <= i < |p.trace| ==> !p.trace[i].DestroyModule?)
  }

  /** Destroying the context after such a provide call releases every session and the module. */
  lemma DestroyAfterProvide(moduleHandle: nat, p: Provided)
    requires LeavesOneSession(Setup(moduleHandle), p)
    ensures var whole := p.trace + Destroy(p.ctx);
            var ops := SessionOps(whole);
            && AtMostOneLive(ops)
            && Live(ops) == 0
            && |whole| >= 1 && whole[|whole| - 1] == DestroyModule(p.ctx.moduleHandle)
            && (forall i :: 0 <= i < |whole| - 1 ==> !whole[i].DestroyModule?)
  {
    var d := Destroy(p.ctx);
    var whole := p.trace + d;
    DestroyReleases(p.ctx);
    FilterAppend(p.trace, d, IsSessionOp);
    var ops := SessionOps(p.trace);
    var all: seq<Event>;
    if p.ctx.session.Some? {
      var b := ops[..|ops| - 1];
      var s := p.ctx.session.value;
      var pair := [OpenSession(s, CKR_OK), CloseSession(s)];
      assert ops == b + [OpenSession(s, CKR_OK)];
      assert SessionOps(d) == [CloseSession(s)];
      assert Balanced(pair) by {
        assert pair[2..] == [];
      }
      BalancedAppend(b, pair);
      all := b + pair;
      assert SessionOps(whole) == all;
    } else {
      assert SessionOps(d) == [];
      all := ops;
      assert SessionOps(whole) == ops + [];
    }
    OneSessionAtATime(all, []);
    assert all + [] == all;
    forall i | 0 <= i < |whole| - 1
      ensures !whole[i].DestroyModule?
    {
      if i >= |p.trace| {
        assert whole[i] == d[i - |p.trace|];
      } else {
        assert whole[i] == p.trace[i];
      }
    }
  }

  /**
    From set-up through one provide call to destruction: at no point is
    more than one session open, every session opened is closed by the end,
    and the module is destroyed once, as the last call.
   */
  lemma SessionLifecycle(moduleHandle: nat, m: Module, env: Env)
    ensures var p := ProvideClient(Setup(moduleHandle), m, env);
            var whole := p.trace + Destroy(p.ctx);
            && AtMostOneLive(SessionOps(whole))
            && Live(SessionOps(whole)) == 0
            && |whole| >= 1 && whole[|whole| - 1] == DestroyModule(moduleHandle)
            && (forall i :: 0 <= i < |whole| - 1 ==> !whole[i].DestroyModule?)
  {
    var ctx := Setup(moduleHandle);
    var p := ProvideClient(ctx, m, env);
    ProvideSessions(ctx, m, env);
    ProvideKeepsModule(ctx, m, env);
    assert p.ctx.moduleHandle == moduleHandle;
    DestroyAfterProvide(moduleHandle, p);
  }
}
