/**
  The object matcher of `find_client_cert`: search the token for the first
  X.509 certificate whose attributes can be read and whose DER encoding the
  certificate parser imports, install it on the HTTP session, then search
  for an RSA private key carrying exactly that certificate's CKA_ID.

  Within one visit to a slot the certificate search is the session's first
  C_FindObjectsInit call (answer number 0) and the key search its second
  (answer number 1).
 */
module Matcher {
  import opened Pkcs11
  import opened Token

  /** The certificate search template: class certificate, type X.509. */
  const CertTemplate: seq<Attr> := [Class(CKO_CERTIFICATE), CertificateType(CKC_X_509)]

  /** The key search template: class private key, type RSA, the certificate's ID. */
  function KeyTemplate(certId: seq<byte>): seq<Attr> {
    [Class(CKO_PRIVATE_KEY), KeyType(CKK_RSA), Id(certId)]
  }

  /** A certificate taken from the token: its DER encoding and its CKA_ID. */
  datatype Cert = Cert(der: seq<byte>, id: seq<byte>)

  datatype CertSearch = CertSearch(found: Option<Cert>, trace: seq<Event>)

  datatype KeySearch = KeySearch(key: Option<nat>, trace: seq<Event>)

  /** The outcome of `find_client_cert`; it succeeds exactly when `key` is present. */
  datatype Match = Match(cert: Option<Cert>, key: Option<nat>, trace: seq<Event>)

  /** Object `o` passes the certificate search: its attributes fetch and its value imports. */
  predicate Acceptable(o: Obj, importable: set<seq<byte>>) {
    AttributeAnswer(o) == CKR_OK && o.value in importable
  }

  /** Object `o` is an RSA private key with CKA_ID exactly `certId`. */
  predicate IsRsaKeyFor(o: Obj, certId: seq<byte>) {
    o.objectClass == CKO_PRIVATE_KEY && o.keyType == Some(CKK_RSA) && o.id == certId
  }

  /** The attribute fetches made on `candidates`, in order. */
  function Examine(slotId: nat, candidates: seq<Obj>): (r: seq<Event>)
    ensures |r| == |candidates|
  {
    seq(|candidates|, j requires 0 <= j < |candidates| =>
      GetAttributes(slotId, candidates[j].handle, AttributeAnswer(candidates[j])))
  }

  /**
    The loop over the search results: fetch each candidate's attributes and
    stop at the first one that imports, installing it on the session.
   */
  function ScanCerts(slotId: nat, candidates: seq<Obj>, importable: set<seq<byte>>): (r: CertSearch)
    ensures r.found.Some? ==> r.found.value.der in importable && |r.found.value.id| <= ATTRIBUTE_BUFFER_LEN
    ensures r.found.Some? ==> SetClientCert(r.found.value.der) in r.trace
    ensures forall i :: 0 <= i < |r.trace| ==> r.trace[i].GetAttributes? || r.trace[i].SetClientCert?
    ensures forall i :: 0 <= i < |r.trace| && r.trace[i].SetClientCert? ==>
              r.found.Some? && r.trace[i].der == r.found.value.der
  {
    if |candidates| == 0 then CertSearch(None, [])
    else
      var o := candidates[0];
      var fetch := GetAttributes(slotId, o.handle, AttributeAnswer(o));
      if Acceptable(o, importable) then CertSearch(Some(Cert(o.value, o.id)), [fetch, SetClientCert(o.value)])
      else
        var rest := ScanCerts(slotId, candidates[1..], importable);
        CertSearch(rest.found, [fetch] + rest.trace)
  }

  /** `pk11_find_x509`, with `call` the number of the session's C_FindObjectsInit answer. */
  function FindX509(slot: Slot, importable: set<seq<byte>>, call: nat): (r: CertSearch)
    ensures r.found.Some? ==> FindInitAnswer(slot, call) == CKR_OK
  {
    var rv := FindInitAnswer(slot, call);
    var init := FindInit(slot.id, CertTemplate, rv);
    if rv != CKR_OK then CertSearch(None, [init])
    else
      var scan := ScanCerts(slot.id, SearchResults(slot.objects, CertTemplate), importable);
      CertSearch(scan.found, [init] + scan.trace + [FindFinal(slot.id)])
  }

  /** `pk11_find_pkey`: only the first object the search returns is taken. */
  function FindPkey(slot: Slot, certId: seq<byte>, call: nat): (r: KeySearch)
    ensures r.key.Some? ==> FindInitAnswer(slot, call) == CKR_OK
  {
    var template := KeyTemplate(certId);
    var rv := FindInitAnswer(slot, call);
    var init := FindInit(slot.id, template, rv);
    if rv != CKR_OK then KeySearch(None, [init])
    else
      var hits := SearchResults(slot.objects, template);
      KeySearch(if |hits| > 0 then Some(hits[0].handle) else None, [init, FindFinal(slot.id)])
  }

  /** `find_client_cert`: the key search runs only once a certificate is found. */
  function FindClientCert(slot: Slot, importable: set<seq<byte>>): (r: Match)
    ensures r.key.Some? ==> r.cert.Some?
  {
    var x := FindX509(slot, importable, 0);
    if x.found.None? then Match(None, None, x.trace)
    else
      var k := FindPkey(slot, x.found.value.id, 1);
      Match(x.found, k.key, x.trace + k.trace)
  }

  // The certificate search.

  /**
    When candidate `k` is the first acceptable one, the search installs it,
    captures its ID, and fetched the attributes of exactly the candidates
    up to and including it.
   */
  lemma {:induction false} ScanStopsAtFirstAcceptable(slotId: nat, candidates: seq<Obj>, importable: set<seq<byte>>, k: nat)
    requires k < |candidates| && Acceptable(candidates[k], importable)
    requires forall j :: 0 <= j < k ==> !Acceptable(candidates[j], importable)
    ensures ScanCerts(slotId, candidates, importable)
            == CertSearch(Some(Cert(candidates[k].value, candidates[k].id)),
                          Examine(slotId, candidates[..k + 1]) + [SetClientCert(candidates[k].value)])
  {
    var c := candidates;
    if k == 0 {
      assert Examine(slotId, c[..1]) == [GetAttributes(slotId, c[0].handle, AttributeAnswer(c[0]))];
    } else {
      ScanStopsAtFirstAcceptable(slotId, c[1..], importable, k - 1);
      assert c[1..][..k] == c[1..k + 1];
      var head := GetAttributes(slotId, c[0].handle, AttributeAnswer(c[0]));
      assert Examine(slotId, c[..k + 1]) == [head] + Examine(slotId, c[1..k + 1]);
    }
  }

  /** When no candidate is acceptable, every candidate is examined and nothing is installed. */
  lemma {:induction false} ScanWithoutAcceptable(slotId: nat, candidates: seq<Obj>, importable: set<seq<byte>>)
    requires forall j :: 0 <= j < |candidates| ==> !Acceptable(candidates[j], importable)
    ensures ScanCerts(slotId, candidates, importable) == CertSearch(None, Examine(slotId, candidates))
  {
    var c := candidates;
    if |c| > 0 {
      ScanWithoutAcceptable(slotId, c[1..], importable);
      var head := GetAttributes(slotId, c[0].handle, AttributeAnswer(c[0]));
      assert Examine(slotId, c) == [head] + Examine(slotId, c[1..]);
    }
  }

  /**
    The certificate search finds a certificate exactly when its
    C_FindObjectsInit succeeds and some X.509 certificate object on the
    token is acceptable.
   */
  lemma CertFoundIff(slot: Slot, importable: set<seq<byte>>, call: nat)
    ensures FindX509(slot, importable, call).found.Some?
            <==> FindInitAnswer(slot, call) == CKR_OK
                 && exists j :: 0 <= j < |slot.objects| && MatchesTemplate(slot.objects[j], CertTemplate)
                                && Acceptable(slot.objects[j], importable)
  {
    var c := SearchResults(slot.objects, CertTemplate);
    if FindInitAnswer(slot, call) == CKR_OK {
      if exists j :: 0 <= j < |c| && Acceptable(c[j], importable) {
        var j :| 0 <= j < |c| && Acceptable(c[j], importable);
        assert c[j] in slot.objects;
        FirstOf(slot.id, c, importable, j);
      } else {
        ScanWithoutAcceptable(slot.id, c, importable);
        if exists j :: 0 <= j < |slot.objects| && MatchesTemplate(slot.objects[j], CertTemplate)
                       && Acceptable(slot.objects[j], importable) {
          var j :| 0 <= j < |slot.objects| && MatchesTemplate(slot.objects[j], CertTemplate)
                   && Acceptable(slot.objects[j], importable);
          SearchReturnsMatches(slot.objects, CertTemplate, j, importable);
        }
      }
    }
  }

  /** Some acceptable candidate means the scan finds a certificate. */
  lemma FirstOf(slotId: nat, candidates: seq<Obj>, importable: set<seq<byte>>, j: nat)
    requires j < |candidates| && Acceptable(candidates[j], importable)
    ensures ScanCerts(slotId, candidates, importable).found.Some?
    decreases j
  {
    if exists i :: 0 <= i < j && Acceptable(candidates[i], importable) {
      var i :| 0 <= i < j && Acceptable(candidates[i], importable);
      FirstOf(slotId, candidates, importable, i);
    } else {
      ScanStopsAtFirstAcceptable(slotId, candidates, importable, j);
    }
  }

  /** An acceptable object that matches the template is among the acceptable search results. */
  lemma SearchReturnsMatches(objects: seq<Obj>, template: seq<Attr>, j: nat, importable: set<seq<byte>>)
    requires j < |objects| && MatchesTemplate(objects[j], template) && Acceptable(objects[j], importable)
    ensures exists i :: 0 <= i < |SearchResults(objects, template)|
                        && Acceptable(SearchResults(objects, template)[i], importable)
  {
    var r := SearchResults(objects, template);
    SearchFindsEveryMatch(objects, template);
    assert objects[j] in objects;
    assert objects[j] in r;
    var i :| 0 <= i < |r| && r[i] == objects[j];
  }

  // The key search.

  lemma KeyTemplateMeaning(o: Obj, certId: seq<byte>)
    ensures MatchesTemplate(o, KeyTemplate(certId)) <==> IsRsaKeyFor(o, certId)
  {
    var t := KeyTemplate(certId);
    if IsRsaKeyFor(o, certId) {
      assert forall i :: 0 <= i < |t| ==> HasAttr(o, t[i]);
    } else {
      assert !HasAttr(o, t[0]) || !HasAttr(o, t[1]) || !HasAttr(o, t[2]);
    }
  }

  /**
    The key search finds a key exactly when its C_FindObjectsInit succeeds
    and the token holds an RSA private key with exactly the certificate's
    ID; the handle it takes is that of such a key.
   */
  lemma KeyFoundIff(slot: Slot, certId: seq<byte>, call: nat)
    ensures var r := FindPkey(slot, certId, call);
            && (r.key.Some? <==> FindInitAnswer(slot, call) == CKR_OK
                                 && exists j :: 0 <= j < |slot.objects| && IsRsaKeyFor(slot.objects[j], certId))
            && (r.key.Some? ==> exists j :: 0 <= j < |slot.objects| && IsRsaKeyFor(slot.objects[j], certId)
                                            && slot.objects[j].handle == r.key.value)
  {
    var t := KeyTemplate(certId);
    var hits := SearchResults(slot.objects, t);
    if |hits| > 0 {
      var o := hits[0];
      assert o in slot.objects && MatchesTemplate(o, t);
      KeyTemplateMeaning(o, certId);
      var j :| 0 <= j < |slot.objects| && slot.objects[j] == o;
    }
    if exists j :: 0 <= j < |slot.objects| && IsRsaKeyFor(slot.objects[j], certId) {
      var j :| 0 <= j < |slot.objects| && IsRsaKeyFor(slot.objects[j], certId);
      KeyTemplateMeaning(slot.objects[j], certId);
      FilterKeeps(slot.objects, o => MatchesTemplate(o, t), j);
    }
  }

  /** Only the first hit is examined: the key is the first matching RSA key in discovery order. */
  lemma KeyIsFirstHit(slot: Slot, certId: seq<byte>, call: nat, k: nat)
    requires FindInitAnswer(slot, call) == CKR_OK
    requires k < |slot.objects| && IsRsaKeyFor(slot.objects[k], certId)
    requires forall j :: 0 <= j < k ==> !IsRsaKeyFor(slot.objects[j], certId)
    ensures FindPkey(slot, certId, call).key == Some(slot.objects[k].handle)
  {
    var t := KeyTemplate(certId);
    forall j | 0 <= j <= k
      ensures MatchesTemplate(slot.objects[j], t) <==> IsRsaKeyFor(slot.objects[j], certId)
    {
      KeyTemplateMeaning(slot.objects[j], certId);
    }
    FilterFirst(slot.objects, o => MatchesTemplate(o, t), k);
  }

  // The combined search.

  /** A successful C_FindObjectsInit is followed at once, in the projection, by C_FindObjectsFinal. */
  predicate Bracketed(ops: seq<Event>)
    decreases |ops|
  {
    || |ops| == 0
    || (ops[0].FindInit? && ops[0].rv != CKR_OK && Bracketed(ops[1..]))
    || (&& |ops| >= 2 && ops[0].FindInit? && ops[0].rv == CKR_OK
        && ops[1] == FindFinal(ops[0].slot) && Bracketed(ops[2..]))
  }

  lemma ScanProjections(slotId: nat, candidates: seq<Obj>, importable: set<seq<byte>>)
    ensures var t := ScanCerts(slotId, candidates, importable).trace;
            SearchOps(t) == [] && SessionOps(t) == []
  {
    var t := ScanCerts(slotId, candidates, importable).trace;
    FilterNone(t, IsSearchOp);
    FilterNone(t, IsSessionOp);
  }

  lemma CertSearchProjections(slot: Slot, importable: set<seq<byte>>, call: nat)
    ensures var r := FindX509(slot, importable, call);
            var init := FindInit(slot.id, CertTemplate, FindInitAnswer(slot, call));
            && SessionOps(r.trace) == []
            && SearchOps(r.trace) == (if init.rv == CKR_OK then [init, FindFinal(slot.id)] else [init])
  {
    var r := FindX509(slot, importable, call);
    var init := FindInit(slot.id, CertTemplate, FindInitAnswer(slot, call));
    if init.rv == CKR_OK {
      var scan := ScanCerts(slot.id, SearchResults(slot.objects, CertTemplate), importable);
      ScanProjections(slot.id, SearchResults(slot.objects, CertTemplate), importable);
      FilterAppend([init] + scan.trace, [FindFinal(slot.id)], IsSearchOp);
      FilterAppend([init], scan.trace, IsSearchOp);
      FilterAppend([init] + scan.trace, [FindFinal(slot.id)], IsSessionOp);
      FilterAppend([init], scan.trace, IsSessionOp);
      assert Filter([init], IsSearchOp) == [init] + Filter([], IsSearchOp);
      assert Filter([FindFinal(slot.id)], IsSearchOp) == [FindFinal(slot.id)] + Filter([], IsSearchOp);
      assert Filter([init], IsSessionOp) == Filter([], IsSessionOp);
      assert Filter([FindFinal(slot.id)], IsSessionOp) == Filter([], IsSessionOp);
    } else {
      assert Filter([init], IsSearchOp) == [init] + Filter([], IsSearchOp);
      assert Filter([init], IsSessionOp) == Filter([], IsSessionOp);
    }
  }

  lemma KeySearchProjections(slot: Slot, certId: seq<byte>, call: nat)
    ensures var r := FindPkey(slot, certId, call);
            var init := FindInit(slot.id, KeyTemplate(certId), FindInitAnswer(slot, call));
            && SessionOps(r.trace) == []
            && SearchOps(r.trace) == (if init.rv == CKR_OK then [init, FindFinal(slot.id)] else [init])
  {
    var init := FindInit(slot.id, KeyTemplate(certId), FindInitAnswer(slot, call));
    var fin := FindFinal(slot.id);
    assert [init, fin][1..] == [fin];
    assert Filter([fin], IsSearchOp) == [fin] + Filter([], IsSearchOp);
    assert Filter([init], IsSearchOp) == [init] + Filter([], IsSearchOp);
    assert Filter([fin], IsSessionOp) == Filter([], IsSessionOp);
    assert Filter([init], IsSessionOp) == Filter([], IsSessionOp);
  }

  /** The events of the certificate search. */
  lemma CertSearchEvents(slot: Slot, importable: set<seq<byte>>, call: nat)
    ensures var r := FindX509(slot, importable, call);
            && (r.found.Some? ==> SetClientCert(r.found.value.der) in r.trace)
            && (forall i :: 0 <= i < |r.trace| && r.trace[i].FindInit? ==> r.trace[i].template == CertTemplate)
            && (forall i :: 0 <= i < |r.trace| && r.trace[i].SetClientCert? ==>
                  r.found.Some? && r.trace[i].der == r.found.value.der)
  {
    var r := FindX509(slot, importable, call);
    if FindInitAnswer(slot, call) == CKR_OK {
      var init := FindInit(slot.id, CertTemplate, CKR_OK);
      var scan := ScanCerts(slot.id, SearchResults(slot.objects, CertTemplate), importable);
      assert r.trace == [init] + scan.trace + [FindFinal(slot.id)];
      forall i | 1 <= i <= |scan.trace|
        ensures r.trace[i] == scan.trace[i - 1]
      {
      }
    }
  }

  /** The trace of `find_client_cert`: the certificate search, then the key search if it ran. */
  lemma MatchTrace(slot: Slot, importable: set<seq<byte>>)
    ensures var r := FindClientCert(slot, importable);
            var x := FindX509(slot, importable, 0);
            && r.cert == x.found
            && (x.found.None? ==> r.trace == x.trace)
            && (x.found.Some? ==> r.trace == x.trace + FindPkey(slot, x.found.value.id, 1).trace)
  {
  }

  /** The matcher opens and closes no session. */
  lemma MatchOpensNoSession(slot: Slot, importable: set<seq<byte>>)
    ensures SessionOps(FindClientCert(slot, importable).trace) == []
  {
    var x := FindX509(slot, importable, 0);
    CertSearchProjections(slot, importable, 0);
    if x.found.Some? {
      var k := FindPkey(slot, x.found.value.id, 1);
      KeySearchProjections(slot, x.found.value.id, 1);
      FilterAppend(x.trace, k.trace, IsSessionOp);
    }
  }

  lemma BracketedPair(ops: seq<Event>, rest: seq<Event>)
    requires |ops| == 1 || |ops| == 2
    requires ops[0].FindInit? && (|ops| == 2 <==> ops[0].rv == CKR_OK)
    requires |ops| == 2 ==> ops[1] == FindFinal(ops[0].slot)
    requires Bracketed(rest)
    ensures Bracketed(ops + rest)
  {
    if |ops| == 2 {
      assert (ops + rest)[2..] == rest;
    } else {
      assert (ops + rest)[1..] == rest;
    }
  }

  /** Every successful C_FindObjectsInit of the matcher is followed by C_FindObjectsFinal. */
  lemma MatchBracketed(slot: Slot, importable: set<seq<byte>>)
    ensures Bracketed(SearchOps(FindClientCert(slot, importable).trace))
  {
    var r := FindClientCert(slot, importable);
    var x := FindX509(slot, importable, 0);
    CertSearchProjections(slot, importable, 0);
    var xi := FindInit(slot.id, CertTemplate, FindInitAnswer(slot, 0));
    var xops := if xi.rv == CKR_OK then [xi, FindFinal(slot.id)] else [xi];
    if x.found.Some? {
      var id := x.found.value.id;
      var k := FindPkey(slot, id, 1);
      KeySearchProjections(slot, id, 1);
      FilterAppend(x.trace, k.trace, IsSearchOp);
      var ki := FindInit(slot.id, KeyTemplate(id), FindInitAnswer(slot, 1));
      var kops := if ki.rv == CKR_OK then [ki, FindFinal(slot.id)] else [ki];
      assert SearchOps(r.trace) == xops + kops;
      BracketedPair(kops, []);
      assert kops + [] == kops;
      BracketedPair(xops, kops);
    } else {
      BracketedPair(xops, []);
      assert xops + [] == xops;
    }
  }

  /** The key search runs only after a certificate was found, and searches for that certificate's ID. */
  lemma KeySearchOnlyAfterCert(slot: Slot, importable: set<seq<byte>>)
    ensures var r := FindClientCert(slot, importable);
            forall i :: 0 <= i < |r.trace| && r.trace[i].FindInit? ==>
              r.trace[i].template == CertTemplate
              || (r.cert.Some? && r.trace[i].template == KeyTemplate(r.cert.value.id))
  {
    var r := FindClientCert(slot, importable);
    var x := FindX509(slot, importable, 0);
    CertSearchEvents(slot, importable, 0);
    MatchTrace(slot, importable);
    if x.found.Some? {
      var k := FindPkey(slot, x.found.value.id, 1);
      forall i | |x.trace| <= i < |r.trace|
        ensures r.trace[i] == k.trace[i - |x.trace|]
      {
      }
      forall i | 0 <= i < |x.trace|
        ensures r.trace[i] == x.trace[i]
      {
      }
    }
  }

  /**
    The certificate found is installed on the HTTP session whatever the key
    search then answers, and no other certificate is installed.
   */
  lemma CertInstalledRegardless(slot: Slot, importable: set<seq<byte>>)
    ensures var r := FindClientCert(slot, importable);
            && (r.cert.Some? ==> SetClientCert(r.cert.value.der) in r.trace)
            && (forall i :: 0 <= i < |r.trace| && r.trace[i].SetClientCert? ==>
                  r.cert.Some? && r.trace[i].der == r.cert.value.der)
  {
    var r := FindClientCert(slot, importable);
    var x := FindX509(slot, importable, 0);
    CertSearchEvents(slot, importable, 0);
    MatchTrace(slot, importable);
    if x.found.Some? {
      var k := FindPkey(slot, x.found.value.id, 1);
      forall i | |x.trace| <= i < |r.trace|
        ensures !r.trace[i].SetClientCert?
      {
        assert r.trace[i] == k.trace[i - |x.trace|];
      }
      forall i | 0 <= i < |x.trace|
        ensures r.trace[i] == x.trace[i]
      {
      }
    }
  }
  /** A scan that finds a certificate ends by installing it. */
  lemma {:induction false} ScanEndsInstalling(slotId: nat, candidates: seq<Obj>, importable: set<seq<byte>>)
    requires ScanCerts(slotId, candidates, importable).found.Some?
    ensures var r := ScanCerts(slotId, candidates, importable);
            |r.trace| >= 1 && r.trace[|r.trace| - 1] == SetClientCert(r.found.value.der)
  {
    if !Acceptable(candidates[0], importable) {
      ScanEndsInstalling(slotId, candidates[1..], importable);
    }
  }

  /**
    The certificate the matcher returns is the last one it installs: the key
    search that follows installs nothing.
   */
  lemma MatchLastInstalled(slot: Slot, importable: set<seq<byte>>)
    requires FindClientCert(slot, importable).cert.Some?
    ensures LastInstalled(FindClientCert(slot, importable).trace, FindClientCert(slot, importable).cert.value.der)
  {
    var r := FindClientCert(slot, importable);
    var x := FindX509(slot, importable, 0);
    MatchTrace(slot, importable);
    var der := x.found.value.der;
    var rv := FindInitAnswer(slot, 0);
    var scan := ScanCerts(slot.id, SearchResults(slot.objects, CertTemplate), importable);
    assert x.trace == [FindInit(slot.id, CertTemplate, rv)] + scan.trace + [FindFinal(slot.id)];
    assert LastInstalled(scan.trace, der) by {
      ScanEndsInstalling(slot.id, SearchResults(slot.objects, CertTemplate), importable);
      assert scan.trace[|scan.trace| - 1] == SetClientCert(der);
    }
    LastInstalledPrepend([FindInit(slot.id, CertTemplate, rv)], scan.trace, der);
    LastInstalledAppend([FindInit(slot.id, CertTemplate, rv)] + scan.trace, [FindFinal(slot.id)], der);
    var k := FindPkey(slot, x.found.value.id, 1);
    assert r.trace == x.trace + k.trace;
    LastInstalledAppend(x.trace, k.trace, der);
  }
}
