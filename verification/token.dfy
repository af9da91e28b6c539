/**
  The token provider seen from neon: a scripted oracle. A slot answers the
  calls neon makes on it from queues fixed in advance, so that every
  operation of the model is a function of the provider's answers. Each
  operation returns, next to its result, the trace of provider and callback
  calls it made, with the answers it received.
 */
module Token {
  import opened Pkcs11

  /** The blank-padded text fields of CK_SLOT_INFO and CK_TOKEN_INFO. */
  type Description = s: seq<byte> | |s| == SLOT_DESCRIPTION_LEN witness seq(SLOT_DESCRIPTION_LEN, _ => 0)
  type Label = s: seq<byte> | |s| == TOKEN_LABEL_LEN witness seq(TOKEN_LABEL_LEN, _ => 0)

  /** Answer to C_GetSlotInfo. */
  datatype SlotInfo = SlotInfo(flags: bv64, description: Description)

  /** Answer to C_GetTokenInfo. */
  datatype TokenInfo = TokenInfo(flags: bv64, tokenLabel: Label)

  /** An object on the token with the attributes neon asks about. */
  datatype Obj = Obj(
    handle: nat,
    objectClass: nat,
    certificateType: Option<nat>,
    keyType: Option<nat>,
    id: seq<byte>,
    value: seq<byte>,
    subject: seq<byte>,
    readable: bool)   // false when the token refuses to reveal the attributes

  /** One (attribute, value) filter of a search template. */
  datatype Attr =
    | Class(objectClass: nat)
    | CertificateType(certificateType: nat)
    | KeyType(keyType: nat)
    | Id(id: seq<byte>)

  /**
    A slot and the token in it. The answers to C_GetTokenInfo, C_Login and
    C_FindObjectsInit are queues consumed in call order during the one visit
    neon pays to the slot; a queue that has run out answers with an error.
   */
  datatype Slot = Slot(
    id: nat,
    info: Option<SlotInfo>,            // None: C_GetSlotInfo fails
    openRv: nat,                       // answer to C_OpenSession
    tokenInfos: seq<Option<TokenInfo>>,
    logins: seq<nat>,
    findInits: seq<nat>,
    objects: seq<Obj>)                 // the token's objects in discovery order

  /** The module's answers to the two C_GetSlotList calls. */
  datatype Module = Module(count: Option<nat>, slots: Option<seq<Slot>>)

  /** What the PIN callback does with one prompt. */
  datatype PinAnswer = Abort | Entered(pin: seq<byte>)

  /** The session's PIN callback: attempt, slot description, token label, flags. */
  type PinCallback = (nat, seq<byte>, seq<byte>, bv32) -> PinAnswer

  /**
    What the HTTP session and the certificate parser contribute: the optional
    PIN callback and the DER encodings the parser imports as client certificates.
   */
  datatype Env = Env(pin: Option<PinCallback>, importable: set<seq<byte>>)

  /** One call made by the code, with the answer it got. */
  datatype Event =
    | GetSlotList(filling: bool, ok: bool)
    | GetSlotInfo(slot: nat, ok: bool)
    | OpenSession(slot: nat, rv: nat)
    | CloseSession(slot: nat)
    | GetTokenInfo(slot: nat, ok: bool)
    | Prompt(attempt: nat, description: seq<byte>, tokenLabel: seq<byte>, flags: bv32)
    | LoginCall(slot: nat, pin: Option<seq<byte>>, rv: nat)
    | FindInit(slot: nat, template: seq<Attr>, rv: nat)
    | GetAttributes(slot: nat, handle: nat, rv: nat)
    | SetClientCert(der: seq<byte>)
    | FindFinal(slot: nat)
    | SignInit(slot: nat, mechanism: nat, key: nat, rv: nat)
    | Sign(slot: nat, digest: seq<byte>, buffer: Option<nat>, rv: nat)
    | DestroyModule(handle: nat)

  function TokenInfoAnswer(s: Slot, call: nat): Option<TokenInfo> {
    if call < |s.tokenInfos| then s.tokenInfos[call] else None
  }

  function LoginAnswer(s: Slot, call: nat): nat {
    if call < |s.logins| then s.logins[call] else CKR_GENERAL_ERROR
  }

  function FindInitAnswer(s: Slot, call: nat): nat {
    if call < |s.findInits| then s.findInits[call] else CKR_GENERAL_ERROR
  }

  /**
    Answer to C_GetAttributeValue for the value, ID and subject of `o`, each
    into a buffer of ATTRIBUTE_BUFFER_LEN bytes: a value that does not fit is
    CKR_BUFFER_TOO_SMALL (PKCS #11 v2.20 section 11.7).
   */
  function AttributeAnswer(o: Obj): nat {
    if !o.readable then CKR_ATTRIBUTE_SENSITIVE
    else if |o.value| > ATTRIBUTE_BUFFER_LEN || |o.id| > ATTRIBUTE_BUFFER_LEN
            || |o.subject| > ATTRIBUTE_BUFFER_LEN then CKR_BUFFER_TOO_SMALL
    else CKR_OK
  }

  predicate HasAttr(o: Obj, a: Attr) {
    match a
    case Class(c) => o.objectClass == c
    case CertificateType(t) => o.certificateType == Some(t)
    case KeyType(t) => o.keyType == Some(t)
    case Id(i) => o.id == i
  }

  predicate MatchesTemplate(o: Obj, template: seq<Attr>) {
    forall i :: 0 <= i < |template| ==> HasAttr(o, template[i])
  }

  /** The objects a search initialised with `template` returns, in order. */
  function SearchResults(objects: seq<Obj>, template: seq<Attr>): (r: seq<Obj>)
    ensures forall i :: 0 <= i < |r| ==> r[i] in objects && MatchesTemplate(r[i], template)
  {
    Filter(objects, o => MatchesTemplate(o, template))
  }

  /** The search misses nothing: every object that matches the template is a result. */
  lemma SearchFindsEveryMatch(objects: seq<Obj>, template: seq<Attr>)
    ensures forall o :: o in objects && MatchesTemplate(o, template) ==> o in SearchResults(objects, template)
  {
    FilterComplete(objects, o => MatchesTemplate(o, template));
  }

  /**
    `der` is the certificate installed last: the trace installs it, and no
    certificate is installed after that.
   */
  predicate LastInstalled(trace: seq<Event>, der: seq<byte>) {
    exists i :: 0 <= i < |trace| && trace[i] == SetClientCert(der)
                && forall j :: i < j < |trace| ==> !trace[j].SetClientCert?
  }

  lemma LastInstalledPrepend(a: seq<Event>, b: seq<Event>, der: seq<byte>)
    requires LastInstalled(b, der)
    ensures LastInstalled(a + b, der)
  {
    var i :| 0 <= i < |b| && b[i] == SetClientCert(der) && forall j :: i < j < |b| ==> !b[j].SetClientCert?;
    assert (a + b)[|a| + i] == b[i];
    forall j | |a| + i < j < |a + b|
      ensures !(a + b)[j].SetClientCert?
    {
      assert (a + b)[j] == b[j - |a|];
    }
  }

  lemma LastInstalledAppend(a: seq<Event>, b: seq<Event>, der: seq<byte>)
    requires LastInstalled(a, der)
    requires forall j :: 0 <= j < |b| ==> !b[j].SetClientCert?
    ensures LastInstalled(a + b, der)
  {
    var i :| 0 <= i < |a| && a[i] == SetClientCert(der) && forall j :: i < j < |a| ==> !a[j].SetClientCert?;
    assert (a + b)[i] == a[i];
    forall j | i < j < |a + b|
      ensures !(a + b)[j].SetClientCert?
    {
      if j < |a| {
        assert (a + b)[j] == a[j];
      } else {
        assert (a + b)[j] == b[j - |a|];
      }
    }
  }

  // Projections of a trace.

  /** Session openings that succeeded, and closings. */
  predicate IsSessionOp(e: Event) {
    (e.OpenSession? && e.rv == CKR_OK) || e.CloseSession?
  }

  function SessionOps(trace: seq<Event>): seq<Event> {
    Filter(trace, IsSessionOp)
  }

  predicate IsSearchOp(e: Event) {
    e.FindInit? || e.FindFinal?
  }

  function SearchOps(trace: seq<Event>): seq<Event> {
    Filter(trace, IsSearchOp)
  }
}
