/**
  The signing delegate `pk11_sign_callback`: GnuTLS asks for a signature
  over a digest during the TLS handshake, and the callback has the token
  sign it with the private key found by the matcher, mechanism CKM_RSA_PKCS.
  The output length follows the convention of section 11.2 of PKCS #11
  v2.20: a first C_Sign call without a buffer returns a length that
  suffices, and a second call fills a buffer of that length and reports
  the length actually written, which may be smaller.
 */
module Signing {
  import opened Pkcs11
  import opened Token
  import opened Lifecycle

  /** The token's answers to one signing: C_SignInit, the length probe, and the fill. */
  datatype SignScript = SignScript(initRv: nat, probeRv: nat, probedLen: nat, fillRv: nat, written: seq<byte>)

  /** GnuTLS's signature datum: its declared size and the bytes the token wrote into it. */
  datatype Signature = Signature(size: nat, data: seq<byte>)

  datatype SignResult = SignResult(rc: int, signature: Option<Signature>, trace: seq<Event>)

  /** The provider calls of one signing, and the bytes written when all of them succeeded. */
  datatype Exchange = Exchange(rc: int, written: Option<seq<byte>>, trace: seq<Event>)

  /** The fill call's answer: a signature longer than the buffer does not fit. */
  function FillAnswer(script: SignScript, buffer: nat): (rv: nat)
    ensures rv == CKR_OK ==> |script.written| <= buffer
  {
    if |script.written| > buffer then CKR_BUFFER_TOO_SMALL else script.fillRv
  }

  /** Whether the context can sign: it holds a session and a key handle. */
  predicate CanSign(ctx: Context) {
    ctx.session.Some? && ctx.privkey != CK_INVALID_HANDLE
  }

  /** The guard and the three provider calls, shared by both versions of the callback. */
  function SignExchange(ctx: Context, digest: seq<byte>, script: SignScript): (x: Exchange)
    ensures x.written.Some? <==> x.rc == 0
    ensures x.written.Some? ==> x.written.value == script.written && |script.written| <= script.probedLen
  {
    if !CanSign(ctx) then Exchange(GNUTLS_E_NO_CERTIFICATE_FOUND, None, [])
    else
      var slot := ctx.session.value;
      var init := SignInit(slot, CKM_RSA_PKCS, ctx.privkey, script.initRv);
      if script.initRv != CKR_OK then Exchange(GNUTLS_E_PK_SIGN_FAILED, None, [init])
      else
        var probe := Sign(slot, digest, None, script.probeRv);
        if script.probeRv != CKR_OK then Exchange(GNUTLS_E_PK_SIGN_FAILED, None, [init, probe])
        else
          var fillRv := FillAnswer(script, script.probedLen);
          var fill := Sign(slot, digest, Some(script.probedLen), fillRv);
          if fillRv != CKR_OK then Exchange(GNUTLS_E_PK_SIGN_FAILED, None, [init, probe, fill])
          else Exchange(0, Some(script.written), [init, probe, fill])
  }

  /** `pk11_sign_callback` as written: the signature's size is the probed length. */
  function SignCallbackAsWritten(ctx: Context, digest: seq<byte>, script: SignScript): (r: SignResult)
    ensures r.rc == 0 ==> r.signature.Some? && r.signature.value.size == script.probedLen
    ensures r.rc == 0 ==> |r.signature.value.data| <= r.signature.value.size
  {
    var x := SignExchange(ctx, digest, script);
    SignResult(x.rc, if x.rc == 0 then Some(Signature(script.probedLen, x.written.value)) else None, x.trace)
  }

  /** `pk11_sign_callback` with the signature's size set to the length the fill call reports. */
  function SignCallback(ctx: Context, digest: seq<byte>, script: SignScript): (r: SignResult)
    ensures r.rc == 0 || r.rc == GNUTLS_E_NO_CERTIFICATE_FOUND || r.rc == GNUTLS_E_PK_SIGN_FAILED
    ensures r.signature.Some? <==> r.rc == 0
    ensures r.rc == 0 ==> r.signature.value.size == |r.signature.value.data|
                          && r.signature.value.data == script.written
                          && r.signature.value.size <= script.probedLen
  {
    var x := SignExchange(ctx, digest, script);
    SignResult(x.rc, if x.rc == 0 then Some(Signature(|x.written.value|, x.written.value)) else None, x.trace)
  }

  /** A context without a session or a key refuses to sign, without calling the provider. */
  lemma SignGuard(ctx: Context, digest: seq<byte>, script: SignScript)
    ensures var r := SignCallback(ctx, digest, script);
            && (r.rc == GNUTLS_E_NO_CERTIFICATE_FOUND <==> !CanSign(ctx))
            && (!CanSign(ctx) ==> r.trace == [])
  {
  }

  /**
    With a session and a key, the callback signs with CKM_RSA_PKCS and the
    key found earlier, probes, then fills a buffer of the probed length, all
    on the held session; it succeeds exactly when all three calls do.
   */
  lemma SignSequence(ctx: Context, digest: seq<byte>, script: SignScript)
    requires CanSign(ctx)
    ensures var r := SignCallback(ctx, digest, script);
            var slot := ctx.session.value;
            && 1 <= |r.trace| <= 3
            && r.trace[0] == SignInit(slot, CKM_RSA_PKCS, ctx.privkey, script.initRv)
            && (|r.trace| >= 2 ==> r.trace[1] == Sign(slot, digest, None, script.probeRv))
            && (|r.trace| == 3 ==> r.trace[2] == Sign(slot, digest, Some(script.probedLen),
                                                     FillAnswer(script, script.probedLen)))
            && (|r.trace| >= 2 <==> script.initRv == CKR_OK)
            && (|r.trace| == 3 <==> script.initRv == CKR_OK && script.probeRv == CKR_OK)
            && (r.rc == 0 <==> forall i :: 0 <= i < |r.trace| ==> r.trace[i].rv == CKR_OK)
            && (r.rc != 0 ==> r.rc == GNUTLS_E_PK_SIGN_FAILED)
  {
  }

  /** A freshly set-up context refuses to sign. */
  lemma FreshContextRefusesToSign(moduleHandle: nat, digest: seq<byte>, script: SignScript)
    ensures SignCallback(Setup(moduleHandle), digest, script)
            == SignResult(GNUTLS_E_NO_CERTIFICATE_FOUND, None, [])
  {
  }

  /**
    The callback as written makes the same provider calls and returns the
    same code as the corrected one, so the guard and the call sequence hold
    of it too; only the declared size can differ.
   */
  lemma AsWrittenSameCalls(ctx: Context, digest: seq<byte>, script: SignScript)
    ensures var a := SignCallbackAsWritten(ctx, digest, script);
            var b := SignCallback(ctx, digest, script);
            && a.rc == b.rc && a.trace == b.trace
            && (a.signature.Some? <==> b.signature.Some?)
            && (a.signature.Some? ==> a.signature.value.data == b.signature.value.data)
  {
  }

  // The signature size as written.

  /**
    The callback as written and the corrected one agree exactly when the
    signing fails or the token writes as many bytes as it probed.
   */
  lemma AsWrittenAgreesIff(ctx: Context, digest: seq<byte>, script: SignScript)
    ensures SignCallbackAsWritten(ctx, digest, script) == SignCallback(ctx, digest, script)
            <==> SignCallback(ctx, digest, script).rc != 0 || |script.written| == script.probedLen
  {
    var a := SignCallbackAsWritten(ctx, digest, script);
    var b := SignCallback(ctx, digest, script);
    if a == b && b.rc == 0 {
      assert a.signature.value.size == b.signature.value.size;
    }
  }

  /**
    A token that probes 257 bytes and then writes a 256-byte signature: the
    callback as written declares a 257-byte signature of which only 256
    bytes were written by the token.
   */
  lemma SizeMismatchExample()
    ensures var ctx := Context(1, Some(7), 2);
            var script := SignScript(CKR_OK, CKR_OK, 257, CKR_OK, seq(256, _ => 0x5A));
            var r := SignCallbackAsWritten(ctx, [1, 2, 3], script);
            && r.rc == 0
            && r.signature.value.size == 257
            && |r.signature.value.data| == 256
            && SignCallback(ctx, [1, 2, 3], script).signature.value.size == 256
  {
  }
}
