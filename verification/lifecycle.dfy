/**
  The provider context and its lifecycle: `pk11_setup` creates it when a
  module has been loaded, `pk11_destroy` releases it with the HTTP session,
  and the two `ne_ssl_provide_*` entry points load a module and set up the
  context, or report why they could not.
 */
module Lifecycle {
  import opened Pkcs11
  import opened Token

  /**
    `struct pk11_context`: the loaded module, the slot whose session is held
    (the session that found the client certificate), and the private key handle.
   */
  datatype Context = Context(moduleHandle: nat, session: Option<nat>, privkey: nat)

  /** `pk11_setup`: a context holding no session and no key. */
  function Setup(moduleHandle: nat): (ctx: Context)
    ensures ctx.moduleHandle == moduleHandle
    ensures ctx.session.None? && ctx.privkey == CK_INVALID_HANDLE
  {
    Context(moduleHandle, None, CK_INVALID_HANDLE)
  }

  /** `pk11_destroy`: close the held session, if any, then destroy the module. */
  function Destroy(ctx: Context): (trace: seq<Event>)
    ensures |trace| == (if ctx.session.Some? then 2 else 1)
    ensures trace[|trace| - 1] == DestroyModule(ctx.moduleHandle)
  {
    (if ctx.session.Some? then [CloseSession(ctx.session.value)] else []) + [DestroyModule(ctx.moduleHandle)]
  }

  /** Destroy closes exactly the held session, and destroys the module once, last. */
  lemma DestroyReleases(ctx: Context)
    ensures var trace := Destroy(ctx);
            && SessionOps(trace) == (if ctx.session.Some? then [CloseSession(ctx.session.value)] else [])
            && |trace| >= 1 && trace[|trace| - 1] == DestroyModule(ctx.moduleHandle)
            && (forall i :: 0 <= i < |trace| - 1 ==> !trace[i].DestroyModule?)
  {
    var d := DestroyModule(ctx.moduleHandle);
    assert Filter([d], IsSessionOp) == Filter([], IsSessionOp);
    if ctx.session.Some? {
      var c := CloseSession(ctx.session.value);
      assert [c, d][1..] == [d];
      assert Filter([c, d], IsSessionOp) == [c] + Filter([d], IsSessionOp);
    }
  }

  /** Whether neon was built with PKCS #11 support. */
  datatype Build = WithPakchois | WithoutPakchois

  /** The return code of an entry point and the context it set up, if any. */
  datatype Registration = Registration(rc: int, ctx: Option<Context>)

  /**
    `ne_ssl_provide_pkcs11_clicert` and `ne_ssl_provide_nsspk11_clicert`:
    the two differ only in how the module is loaded, which is given here as
    the loaded module's handle, or None when the load failed. Each outcome
    has one cause: no PKCS #11 support gives NE_FAILED, a module that fails
    to load gives NE_LOOKUP, and a loaded module gives NE_OK with a fresh
    context on that module.
   */
  function ProvideClicert(build: Build, loaded: Option<nat>): (r: Registration)
    ensures r.rc == NE_OK || r.rc == NE_LOOKUP || r.rc == NE_FAILED
    ensures r.rc == NE_FAILED <==> build == WithoutPakchois
    ensures r.rc == NE_LOOKUP <==> build == WithPakchois && loaded.None?
    ensures r.rc == NE_OK <==> build == WithPakchois && loaded.Some?
    ensures r.ctx.Some? <==> r.rc == NE_OK
    ensures r.rc == NE_OK ==> r.ctx.value.moduleHandle == loaded.value
                              && r.ctx.value.session.None? && r.ctx.value.privkey == CK_INVALID_HANDLE
  {
    match build
    case WithoutPakchois => Registration(NE_FAILED, None)
    case WithPakchois =>
      if loaded.None? then Registration(NE_LOOKUP, None)
      else Registration(NE_OK, Some(Setup(loaded.value)))
  }
}
