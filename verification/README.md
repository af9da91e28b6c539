# neon PKCS #11 client-certificate provider, modelled in Dafny

neon is an HTTP/WebDAV client library. `src/ne_pkcs11.c` lets an HTTP
session take its TLS client certificate and private key from a PKCS #11
token, through the pakchois wrapper library. This project models that file:

- **the provider context and its lifecycle.** `pk11_setup` creates the
  context. `pk11_destroy` releases it with the HTTP session. The two
  `ne_ssl_provide_*clicert` entry points load a module and report
  NE_LOOKUP or NE_FAILED when they cannot.
- **slot enumeration.** `pk11_provide` lists the slots that hold a token. For
  each one it reads the slot info, opens a session, logs in and looks for a
  certificate and key. The first slot that yields both wins and keeps its
  session; every other opened session is closed.
- **the login controller.** `pk11_login` handles three cases: no login
  required, the protected authentication path, or the PIN loop. The PIN loop
  prompts through the session's PIN callback until the token stops answering
  CKR_PIN_INCORRECT. Before each later prompt it re-reads the token
  information.
- **`terminate_string`.** It trims the blank-padded slot description and
  token label before they reach the PIN callback.
- **the object matcher.** `find_client_cert` combines `pk11_find_x509` and
  `pk11_find_pkey`. It takes the first X.509 certificate whose attributes
  can be read and whose DER encoding imports, installs it on the session,
  then takes the first RSA private key with the same CKA_ID.
- **the signing delegate.** `pk11_sign_callback` runs C_SignInit with
  CKM_RSA_PKCS. It then calls C_Sign twice: once to probe the length, once
  to fill a buffer of that length.

The token provider is a scripted oracle (`Token.Slot`, `Token.Module`).
Each slot holds queues of answers for C_GetTokenInfo, C_Login and
C_FindObjectsInit, consumed in call order. An exhausted queue answers with
an error. Each operation returns its result together with a trace of the
calls it made and the answers it received. The properties are stated over
that trace: which sessions are opened and closed, which prompts are shown,
which login answers are consumed.

Two things are parameters of the model:
- the session's PIN callback: a pure function from (attempt, description,
  label, flags) to an abort or an entered PIN;
- the X.509 parser: the set of DER encodings it imports.

Module layout:
- `pkcs11.dfy`: constants of PKCS #11 v2.20, GnuTLS and neon, and `Filter`
  for trace projections.
- `fixed_text.dfy`: `terminate_string`.
- `token.dfy`: the provider oracle and the trace events.
- `login.dfy`: `pk11_login`.
- `matcher.dfy`: `find_client_cert`.
- `lifecycle.dfy`: the context, `pk11_setup`, `pk11_destroy` and the entry points.
- `sign.dfy`: `pk11_sign_callback`.
- `sessions.dfy`: balanced session traces.
- `provide.dfy`: `pk11_provide` and the whole session lifecycle.

The do-while loop of `pk11_login` is split into two functions.
`TokenLogin.PinRound` is one pass of the loop body. `TokenLogin.PinLoop` is
the loop itself.

## Model

| member | source | states |
|---|---|---|
| FixedText.TerminateString | src/ne_pkcs11.c:227-240 | The scan from the end writes NUL in the byte after the last non-blank. For an all-blank field it writes NUL in byte 0. For a field whose last byte is not blank it writes NUL in that last byte. This agrees with the independent definition `Terminated` on every field of length at least 1. |
| FixedText.LastNonBlank | src/ne_pkcs11.c:229-232 | Gives the index of the last byte that is not a space, tab or NUL, or -1 when there is none. Every byte after that index is blank. |
| FixedText.CStr | src/ne_pkcs11.c:313 | The C string read from a buffer is its prefix up to the first NUL. That prefix contains no NUL. |
| FixedText.VisibleText | src/ne_pkcs11.c:227-240 | The text the PIN callback sees is the field's text before the cut. Bytes before the cut are never changed. |
| FixedText.TrimsTrailingBlanks | src/ne_pkcs11.c:229-239 | A padded field with no NUL in its text shows exactly that text. The shown text does not end in a blank. Everything after it was blank. |
| FixedText.FullFieldLosesLastByte | src/ne_pkcs11.c:236-237 | A field with no padding has its last byte overwritten by the terminator. |
| FixedText.AllBlankIsEmpty | src/ne_pkcs11.c:234-235 | An all-blank field becomes the empty string, with its first byte NUL. |
| FixedText.MyTokenExample | src/ne_pkcs11.c:304 | The label "My Token" followed by three spaces and three NULs is shown as "My Token". |
| FixedText.ProbesAsWritten | src/ne_pkcs11.c:229-232 | The loop as written reads indices p, p-1, ... one after the other. Every read but the last is a blank byte inside the field. The last read is a non-blank byte or index -1, before the buffer. |
| FixedText.ProbesBoundFirst | src/ne_pkcs11.c:231 | The corrected scan only reads indices between 0 and the starting index. |
| FixedText.ProbesDifferByStrayRead | src/ne_pkcs11.c:231 | The scan as written reads the same bytes as the corrected scan. It adds one read at index -1 exactly when every byte up to the start is blank. |
| FixedText.AsWrittenReadsBeforeBuffer | src/ne_pkcs11.c:231 | The scan as written reads index -1 if and only if the whole field is blank. |
| TokenLogin.PinFlags | src/ne_pkcs11.c:299-302 | The count-low flag is set iff the token reports CKF_USER_PIN_COUNT_LOW. The final-try flag is set iff it reports CKF_USER_PIN_FINAL_TRY. No other bit is set. |
| TokenLogin.PinRound | src/ne_pkcs11.c:289-318 | A round asks for another round only when its login answer was CKR_PIN_INCORRECT. Otherwise it ends with 0 or -1, and 0 only on a CKR_OK login answer. |
| TokenLogin.PinLoop | src/ne_pkcs11.c:285-322 | The loop ends with 0 or -1. |
| TokenLogin.Login | src/ne_pkcs11.c:242-323 | Returns 0 or -1. The first call is always C_GetTokenInfo on the slot. |
| TokenLogin.RoundProjections | src/ne_pkcs11.c:285-318 | A round shows at most one prompt, numbered with its attempt. It makes at most as many login calls as prompts. A repeated round made one login call, answered CKR_PIN_INCORRECT, with the next login answer. |
| TokenLogin.RoundSteps | src/ne_pkcs11.c:285-318 | Every round after the first starts by re-reading the token info. Each prompt shows the latest token snapshot. Each login call passes the PIN just entered. A finished round stops on an answer that is not CKR_PIN_INCORRECT, and succeeds iff it ends on CKR_OK. |
| TokenLogin.PinLoopAttempts | src/ne_pkcs11.c:285-311 | Prompt number i of the loop carries attempt number start + i. There are never more login calls than prompts, and at most one more prompt than login calls (that each login call directly follows its prompt is `PinLoopRounds`). |
| TokenLogin.PinLoopConsumes | src/ne_pkcs11.c:313-318 | The loop's login calls receive consecutive login answers. All of them but the last were CKR_PIN_INCORRECT. |
| TokenLogin.PinLoopStops | src/ne_pkcs11.c:318 | When the loop ends on a login call, its answer is not CKR_PIN_INCORRECT. |
| TokenLogin.PinLoopEnds | src/ne_pkcs11.c:291-318 | The loop stops only where `pk11_login` returns: on a failed re-read of the token info, on a prompt the callback aborts, or on a login call answered with anything but CKR_PIN_INCORRECT. |
| TokenLogin.PinLoopResult | src/ne_pkcs11.c:318-322 | The loop returns 0 iff its last call is a login answered CKR_OK. Each later round starts by re-reading the token info. |
| TokenLogin.PinLoopRounds | src/ne_pkcs11.c:289-313 | Every position of the loop's trace satisfies the round facts: each prompt shows the latest snapshot; each login call directly follows its prompt and passes the PIN entered there; a re-read of the token info directly follows a login answered CKR_PIN_INCORRECT; a failed re-read or a prompt the callback aborts ends the trace. |
| TokenLogin.LoginQueryFailure | src/ne_pkcs11.c:250-254 | If the first C_GetTokenInfo fails, the result is -1, with no prompt and no login call. |
| TokenLogin.LoginNotRequired | src/ne_pkcs11.c:256-259 | A token without CKF_LOGIN_REQUIRED gives 0, with no prompt and no login call. |
| TokenLogin.LoginProtectedPath | src/ne_pkcs11.c:264-273 | On the protected authentication path there is exactly one login call, with no PIN, and no prompt. The result is 0 iff that call answers CKR_OK, and -1 otherwise. |
| TokenLogin.LoginNoCallback | src/ne_pkcs11.c:277-281 | When a PIN is needed and no callback is registered, the result is -1, with no prompt and no login call. |
| TokenLogin.InteractiveTrace | src/ne_pkcs11.c:283-322 | The PIN path is one successful C_GetTokenInfo followed by the PIN loop from attempt 1. It returns the loop's result. |
| TokenLogin.LoginInteractive | src/ne_pkcs11.c:285-322 | On the PIN path the prompts are numbered 1, 2, 3 and so on. Login calls consume the login answers from the first on, retrying only on CKR_PIN_INCORRECT. The trace ends only on a failed re-read, an aborted prompt or a login answer other than CKR_PIN_INCORRECT. The result is 0 iff the last call is a login answered CKR_OK; that a prompt the callback aborts ends the trace is `LoginInteractiveSteps`. |
| TokenLogin.LoginInteractiveSteps | src/ne_pkcs11.c:289-313 | On the PIN path every prompt shows the trimmed description and the trimmed label and flags of the latest token info. A prompt after the first follows a fresh C_GetTokenInfo, and every re-read follows a login answered CKR_PIN_INCORRECT. Every login call passes the PIN just entered. A prompt the callback aborts is the last call. |
| TokenLogin.LoginEvents | src/ne_pkcs11.c:242-323 | A login only reads token info and logs in on its own slot, and prompts. |
| Token.SearchResults | src/ne_pkcs11.c:80-81 | Every object a search returns is an object of the token that matches every attribute of the template, and there are no more results than objects. |
| Token.SearchFindsEveryMatch | src/ne_pkcs11.c:80-81 | The search misses nothing: every object of the token that matches the template is among the results, so with `SearchResults` the results are exactly the matching objects. |
| Matcher.ScanCerts | src/ne_pkcs11.c:80-109 | A found certificate's DER encoding imports and its ID fits the 8192-byte buffer. It is installed on the session, and nothing else is installed. The loop only fetches attributes and installs. |
| Matcher.ScanStopsAtFirstAcceptable | src/ne_pkcs11.c:80-109 | When candidate k is the first whose attributes fetch and whose value imports, the scan returns it. It fetches exactly candidates 0..k, then installs it. |
| Matcher.ScanWithoutAcceptable | src/ne_pkcs11.c:80-109 | When no candidate is acceptable, the scan finds nothing. It fetches every candidate and installs nothing. |
| Matcher.FindX509 | src/ne_pkcs11.c:52-113 | A certificate is found only when C_FindObjectsInit succeeded. |
| Matcher.CertFoundIff | src/ne_pkcs11.c:63-113 | A certificate is found iff the search starts and some object is an X.509 certificate whose attributes fetch and whose value imports. |
| Matcher.FindPkey | src/ne_pkcs11.c:115-159 | A key is found only when C_FindObjectsInit succeeded. |
| Matcher.KeyTemplateMeaning | src/ne_pkcs11.c:126-140 | An object matches the key template iff it is an RSA private key whose CKA_ID equals the certificate's. |
| Matcher.KeyFoundIff | src/ne_pkcs11.c:142-158 | A key is found iff the search starts and the token holds an RSA private key with the certificate's ID. The handle returned is such a key's. |
| Matcher.KeyIsFirstHit | src/ne_pkcs11.c:149-154 | The key taken is the first matching key in discovery order. |
| Matcher.FindClientCert | src/ne_pkcs11.c:161-170 | A key is found only after a certificate is found. |
| Matcher.CertSearchEvents | src/ne_pkcs11.c:94-103 | The certificate search uses the certificate template and installs only the certificate it returns. |
| Matcher.CertSearchProjections | src/ne_pkcs11.c:74-111 | The certificate search opens no session. Its search calls are the init alone when init fails, and the init and C_FindObjectsFinal otherwise. |
| Matcher.KeySearchProjections | src/ne_pkcs11.c:142-156 | The key search opens no session. Its search calls are the init alone when init fails, and the init and C_FindObjectsFinal otherwise. |
| Matcher.MatchOpensNoSession | src/ne_pkcs11.c:161-170 | The matcher neither opens nor closes a session. |
| Matcher.MatchBracketed | src/ne_pkcs11.c:52-159 | Every search the matcher starts successfully is finished with C_FindObjectsFinal before the next one starts. A failed start is not finished. |
| Matcher.KeySearchOnlyAfterCert | src/ne_pkcs11.c:168-169 | Every search uses either the certificate template or the key template for the ID of the certificate found. |
| Matcher.ScanEndsInstalling | src/ne_pkcs11.c:97-103 | A scan that finds a certificate ends by installing it. |
| Matcher.MatchLastInstalled | src/ne_pkcs11.c:161-170 | The certificate the matcher returns is the last one it installs; the key search installs nothing. |
| Matcher.CertInstalledRegardless | src/ne_pkcs11.c:97-103 | A found certificate is installed on the session even when no key is found afterwards. Only that certificate is installed. |
| Lifecycle.Setup | src/ne_pkcs11.c:389-396 | A new context keeps the module and holds no session and no key. |
| Lifecycle.Destroy | src/ne_pkcs11.c:41-50 | Destroying makes two calls when a session is held and one otherwise. The last call destroys the module. |
| Lifecycle.DestroyReleases | src/ne_pkcs11.c:41-50 | Destroying closes exactly the held session and destroys the module once, last. |
| Lifecycle.ProvideClicert | src/ne_pkcs11.c:413-463 | NE_FAILED iff built without PKCS #11 support. NE_LOOKUP iff the module does not load. NE_OK iff it loads, and only then is a context created: a fresh one on that module. |
| Signing.FillAnswer | src/ne_pkcs11.c:215-216 | The fill call succeeds only when the signature fits the buffer. |
| Signing.SignExchange | src/ne_pkcs11.c:181-224 | Bytes are returned iff the result is 0. They are the token's signature, and no longer than the probed length. |
| Signing.SignCallbackAsWritten | src/ne_pkcs11.c:212-213 | As written, a successful signature declares the probed length as its size. |
| Signing.SignCallback | src/ne_pkcs11.c:174-225 | The corrected callback (second Findings row), whose size comes from the fill. The result is 0, GNUTLS_E_NO_CERTIFICATE_FOUND or GNUTLS_E_PK_SIGN_FAILED. There is a signature iff the result is 0. Its size is the number of bytes written, its data are the token's signature, and it is no longer than the probe. |
| Signing.SignGuard | src/ne_pkcs11.c:186-189 | The result is GNUTLS_E_NO_CERTIFICATE_FOUND iff the context has no session or no key. In that case no provider call is made. |
| Signing.SignSequence | src/ne_pkcs11.c:193-220 | The calls are C_SignInit with CKM_RSA_PKCS and the found key, then the probe, then the fill with a buffer of the probed length. Each call is made only if the previous one succeeded. The result is 0 iff every call succeeded, and GNUTLS_E_PK_SIGN_FAILED otherwise. |
| Signing.FreshContextRefusesToSign | src/ne_pkcs11.c:186-189 | A context straight from set-up refuses to sign and calls nothing. |
| Signing.AsWrittenSameCalls | src/ne_pkcs11.c:181-220 | The callback as written makes the same provider calls and returns the same code as the corrected one, with the same signature bytes, so `SignGuard` and `SignSequence` hold of it too. |
| Signing.AsWrittenAgreesIff | src/ne_pkcs11.c:212-216 | The callback as written agrees with the corrected one iff signing fails or the token writes exactly the probed length. |
| Signing.SizeMismatchExample | src/ne_pkcs11.c:212-216 | A probe of 257 bytes followed by a 256-byte signature makes the callback as written declare 257 bytes. |
| Provide.VisitSlot | src/ne_pkcs11.c:350-384 | A slot yields a key only if its slot info was read, a token is present and a session was opened. |
| Provide.VisitSessions | src/ne_pkcs11.c:355-383 | A visit that opens no session records no session call. A winning visit opens exactly one session and keeps it. A losing visit opens one and closes it. |
| Provide.OpenedVisitSessions | src/ne_pkcs11.c:365-383 | Once `C_OpenSession` succeeds, the session is kept exactly when the matcher found a key; on a failed login or a failed match it is closed, and no other session call happens. |
| Provide.VisitWinsIff | src/ne_pkcs11.c:374-380 | A visit wins iff the session opens, the login returns 0 and the matcher finds a key. The key is the matcher's. |
| Provide.VisitDisciplined | src/ne_pkcs11.c:350-384 | A winning visit leaves exactly one session open, on its own slot. Any other visit opens and closes one session on its slot, or opens none. No visit destroys the module. |
| Provide.Enumerate | src/ne_pkcs11.c:350-384 | The winner, if any, is one of the listed slots. |
| Provide.EnumerateFirstWinner | src/ne_pkcs11.c:374-380 | When slot k is the first to win, it is the winner with its key. Exactly slots 0..k are visited. |
| Provide.EnumerateWithoutWinner | src/ne_pkcs11.c:350-386 | When no slot wins, there is no winner and every slot is visited. |
| Provide.VisitsOpenOnListed | src/ne_pkcs11.c:365-372 | Sessions are opened and closed only on listed slots. |
| Provide.EnumerateSessions | src/ne_pkcs11.c:365-383 | Session calls pair up open/close. When there is a winner they are followed by one open of the winner's session. |
| Provide.ProvideClient | src/ne_pkcs11.c:325-387 | Providing keeps the module. The context changes only by taking a session, and only after a successful slot listing. |
| Provide.ProvideWithoutSlots | src/ne_pkcs11.c:333-346 | A failed or empty slot listing leaves the context unchanged and opens no session. |
| Provide.ProvideListed | src/ne_pkcs11.c:333-350 | After a successful listing the trace is the two listings followed by the enumeration. The context takes the winner's session and key, or stays unchanged. |
| Provide.ProvideTakesFirstWinner | src/ne_pkcs11.c:374-379 | The context takes the session and key of the first winning slot. Sessions were opened only on slots up to it. |
| Provide.ProvideWithoutWinner | src/ne_pkcs11.c:350-386 | When no listed slot wins, the context is unchanged. |
| Provide.ProvideSessions | src/ne_pkcs11.c:350-384 | The session calls of a provide call pair up, and the context is unchanged, or they pair up except a final open of the session the context now holds. |
| Provide.EnumerateKeepsVisitEvents | src/ne_pkcs11.c:350-384 | Every call made while visiting a slot the enumeration reaches is in the enumeration's trace. |
| Provide.VisitInstallsFoundCert | src/ne_pkcs11.c:374-383 | A slot whose login succeeds and whose certificate search finds a certificate installs it on the HTTP session, whether or not a key follows and the slot wins. |
| Provide.ProvideInstallsFoundCert | src/ne_pkcs11.c:97-103 | A certificate found on any slot the enumeration reaches is installed during the provide call, even when that slot loses and its session is closed; a later slot's certificate replaces it. |
| Provide.VisitLastInstalled | src/ne_pkcs11.c:374-379 | A winning visit found a certificate, and that certificate is the last one the visit installs. |
| Provide.VisitsLastInstalled | src/ne_pkcs11.c:350-384 | When the visit to slot k installs a certificate last, the visits to slots 0..k together install it last. |
| Provide.ProvideInstallsWinnersCert | src/ne_pkcs11.c:97-103 | When a slot wins, the certificate installed last on the HTTP session is the winner's, replacing any installed by losing slots before it. The key the context holds is an RSA private key on that slot whose CKA_ID is that certificate's. |
| Provide.ProvideKeepsModule | src/ne_pkcs11.c:325-387 | Providing never destroys the module. |
| Provide.DestroyAfterProvide | src/ne_pkcs11.c:41-50 | After a provide call that leaves at most the held session open, destroying closes every session. The module is destroyed once, last. |
| Provide.SessionLifecycle | src/ne_pkcs11.c:325-411 | From set-up through a provide call to destruction, at most one session is ever open. Every session opened is closed. The module is destroyed exactly once, as the last call. |

## Left out

- Memory management is not modelled: `ne_malloc`, `ne_free`, `gnutls_malloc`, the slot list that `pk11_provide` does not free when a slot wins, and the signature buffer left allocated when the fill call fails. Values are immutable here.
- The `memset` that scrubs the PIN after each login is not modelled, because it has no observable effect on the model's state.
- The hook wiring in `pk11_setup` is not modelled: registering the destroy hook, the provide callback and the sign function (lines 398-408). These are calls into the session object, which is not part of this model. `Provide.ProvideClient` and `Signing.SignCallbackAsWritten` are what those hooks invoke; `Signing.SignCallback` is the corrected callback.
- The debug messages (`NE_DEBUG`) and the error text set by `ne_set_error` are not modelled.
- The `dnames`/`dncount` arguments of `pk11_provide` are not modelled, because the code never reads them.
- The `session`, `cert_type` and `cert` arguments of the sign callback are not modelled, because the code does not read them.
- The pakchois library, the PKCS #11 module and GnuTLS are replaced by the scripted oracle. Module loading (`pakchois_module_load` and `pakchois_module_nssload`) is a parameter: the handle of the loaded module, or None.
- X.509 parsing (`ne__ssl_clicert_exkey_import`) is a parameter: the set of DER encodings that import.
- A C_FindObjects call that fails is not modelled separately. The code treats it like the end of the results, and the oracle's search results end there.
- TokenLogin.PinLoop: the number of PIN rounds is bounded by the slot's scripted login answers, because an exhausted queue answers CKR_GENERAL_ERROR. A token that answers CKR_PIN_INCORRECT forever is not modelled.
- Signing.SignCallback: on a failed fill call the source leaves the allocated buffer in the signature datum. The model reports no signature.
- Provide.ProvideClient: a call on a context that already holds a session overwrites the session when another slot wins, as the source does. Only the lifecycle from a fresh context is proved (`Provide.SessionLifecycle`).
- Integer widths are not modelled: handles and lengths are unbounded naturals. The flag words are modelled as `bv64` (CK_FLAGS) and `bv32` (the PIN flags).
- `terminate_string` reads the byte before the buffer on an all-blank field. `FixedText.TerminateString` tests the bound first and writes the same result. `FixedText.ProbesAsWritten` keeps the reads as written (see Findings).
- The PIN callback's userdata (`ssl_pk11pin_ud`, line 305) and any state the callback keeps between calls or slots are not modelled: the callback is a pure function of its four visible arguments.
- The fixed PIN buffer of NE_SSL_P11PINLEN bytes (line 286) is not modelled: an entered PIN is an unbounded byte sequence.
- Two bounds come from the oracle's own answers, not from neon's checks: `Signing.FillAnswer` answers CKR_BUFFER_TOO_SMALL for a signature longer than the buffer, which is what makes a signature no longer than the probe; `Token.AttributeAnswer` answers CKR_BUFFER_TOO_SMALL for an attribute over 8192 bytes, which is what makes a found certificate's ID fit the buffer.

## Findings

| source | as written | input that shows it | evidently intended | confidence | as-written member | corrected member |
|---|---|---|---|---|---|---|
| src/ne_pkcs11.c:231 | The loop condition reads `*ptr` before it tests `ptr >= str`, so the scan reads one byte before the buffer. | An all-blank field, such as an empty token label of 32 spaces. | Test the bound first and read only indices 0..len-1. The result is the same. | not executed | FixedText.AsWrittenReadsBeforeBuffer | FixedText.ProbesBoundFirst |
| src/ne_pkcs11.c:212-216 | The signature's size is set to the probed length and is not updated from the length the fill call returns. PKCS #11 v2.20 section 11.2 lets the probe return an upper bound. | A token that probes 257 bytes and then writes a 256-byte signature. | Set the size to the length reported by the fill call. | not executed | Signing.SizeMismatchExample | Signing.SignCallback |
