/**
  Shared vocabulary of the model: bytes, an option type, the PKCS #11 v2.20
  constants the client-certificate code uses, the GnuTLS and neon return
  codes it produces, and a sequence filter used to project event traces.
 */
module Pkcs11 {

  newtype byte = x: int | 0 <= x < 256

  datatype Option<+T> = None | Some(value: T)

  // Return values (CK_RV), PKCS #11 v2.20 section 11.1.
  const CKR_OK: nat := 0x000
  const CKR_GENERAL_ERROR: nat := 0x005
  const CKR_ATTRIBUTE_SENSITIVE: nat := 0x011
  const CKR_PIN_INCORRECT: nat := 0x0A0
  const CKR_BUFFER_TOO_SMALL: nat := 0x150

  // Slot and token flags (CK_FLAGS is an unsigned long).
  const CKF_TOKEN_PRESENT: bv64 := 0x1
  const CKF_LOGIN_REQUIRED: bv64 := 0x4
  const CKF_PROTECTED_AUTHENTICATION_PATH: bv64 := 0x100
  const CKF_USER_PIN_COUNT_LOW: bv64 := 0x10000
  const CKF_USER_PIN_FINAL_TRY: bv64 := 0x20000

  // Object classes, certificate and key types, mechanism, handles.
  const CKO_CERTIFICATE: nat := 1
  const CKO_PRIVATE_KEY: nat := 3
  const CKC_X_509: nat := 0
  const CKK_RSA: nat := 0
  const CKM_RSA_PKCS: nat := 1
  const CK_INVALID_HANDLE: nat := 0

  // GnuTLS error codes returned by the signing callback.
  const GNUTLS_E_PK_SIGN_FAILED: int := -46
  const GNUTLS_E_NO_CERTIFICATE_FOUND: int := -49

  // neon return codes of the provisioning entry points.
  const NE_OK: int := 0
  const NE_LOOKUP: int := 2
  const NE_FAILED: int := 7

  // Flags neon passes to the PIN callback (an unsigned int).
  const NE_SSL_P11PIN_COUNT_LOW: bv32 := 0x01
  const NE_SSL_P11PIN_FINAL_TRY: bv32 := 0x02

  /** Fixed sizes of the buffers the C code declares. */
  const ATTRIBUTE_BUFFER_LEN: nat := 8192
  const SLOT_DESCRIPTION_LEN: nat := 64
  const TOKEN_LABEL_LEN: nat := 32

  /** The elements of `s` that satisfy `keep`, in order. */
  function Filter<T>(s: seq<T>, keep: T -> bool): (r: seq<T>)
    ensures |r| <= |s|
    ensures forall i :: 0 <= i < |r| ==> r[i] in s && keep(r[i])
  {
    if |s| == 0 then []
    else if keep(s[0]) then [s[0]] + Filter(s[1..], keep)
    else Filter(s[1..], keep)
  }

  lemma {:induction false} FilterAppend<T>(a: seq<T>, b: seq<T>, keep: T -> bool)
    ensures Filter(a + b, keep) == Filter(a, keep) + Filter(b, keep)
  {
    if |a| == 0 {
      assert a + b == b;
    } else {
      assert (a + b)[1..] == a[1..] + b;
      FilterAppend(a[1..], b, keep);
    }
  }

  lemma {:induction false} FilterNone<T>(s: seq<T>, keep: T -> bool)
    requires forall i :: 0 <= i < |s| ==> !keep(s[i])
    ensures Filter(s, keep) == []
  {
    if |s| > 0 {
      FilterNone(s[1..], keep);
    }
  }

  /** Every element that passes the filter is in the result. */
  lemma {:induction false} FilterComplete<T>(s: seq<T>, keep: T -> bool)
    ensures forall x :: x in s && keep(x) ==> x in Filter(s, keep)
  {
    if |s| > 0 {
      FilterComplete(s[1..], keep);
      forall x | x in s && keep(x)
        ensures x in Filter(s, keep)
      {
        if x != s[0] {
          assert x in s[1..];
        }
      }
    }
  }

  /** An element that passes the filter makes the result non-empty. */
  lemma {:induction false} FilterKeeps<T>(s: seq<T>, keep: T -> bool, j: nat)
    requires j < |s| && keep(s[j])
    ensures |Filter(s, keep)| >= 1
  {
    if j > 0 && !keep(s[0]) {
      FilterKeeps(s[1..], keep, j - 1);
    }
  }

  /** The first element of the result is the first element that passes. */
  lemma {:induction false} FilterFirst<T>(s: seq<T>, keep: T -> bool, k: nat)
    requires k < |s| && keep(s[k])
    requires forall j :: 0 <= j < k ==> !keep(s[j])
    ensures |Filter(s, keep)| >= 1 && Filter(s, keep)[0] == s[k]
  {
    if k > 0 {
      FilterFirst(s[1..], keep, k - 1);
    }
  }
}

