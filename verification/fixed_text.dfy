/**
  Fixed-width text fields. PKCS #11 reports slot descriptions and token labels
  as blank-padded byte arrays without a terminator; `terminate_string` in
  src/ne_pkcs11.c cuts the trailing spaces, tabs and NULs and writes a NUL so
  that the field can be handed to the PIN callback as a C string.

  The C function rewrites the array in place; here it takes the field and
  returns the rewritten field.
 */
module FixedText {
  import opened Pkcs11

  const NUL: byte := 0
  const TAB: byte := 9
  const SPACE: byte := 32

  predicate IsBlank(b: byte) {
    b == SPACE || b == TAB || b == NUL
  }

  /** Index of the last byte of `s` that is not blank, or -1 when there is none. */
  function LastNonBlank(s: seq<byte>): (k: int)
    ensures -1 <= k < |s|
    ensures 0 <= k ==> !IsBlank(s[k])
    ensures forall j :: k < j < |s| ==> IsBlank(s[j])
  {
    if |s| == 0 then -1
    else if !IsBlank(s[|s| - 1]) then |s| - 1
    else LastNonBlank(s[..|s| - 1])
  }

  /** The properties in LastNonBlank's contract pin the index down. */
  lemma LastNonBlankUnique(s: seq<byte>, p: int)
    requires -1 <= p < |s|
    requires 0 <= p ==> !IsBlank(s[p])
    requires forall j :: p < j < |s| ==> IsBlank(s[j])
    ensures p == LastNonBlank(s)
  {
  }

  /**
    The byte `terminate_string` overwrites with NUL: the one after the last
    non-blank byte (the first byte when all are blank), except that a field
    whose last byte is not blank loses that last byte.
   */
  function CutIndex(s: seq<byte>): (c: nat)
    requires |s| >= 1
    ensures c < |s|
  {
    var k := LastNonBlank(s);
    if k == |s| - 1 then k else k + 1
  }

  /** The field after `terminate_string`. */
  function Terminated(s: seq<byte>): (r: seq<byte>)
    requires |s| >= 1
    ensures |r| == |s|
  {
    s[CutIndex(s) := NUL]
  }

  /** The C string a reader of `s` sees: the bytes before the first NUL. */
  function CStr(s: seq<byte>): (r: seq<byte>)
    ensures |r| <= |s| && r == s[..|r|]
    ensures NUL !in r
    ensures |r| < |s| ==> s[|r|] == NUL
  {
    if |s| == 0 || s[0] == NUL then []
    else [s[0]] + CStr(s[1..])
  }

  /** The text the PIN callback receives for a fixed-width field. */
  function Visible(s: seq<byte>): seq<byte>
    requires |s| >= 1
  {
    CStr(Terminated(s))
  }

  /**
    Scans from the end for the last non-blank byte, testing the bound before
    reading, and writes the NUL where `terminate_string` writes it.
   */
  method TerminateString(s: seq<byte>) returns (r: seq<byte>)
    requires |s| >= 1
    ensures r == Terminated(s)
  {
    var p := |s| - 1;
    while p >= 0 && IsBlank(s[p])
      invariant -1 <= p < |s|
      invariant forall j :: p < j < |s| ==> IsBlank(s[j])
    {
      p := p - 1;
    }
    LastNonBlankUnique(s, p);
    if p == -1 {
      r := s[0 := NUL];
    } else if p == |s| - 1 {
      r := s[|s| - 1 := NUL];
    } else {
      r := s[p + 1 := NUL];
    }
  }

  lemma {:induction false} CStrStopsAtNul(t: seq<byte>, c: nat)
    requires c < |t| && t[c] == NUL
    ensures CStr(t) == CStr(t[..c])
  {
    if c == 0 {
    } else {
      assert t[..c][0] == t[0];
      assert t[..c][1..] == t[1..][..c - 1];
      CStrStopsAtNul(t[1..], c - 1);
    }
  }

  lemma {:induction false} CStrOfText(t: seq<byte>)
    requires NUL !in t
    ensures CStr(t) == t
  {
    if |t| > 0 {
      assert t[0] in t;
      assert forall x :: x in t[1..] ==> x in t;
      CStrOfText(t[1..]);
    }
  }

  /**
    What survives `terminate_string` is exactly the text of the field before
    the cut: bytes before the cut are never changed.
   */
  lemma VisibleText(s: seq<byte>)
    requires |s| >= 1
    ensures Visible(s) == CStr(s[..CutIndex(s)])
    ensures forall i :: 0 <= i < CutIndex(s) ==> Terminated(s)[i] == s[i]
  {
    var c := CutIndex(s);
    CStrStopsAtNul(Terminated(s), c);
    assert Terminated(s)[..c] == s[..c];
  }

  /**
    A padded field whose text holds no NUL is surfaced without its trailing
    spaces, tabs and NULs, and nothing more is removed.
   */
  lemma TrimsTrailingBlanks(s: seq<byte>)
    requires |s| >= 1
    requires LastNonBlank(s) < |s| - 1
    requires NUL !in s[..LastNonBlank(s) + 1]
    ensures Visible(s) == s[..LastNonBlank(s) + 1]
    ensures |Visible(s)| > 0 ==> !IsBlank(Visible(s)[|Visible(s)| - 1])
    ensures forall j :: |Visible(s)| <= j < |s| ==> IsBlank(s[j])
  {
    VisibleText(s);
    CStrOfText(s[..LastNonBlank(s) + 1]);
  }

  /** A field filled to its last byte loses that byte to the terminator. */
  lemma FullFieldLosesLastByte(s: seq<byte>)
    requires |s| >= 1
    requires !IsBlank(s[|s| - 1])
    ensures Terminated(s)[|s| - 1] == NUL
    ensures Visible(s) == CStr(s[..|s| - 1])
  {
    VisibleText(s);
  }

  /** An all-blank field becomes the empty string, with its first byte NUL. */
  lemma AllBlankIsEmpty(s: seq<byte>)
    requires |s| >= 1
    requires forall i :: 0 <= i < |s| ==> IsBlank(s[i])
    ensures Terminated(s)[0] == NUL
    ensures Visible(s) == []
  {
    LastNonBlankUnique(s, -1);
  }

  /** The label "My Token" padded with three spaces and three NULs. */
  lemma MyTokenExample()
    ensures var s: seq<byte> := [77, 121, 32, 84, 111, 107, 101, 110, 32, 32, 32, 0, 0, 0];
            Visible(s) == [77, 121, 32, 84, 111, 107, 101, 110]
  {
    var s: seq<byte> := [77, 121, 32, 84, 111, 107, 101, 110, 32, 32, 32, 0, 0, 0];
    LastNonBlankUnique(s, 7);
    var text := s[..8];
    assert text == [77, 121, 32, 84, 111, 107, 101, 110];
    assert NUL !in text;
    TrimsTrailingBlanks(s);
  }

  // The loop condition in terminate_string reads the byte under the cursor
  // before it tests the cursor against the start of the buffer.

  /** The indices the loop as written reads, starting from index `p`. */
  function ProbesAsWritten(s: seq<byte>, p: int): (probes: seq<int>)
    requires -1 <= p < |s|
    ensures 1 <= |probes| <= p + 2
    ensures forall i :: 0 <= i < |probes| ==> probes[i] == p - i
    ensures forall i :: 0 <= i < |probes| - 1 ==> 0 <= probes[i] && IsBlank(s[probes[i]])
    ensures probes[|probes| - 1] == -1 || !IsBlank(s[probes[|probes| - 1]])
    decreases p + 1
  {
    if p < 0 then [p]
    else if IsBlank(s[p]) then [p] + ProbesAsWritten(s, p - 1)
    else [p]
  }

  /** The indices read when the bound is checked first, as TerminateString does. */
  function ProbesBoundFirst(s: seq<byte>, p: int): (probes: seq<int>)
    requires -1 <= p < |s|
    ensures forall i :: 0 <= i < |probes| ==> 0 <= probes[i] <= p
    decreases p + 1
  {
    if p < 0 then []
    else if IsBlank(s[p]) then [p] + ProbesBoundFirst(s, p - 1)
    else [p]
  }

  /**
    The two loops read the same bytes, except that the loop as written makes
    one extra read at index -1 exactly when every byte up to `p` is blank.
   */
  lemma {:induction false} ProbesDifferByStrayRead(s: seq<byte>, p: int)
    requires -1 <= p < |s|
    ensures ProbesAsWritten(s, p)
            == ProbesBoundFirst(s, p) + (if LastNonBlank(s[..p + 1]) == -1 then [-1] else [])
    decreases p + 1
  {
    if p >= 0 {
      var t := s[..p + 1];
      if IsBlank(s[p]) {
        assert t[..|t| - 1] == s[..p];
        ProbesDifferByStrayRead(s, p - 1);
      }
    }
  }

  /** On an all-blank field the loop as written reads the byte before the buffer. */
  lemma AsWrittenReadsBeforeBuffer(s: seq<byte>)
    requires |s| >= 1
    ensures -1 in ProbesAsWritten(s, |s| - 1) <==> forall i :: 0 <= i < |s| ==> IsBlank(s[i])
  {
    ProbesDifferByStrayRead(s, |s| - 1);
    assert s[..|s|] == s;
    var b := ProbesBoundFirst(s, |s| - 1);
    assert -1 !in b by {
      forall i | 0 <= i < |b| ensures b[i] != -1 { }
    }
    if forall i :: 0 <= i < |s| ==> IsBlank(s[i]) {
      LastNonBlankUnique(s, -1);
    }
  }
}
