/** struct Footer (ClassSerializer/Config.h): the four-byte sentinel that
    closes every module, and the check and the write of it. */
module Footers {
  import opened Words

  const FooterSize: nat := 4

  /** Footer::footersig. */
  const Sentinel: seq<u8> := [0xEF, 0xBE, 0xAD, 0xDE]

  /** Footer(address).isValid(): memcmp of the four bytes at q against EF BE AD DE. */
  predicate FooterAt(s: seq<u8>, q: nat)
  {
    q + FooterSize <= |s| && s[q..q + FooterSize] == Sentinel
  }

  /** A valid footer at q is the sentinel, in the four bytes ending at e. */
  lemma {:induction false} FooterEndsAt(s: seq<u8>, q: nat, e: nat)
    requires e == q + FooterSize <= |s|
    ensures FooterAt(s, q) ==> s[q..e] == Sentinel
  {
  }

  /** The footer at q of what follows p is the footer at p + q. */
  lemma {:induction false} FooterShift(s: seq<u8>, p: nat, q: nat)
    requires p <= |s|
    ensures FooterAt(s[p..], q) == FooterAt(s, p + q)
  {
    if p + q + FooterSize <= |s| {
      assert s[p..][q..q + FooterSize] == s[p + q..p + q + FooterSize];
    }
  }

  /** Footer::write(address). */
  function WriteFooter(s: seq<u8>, q: nat): (r: seq<u8>)
    requires q + FooterSize <= |s|
    ensures FooterAt(r, q)
    ensures |r| == |s| && forall i :: 0 <= i < |s| && !(q <= i < q + FooterSize) ==> r[i] == s[i]
  {
    Overwrite(s, q, Sentinel)
  }
}
