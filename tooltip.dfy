/**
 * `string_to_tip`: the tray icon's tooltip text as the fixed 128-unit
 * wide-character buffer of NOTIFYICONDATAW's `szTip`, NUL-terminated.
 */
module Tooltip {
  import opened Wrappers
  import opened Unicode

  /** The length of the `szTip` buffer, in UTF-16 code units. */
  const TIP_LENGTH: nat := 128

  /** `tip` is the tooltip buffer for `s`: the UTF-16 encoding of `s`
      followed by zeros up to the buffer's length. */
  predicate IsTip(tip: seq<CodeUnit>, s: string) {
    var e := Utf16(s);
    && |tip| == TIP_LENGTH
    && |e| < TIP_LENGTH
    && tip[..|e|] == e
    && forall k :: |e| <= k < TIP_LENGTH ==> tip[k] == 0
  }

  /** Encodes `s` into a fresh zeroed buffer; the encoding must leave room
      for the terminating NUL (the `assert!` of the source). */
  method StringToTip(s: string) returns (tip: seq<CodeUnit>)
    requires |Utf16(s)| < TIP_LENGTH
    ensures IsTip(tip, s)
  {
    var ret := new CodeUnit[TIP_LENGTH](_ => 0);
    var encoded := Utf16(s);
    for i := 0 to |encoded|
      invariant ret[..i] == encoded[..i]
      invariant forall k :: i <= k < TIP_LENGTH ==> ret[k] == 0
    {
      ret[i] := encoded[i];
    }
    ret[|encoded|] := 0;
    tip := ret[..];
  }

  /** What a reader of a NUL-terminated wide string sees: the units before
      the first NUL. */
  function UntilNul(buf: seq<CodeUnit>): (r: seq<CodeUnit>)
    ensures |r| <= |buf| && r == buf[..|r|]
    ensures forall k :: 0 <= k < |r| ==> r[k] != 0
    ensures |r| < |buf| ==> buf[|r|] == 0
  {
    if buf == [] || buf[0] == 0 then [] else [buf[0]] + UntilNul(buf[1..])
  }

  /** A buffer whose first NUL is at `n` reads as its first `n` units. */
  lemma {:induction false} UntilFirstNul(buf: seq<CodeUnit>, n: nat)
    requires n < |buf| && buf[n] == 0
    requires forall k :: 0 <= k < n ==> buf[k] != 0
    ensures UntilNul(buf) == buf[..n]
  {
    if n > 0 {
      UntilFirstNul(buf[1..], n - 1);
      assert buf[..n] == [buf[0]] + buf[1..][..n - 1];
    }
  }

  /** A string without NUL characters encodes to UTF-16 without NUL units:
      a single unit is the character itself and a pair is two surrogates. */
  lemma {:induction false} Utf16HasNoNul(s: string)
    requires forall i :: 0 <= i < |s| ==> s[i] != '\0'
    ensures forall k :: 0 <= k < |Utf16(s)| ==> Utf16(s)[k] != 0
  {
    if s != [] {
      Utf16HasNoNul(s[1..]);
      var head := Utf16Char(s[0]);
      assert Utf16(s) == head + Utf16(s[1..]);
      assert forall k :: 0 <= k < |head| ==> head[k] != 0;
    }
  }

  /** The buffer reads back, up to its NUL, as exactly the encoding of `s`,
      which decodes to `s`. */
  lemma TipReadsBack(tip: seq<CodeUnit>, s: string)
    requires IsTip(tip, s)
    requires forall i :: 0 <= i < |s| ==> s[i] != '\0'
    ensures UntilNul(tip) == Utf16(s)
    ensures Utf16Decode(UntilNul(tip)) == Some(s)
  {
    Utf16HasNoNul(s);
    UntilFirstNul(tip, |Utf16(s)|);
    Utf16RoundTrip(s);
  }
}
