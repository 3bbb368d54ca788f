/**
 * `hash_string` and `gahash` of GaLib/include/galib/util/hash.h, in the
 * 64-bit branch (`_WIN64`, `__x86_64__`, `__ppc64__`): `size_t` is `bv64`,
 * so the additions and shifts of the loop wrap modulo 2^64 as they do in C++.
 *
 * The loop reads each octet through a plain `char` and converts it to
 * `size_t`. Where `char` is signed (x86-64, Win64) an octet of 0x80 or more
 * is sign-extended first; `signedChar` selects the platform's choice.
 */
module Hash {

  /** FNV1A_64_INIT, the 64-bit FNV offset basis. */
  const OffsetBasis: bv64 := 0xcbf2_9ce4_8422_2325

  /** Multiplication by the 64-bit FNV prime 2^40 + 2^8 + 0xb3, modulo 2^64. */
  function TimesPrime(h: bv64): bv64
  {
    h * 0x100_0000_01b3
  }

  /** The update `hval += (hval << 1) + ... + (hval << 40)` of the loop. */
  function ShiftSum(h: bv64): bv64
  {
    h + ((h << 1) + (h << 4) + (h << 5) + (h << 7) + (h << 8) + (h << 40))
  }

  lemma ShiftSumExpanded(h: bv64)
    ensures ShiftSum(h) == h * 0x100_0000_01b3
  {
  }

  lemma TimesPrimeExpanded(h: bv64)
    ensures TimesPrime(h) == h * 0x100_0000_01b3
  {
  }

  /** The shifted copies add up to one multiplication by the prime. */
  lemma ShiftSumIsPrime(h: bv64)
    ensures ShiftSum(h) == TimesPrime(h)
  {
    ShiftSumExpanded(h);
    TimesPrimeExpanded(h);
  }

  /**
   * `(size_t)c` for the `char` holding octet `b`: the octet itself, or, for
   * a negative signed `char`, its value modulo 2^64 (all bits above the
   * octet set).
   */
  function Widen(b: bv8, signedChar: bool): (r: bv64)
    ensures r & 0xFF == b as bv64
    ensures r >> 8 == if signedChar && b >= 0x80 then 0xFF_FFFF_FFFF_FFFF else 0
  {
    var v := b as bv64;
    if signedChar && b >= 0x80 then v | 0xFFFF_FFFF_FFFF_FF00 else v
  }

  /** One pass of the loop body on the widened octet `c`: `hval ^= c`, then the shift-sum. */
  function Step(h: bv64, c: bv64): bv64
  {
    ShiftSum(h ^ c)
  }

  /** The loop from `bp == buf + i` with `hval == h`, run to `be`. */
  function HashFrom(buf: seq<bv8>, i: nat, h: bv64, signedChar: bool): bv64
    requires i <= |buf|
    decreases |buf| - i
  {
    if i == |buf| then h
    else HashFrom(buf, i + 1, Step(h, Widen(buf[i], signedChar)), signedChar)
  }

  /** `hash_string(buf, len)` with `len == |buf|`. */
  function HashString(buf: seq<bv8>, signedChar: bool): (r: bv64)
    ensures buf == [] ==> r == OffsetBasis
  {
    HashFrom(buf, 0, OffsetBasis, signedChar)
  }

  /**
   * FNV-1a over octets, as its authors define it: start from the offset
   * basis; for each octet, XOR it into the low bits, then multiply by the
   * prime modulo 2^64.
   */
  function Fnv1a(s: seq<bv8>): bv64
  {
    if s == [] then OffsetBasis
    else FnvStep(Fnv1a(s[..|s| - 1]), s[|s| - 1] as bv64)
  }

  /** One octet `c` of FNV-1a: XOR, then multiply by the prime. */
  function FnvStep(h: bv64, c: bv64): bv64
  {
    TimesPrime(h ^ c)
  }

  /** The loop body is one FNV-1a step on the octet it widened. */
  lemma StepIsFnvStep(h: bv64, c: bv64)
    ensures Step(h, c) == FnvStep(h, c)
  {
    ShiftSumIsPrime(h ^ c);
  }

  lemma {:induction false} HashFromIsFnv1a(buf: seq<bv8>, i: nat)
    requires i <= |buf|
    ensures HashFrom(buf, i, Fnv1a(buf[..i]), false) == Fnv1a(buf)
    decreases |buf| - i
  {
    if i == |buf| {
      assert buf[..i] == buf;
    } else {
      var p := buf[..i + 1];
      assert p[..|p| - 1] == buf[..i] && p[|p| - 1] == buf[i];
      assert Widen(buf[i], false) == buf[i] as bv64;
      StepIsFnvStep(Fnv1a(buf[..i]), buf[i] as bv64);
      HashFromIsFnv1a(buf, i + 1);
    }
  }

  /** Read as unsigned octets, the loop computes FNV-1a. */
  lemma HashIsFnv1a(buf: seq<bv8>)
    ensures HashString(buf, false) == Fnv1a(buf)
  {
    assert buf[..0] == [];
    HashFromIsFnv1a(buf, 0);
  }

  /** The hash is a left fold: one more octet is one more XOR-and-multiply. */
  lemma HashAppend(s: seq<bv8>, b: bv8)
    ensures HashString(s + [b], false) == TimesPrime(HashString(s, false) ^ (b as bv64))
  {
    var t := s + [b];
    assert t[..|t| - 1] == s && t[|t| - 1] == b;
    HashIsFnv1a(t);
    HashIsFnv1a(s);
  }

  /** The published FNV-1a 64-bit value for the one-octet input "a". */
  lemma HashOfA()
    ensures HashString(['a' as bv8], false) == 0xaf63_dc4c_8601_ec8c
  {
    var s: seq<bv8> := ['a' as bv8];
    assert s[..0] == [];
    HashIsFnv1a(s);
    assert Fnv1a(s) == TimesPrime(0xcbf2_9ce4_8422_2344);
  }

  lemma {:induction false} SignedAgreesFrom(buf: seq<bv8>, i: nat, h: bv64)
    requires i <= |buf|
    requires forall k :: i <= k < |buf| ==> buf[k] < 0x80
    ensures HashFrom(buf, i, h, true) == HashFrom(buf, i, h, false)
    decreases |buf| - i
  {
    if i < |buf| {
      assert Widen(buf[i], true) == Widen(buf[i], false);
      SignedAgreesFrom(buf, i + 1, Step(h, Widen(buf[i], false)));
    }
  }

  /** Sign extension changes nothing while every octet is below 0x80. */
  lemma SignedAgreesBelow0x80(buf: seq<bv8>)
    requires forall k :: 0 <= k < |buf| ==> buf[k] < 0x80
    ensures HashString(buf, true) == Fnv1a(buf)
  {
    SignedAgreesFrom(buf, 0, OffsetBasis);
    HashIsFnv1a(buf);
  }

  /**
   * With a signed `char` the octet 0x80 is XORed in as 0xFFFFFFFFFFFFFF80,
   * and the one-octet hash is no longer the FNV-1a value.
   */
  lemma SignExtensionChangesHash()
    ensures HashString([0x80], true) == 0x509c_0cb3_79fd_ec5f
    ensures Fnv1a([0x80]) == 0xaf64_3d4c_8602_915f
  {
    var s: seq<bv8> := [0x80];
    assert s[..0] == [];
    assert Widen(0x80, true) == 0xFFFF_FFFF_FFFF_FF80;
    ShiftSumIsPrime(0x340d_631b_7bdd_dca5);
    assert HashString(s, true) == TimesPrime(0x340d_631b_7bdd_dca5);
    assert Fnv1a(s) == TimesPrime(0xcbf2_9ce4_8422_23a5);
  }

  /** `gahash()(str)`: the hash of the string's octets and length. */
  function GaHash(str: seq<bv8>, signedChar: bool): (r: bv64)
    ensures !signedChar ==> r == Fnv1a(str)
    ensures (forall k :: 0 <= k < |str| ==> str[k] < 0x80) ==> r == Fnv1a(str)
  {
    HashIsFnv1a(str);
    if forall k :: 0 <= k < |str| ==> str[k] < 0x80 then
      SignedAgreesBelow0x80(str);
      HashString(str, signedChar)
    else
      HashString(str, signedChar)
  }
}
