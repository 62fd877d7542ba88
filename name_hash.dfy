/** The name hash of ClassSerializer/Config.h: a recursive djb2-style hash over a
    NUL-terminated C string, computed in `size_t` (so modulo 2^64). The last
    character is folded in first: hash(s) = hash(s[1..]) * 33 xor s[0], and the
    empty string (or the terminating NUL) hashes to 5381. */
module NameHash {
  import opened Words

  const Seed: bv64 := 5381

  /** A `char` promoted to `size_t` for the xor: `char` is signed on the target
      platform, so bytes 0x80..0xFF are sign-extended. */
  function Promote(c: u8): bv64
  {
    if c < 0x80 then c as bv64 else (c + 0xFFFF_FFFF_FFFF_FF00) as bv64
  }

  /** One step of the hash: multiply by 33 (modulo 2^64), then xor in a character. */
  function Mix(h: bv64, c: u8): bv64
  {
    ((h << 5) + h) ^ Promote(c)
  }

  /** The hash of the C string held in s: reading stops at the first NUL byte. */
  function HashBits(s: seq<u8>): bv64
  {
    if s == [] || s[0] == 0 then Seed else Mix(HashBits(s[1..]), s[0])
  }

  function Hash(s: seq<u8>): (h: u64)
  {
    HashBits(s) as int
  }

  predicate NoNul(s: seq<u8>)
  {
    forall i :: 0 <= i < |s| ==> s[i] != 0
  }

  /** Only the characters before the terminating NUL take part in the hash. */
  lemma {:induction false} HashStopsAtNul(s: seq<u8>, rest: seq<u8>)
    requires NoNul(s)
    ensures HashBits(s + [0] + rest) == HashBits(s)
  {
    if s == [] {
    } else {
      assert (s + [0] + rest)[1..] == s[1..] + [0] + rest;
      HashStopsAtNul(s[1..], rest);
    }
  }

  /** Names used by the examples in the model. */
  const PlayerName: seq<u8> := [0x70, 0x6C, 0x61, 0x79, 0x65, 0x72]  // "player"
  const HpName: seq<u8> := [0x68, 0x70]                             // "hp"
  const ManaName: seq<u8> := [0x6D, 0x61, 0x6E, 0x61]               // "mana"

  lemma {:induction false} ExampleHashes()
    ensures Hash(HpName) == 5861405
    ensures Hash(ManaName) == 6382523398 && HashBits(ManaName) == 6382523398
  {
    assert HashBits(HpName[2..]) == 5381;
    assert HashBits(HpName[1..]) == 177621;
    assert HashBits(ManaName[4..]) == 5381;
    assert HashBits(ManaName[3..]) == 177604;
    assert HashBits(ManaName[2..]) == 5860906;
    assert HashBits(ManaName[1..]) == 193409803;
  }
}
