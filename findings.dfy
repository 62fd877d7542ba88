/** Where the code of ClassSerializer/Config.h does not do what it evidently
    means. Each defect is modelled here as written, with a lemma that exhibits
    the discrepancy on a concrete input or a whole class of inputs; the rest of
    the model (Layout, Scan, Records, ConfigStore) follows the intended
    behaviour, and the lemmas there prove it. */
module Findings {
  import opened Words
  import opened Results
  import opened Layout
  import opened Footers
  import opened NameHash
  import opened Records
  import opened Scan
  import opened StoreFacts
  import opened StoreEdits

  // ---------------------------------------------------------------- Element names cut to int

  /** The name an element's tag ends up holding: Element<T> hands its size_t
      name to `UnknownElement(int hashedName, ...)`, which keeps the low 32
      bits as a two's-complement int and sign-extends that back to size_t. */
  function StoredName(n: bv64): bv64
  {
    if n & 0x8000_0000 == 0 then n & 0xFFFF_FFFF else n | 0xFFFF_FFFF_0000_0000
  }

  /** A name survives the round trip through int exactly when it is a
      sign-extended 32-bit value. */
  lemma {:induction false} StoredNameKeeps(n: bv64)
    ensures StoredName(n) == n <==> n < 0x8000_0000 || 0xFFFF_FFFF_8000_0000 <= n
  {
    if n < 0x8000_0000 {
      assert StoredName(n) == n;
    } else if 0xFFFF_FFFF_8000_0000 <= n {
      assert StoredName(n) == n;
    } else {
      assert StoredName(n) != n;
    }
  }

  /** An upper bound on the hash of a string of at most three characters. */
  function ShortBound(len: nat): bv64
  {
    if len == 0 then 0x2000
    else if len == 1 then 0x8_0000
    else if len == 2 then 0x200_0000
    else 0x8000_0000
  }

  /** One step of the hash on an ASCII character grows a bound b (a power of
      two) by at most a factor 64. */
  lemma {:induction false} MixBelow(h: bv64, c: u8, b: bv64)
    requires h < b && c < 0x80
    requires b == 0x2000 || b == 0x8_0000 || b == 0x200_0000
    ensures Mix(h, c) < b << 6
  {
  }

  lemma {:induction false} HashBitsBelow(s: seq<u8>)
    requires |s| <= 3 && forall i :: 0 <= i < |s| ==> s[i] < 0x80
    ensures HashBits(s) < ShortBound(|s|)
  {
    if s != [] && s[0] != 0 {
      HashBitsBelow(s[1..]);
      MixBelow(HashBits(s[1..]), s[0], ShortBound(|s| - 1));
    }
  }

  /** Names of up to three ASCII characters hash below 2^31, so the tag keeps
      them intact (the TODO at the head of the header says longer ones fail). */
  lemma {:induction false} ShortNamesKept(s: seq<u8>)
    requires |s| <= 3 && forall i :: 0 <= i < |s| ==> s[i] < 0x80
    ensures HashBits(s) < 0x8000_0000
    ensures StoredName(HashBits(s)) as int == Hash(s)
  {
    HashBitsBelow(s);
    StoredNameKeeps(HashBits(s));
  }

  /** The name read back from a tag is the name written into it. */
  lemma {:induction false} TagKeepsName(n: u64, id: u64)
    ensures TagAt(EncodeTag(Tag(n, id)), 0).name == n
  {
    var bytes := EncodeTag(Tag(n, id));
    assert bytes[0..TagSize] == bytes;
    TagOfBytes(bytes, 0, Tag(n, id));
  }

  /** "mana" is stored under another name, so the tag written for it never
      matches the lookup at getElementAddress, which compares full hashes. */
  lemma FourLetterNameLost()
    ensures StoredName(HashBits(ManaName)) as int == 2087556102 != Hash(ManaName)
    ensures TagAt(EncodeTag(Tag(StoredName(HashBits(ManaName)) as int, TypeId(Int))), 0).name != Hash(ManaName)
  {
    ExampleHashes();
    assert StoredName(6382523398) == 2087556102;
    var n := StoredName(HashBits(ManaName)) as int;
    TagKeepsName(n, TypeId(Int));
  }

  // ---------------------------------------------------------------- idToTSize without a default

  /** idToTSize as written: for an id outside its switch it falls off the end
      and the caller gets whatever value happens to be there (`junk`). */
  function IdToTSizeAsWritten(id: u64, junk: nat): nat
  {
    if id == TypeId(Int) then Width(Int)
    else if id == TypeId(Float) then Width(Float)
    else junk
  }

  /** For registered ids it agrees with SizeOfType; for any other id the next
      cursor of getElementAddress is decided by the junk, not by the bytes. */
  lemma {:induction false} UnknownIdStepsAnywhere(id: u64, junk1: nat, junk2: nat)
    ensures SizeOfType(id).Ok? ==> IdToTSizeAsWritten(id, junk1) == SizeOfType(id).value
    ensures SizeOfType(id).Err? && junk1 != junk2 ==>
              IdToTSizeAsWritten(id, junk1) != IdToTSizeAsWritten(id, junk2)
  {
  }

  // ---------------------------------------------------------------- deleteModule's move length

  /** The byte count deleteModule passes to memmove: `size - (uintptr_t)module
      - L` in size_t arithmetic, where the module's address is the buffer's
      address `base` plus its offset. */
  function DeleteMoveCount(size: u64, base: u64, mod: nat, L: u64): u64
  {
    (size - (base + mod) - L) % WordLimit
  }

  /** Only a buffer at address 0 gives the intended count size - mod - L, the
      bytes after the module. Otherwise memmove moves too few bytes, or (when
      the address exceeds that count) wraps around to a count larger than the
      whole store. */
  lemma {:induction false} DeleteMoveCountWrong(size: u64, base: u64, mod: nat, L: u64)
    requires mod + L <= size && 0 < base && base + size < WordLimit
    ensures DeleteMoveCount(size, base, mod, L) != size - mod - L
    ensures base <= size - mod - L ==> DeleteMoveCount(size, base, mod, L) == size - mod - L - base
    ensures size - mod - L < base ==>
              DeleteMoveCount(size, base, mod, L) == size - mod - L + WordLimit - base > size
  {
  }

  // ---------------------------------------------------------------- setElementValue falls through

  /** What can go wrong in the code as written beyond the thrown errors. */
  datatype Fault = NullWrite | WildMove | WildRead | Endless | Thrown

  datatype Outcome<T> = Done(value: T) | Faulted(fault: Fault)

  /** setElementValue as written: when the field is absent it appends it and
      then still stores the value through `pos + 16`, where `pos` is the null
      address getElementAddress returned. */
  function SetFieldAsWritten(ms: seq<Module>, i: nat, e: Element): Outcome<(seq<Module>, nat)>
    requires i < |ms|
  {
    match FirstElement(ms[i].elements, e.name)
    case Some(_) => Done(SetField(ms, i, e))
    case None => Faulted(NullWrite)
  }

  /** Every call that adds a field writes through the null address; every
      call that finds it behaves as intended. */
  lemma {:induction false} AppendWritesThroughNull(ms: seq<Module>, i: nat, e: Element)
    requires i < |ms|
    ensures SetFieldAsWritten(ms, i, e) == Faulted(NullWrite) <==> FirstElement(ms[i].elements, e.name).None?
    ensures SetFieldAsWritten(ms, i, e).Done? ==> SetFieldAsWritten(ms, i, e).value == SetField(ms, i, e)
  {
  }

  // ---------------------------------------------------------------- setElementsValues keeps a stale module

  /** setElementsValues as written (with the fall-through above repaired):
      every field is set on the module found at the address passed in, which
      after an append holds the module that followed. */
  function SetFieldsAsWritten(ms: seq<Module>, i: nat, es: seq<Element>): (r: seq<Module>)
    requires i < |ms|
    ensures |r| == |ms|
    decreases |es|
  {
    if es == [] then ms else SetFieldsAsWritten(SetField(ms, i, es[0]).0, i, es[1..])
  }

  /** As written, the second of two new fields goes to the module that
      moved into the stale slot. */
  lemma {:induction false} StaleTwoFields(a: Module, b: Module, e1: Element, e2: Element)
    requires FirstElement(a.elements, e1.name).None? && FirstElement(b.elements, e2.name).None?
    ensures SetFieldsAsWritten([a, b], 0, [e1, e2]) == [WithElements(a, [e1]), WithElements(b, [e2])]
  {
    var a1 := WithElements(a, [e1]);
    assert Without([a, b], 0) + [a1] == [b, a1];
    assert SetField([a, b], 0, e1) == ([b, a1], 1);
    assert [e1, e2][1..] == [e2] && [e2][1..] == [];
    assert Without([b, a1], 0) + [WithElements(b, [e2])] == [a1, WithElements(b, [e2])];
    assert SetField([b, a1], 0, e2).0 == [a1, WithElements(b, [e2])];
    assert SetFieldsAsWritten([b, a1], 0, [e2]) == SetFieldsAsWritten([a1, WithElements(b, [e2])], 0, []);
  }

  /** As intended, both new fields go to the first module, which ends last. */
  lemma {:induction false} FollowedTwoFields(a: Module, b: Module, e1: Element, e2: Element)
    requires FirstElement(a.elements, e1.name).None? && FirstElement(a.elements, e2.name).None?
    requires e1.name != e2.name
    ensures SetFields([a, b], 0, [e1, e2]).0 == [b, WithElements(a, [e1, e2])]
  {
    var a1 := WithElements(a, [e1]);
    assert Without([a, b], 0) + [a1] == [b, a1];
    assert SetField([a, b], 0, e1) == ([b, a1], 1);
    assert [e1, e2][1..] == [e2] && [e2][1..] == [];
    FirstElementAppend(a.elements, [e1], e2.name);
    assert FirstElement([e1], e2.name).None?;
    assert a1.elements + [e2] == a.elements + [e1, e2];
    assert Without([b, a1], 1) + [WithElements(a1, [e2])] == [b, WithElements(a, [e1, e2])];
    assert SetField([b, a1], 1, e2) == ([b, WithElements(a, [e1, e2])], 1);
    assert SetFields([b, a1], 1, [e2]) == SetFields([b, WithElements(a, [e1, e2])], 1, []);
  }

  /** Two new fields for the first of two modules: the second lands in the
      other module, where setElementsValues meant both for the first. */
  lemma {:induction false} StaleModuleTakesField(a: Module, b: Module, e1: Element, e2: Element)
    requires FirstElement(a.elements, e1.name).None? && FirstElement(a.elements, e2.name).None?
    requires FirstElement(b.elements, e1.name).None? && FirstElement(b.elements, e2.name).None?
    requires e1.name != e2.name
    ensures SetFieldsAsWritten([a, b], 0, [e1, e2]) != SetFields([a, b], 0, [e1, e2]).0
  {
    StaleTwoFields(a, b, e1, e2);
    FollowedTwoFields(a, b, e1, e2);
    // The first module differs: as written it holds e1, as intended it is b, which does not.
    FirstElementAppend(a.elements, [e1], e1.name);
    assert FirstElement([e1], e1.name) == Some(0);
    assert FirstElement(WithElements(a, [e1]).elements, e1.name).Some?;
  }

  // ---------------------------------------------------------------- addElements

  /** addElements as written, on a store whose allocation is its contents s.
      The scratch block holds the L bytes of the module, then the new elements
      from offset L (past the old footer), with a footer written over the last
      four bytes of the last value; the header still records L. The buffer is
      reallocated to the block's size n, so when n is smaller than what is left
      of the store the bytes from n on become indeterminate (`junk`). addModule
      then appends the L bytes the header records. */
  function AddElementsAsWritten(s: seq<u8>, mod: nat, es: seq<Element>, junk: seq<u8>): (r: seq<u8>)
    requires ElementsOk(es) && es != [] && mod + HeaderSize <= |s| && |junk| == |s|
    requires MinModuleSize <= HeaderAt(s, mod).size && mod + HeaderAt(s, mod).size <= |s|
  {
    PayloadLength(es);
    var L := HeaderAt(s, mod).size;
    var n := L + PayloadSize(es);
    var rest := s[..mod] + s[mod + L..];
    var kept := if n >= |rest| then rest else rest[..n] + junk[n..|rest|];
    var block := WriteFooter(s[mod..mod + L] + ElementsBytes(es), n - FooterSize);
    kept + block[..L]
  }

  /** As written, addElements moves the module to the end unchanged: its
      header, payload and footer are the old ones and the new fields are lost,
      where the intended store (Regrown) is longer by their payload. */
  lemma {:induction false} AddElementsLosesFields(s: seq<u8>, mod: nat, es: seq<Element>, junk: seq<u8>)
    requires ElementsOk(es) && es != [] && mod + HeaderSize <= |s| && |junk| == |s|
    requires MinModuleSize <= HeaderAt(s, mod).size && mod + HeaderAt(s, mod).size <= |s|
    requires |s| + PayloadSize(es) < WordLimit
    ensures var h := HeaderAt(s, mod);
            var r := AddElementsAsWritten(s, mod, es, junk);
            && |r| == |s| && r[|s| - h.size..] == s[mod..mod + h.size]
            && (h.size + PayloadSize(es) >= |s| - h.size ==> r == s[..mod] + s[mod + h.size..] + s[mod..mod + h.size])
            && r != Regrown(s, mod, h.size, h.name, es)
  {
    PayloadLength(es);
    var h := HeaderAt(s, mod);
    var L, n := h.size, h.size + PayloadSize(es);
    var joined := s[mod..mod + L] + ElementsBytes(es);
    var block := WriteFooter(joined, n - FooterSize);
    assert block[..L] == s[mod..mod + L] by {
      forall i | 0 <= i < L ensures block[i] == s[mod + i] {
        assert block[i] == joined[i];
      }
    }
    assert |Regrown(s, mod, L, h.name, es)| == |s| + PayloadSize(es);
  }

  // ---------------------------------------------------------------- cleanModules

  /** cleanModules as written, from cursor pos over an allocation buf whose
      first `size` bytes are the store; the loop bound `end` is the size the
      scan began with, so after a deletion the scan carries on into the stale
      bytes deleteModule leaves behind. A deletion that runs past `size` (its
      move count wraps around) is a wild move; a header beyond the allocation,
      or a footer before its start or beyond its end, is a wild read. No size
      is rejected: a dropped module of size 1 to 19 is deleted like any other,
      a kept one has its footer read at pos + size - 4, inside its own header
      or before it, and is stepped over when those bytes are the sentinel; a
      module of size 0 leaves the cursor and the store as they were, so the
      loop never ends. deleteModule is taken with its move count repaired. */
  function CleanAsWritten(buf: seq<u8>, size: nat, pos: nat, end: nat, keep: seq<u64>): Outcome<seq<u8>>
    requires size <= |buf| && end <= |buf|
    decreases end - pos + size
  {
    if pos >= end then Done(buf[..size])
    else if |buf| < pos + HeaderSize then Faulted(WildRead)
    else
      var h := HeaderAt(buf, pos);
      if h.name !in keep then
        if h.size == 0 then Faulted(Endless)
        else if size < pos + h.size then Faulted(WildMove)
        else CleanAsWritten(buf[..pos] + buf[pos + h.size..size] + buf[size - h.size..], size - h.size, pos, end, keep)
      else if pos + h.size < FooterSize || |buf| < pos + h.size then Faulted(WildRead)
      else if !FooterAt(buf, pos + h.size - FooterSize) then Faulted(Thrown)
      else if h.size == 0 then Faulted(Endless)
      else CleanAsWritten(buf, size, pos + h.size, end, keep)
  }

  /** The module read at the front of two copies of one module. */
  lemma {:induction false} HeaderOfPair(x: Module, y: Module, s: seq<u8>)
    requires ModuleOk(x) && ModuleOk(y) && s == ModuleBytes(x) + ModuleBytes(y)
    ensures HeaderSize <= |s| && HeaderAt(s, 0) == Header(x.name, ModuleSize(x))
  {
    assert s == [] + ModuleBytes(x) + ModuleBytes(y);
    ModuleInConcat(s, [], x, ModuleBytes(y));
    ModuleInHeader(s, 0, x);
  }

  /** A store of L bytes whose first module, which the scan drops, is also
      the stale copy that follows: the second pass reads it again and moves
      past the emptied store. */
  lemma {:induction false} DropStaleCopy(t: seq<u8>, L: nat)
    requires |t| == 2 * L && MinModuleSize <= L && HeaderAt(t, 0).size == L
    ensures CleanAsWritten(t, L, 0, 2 * L, []) == Faulted(WildMove)
  {
    var u := t[..0] + t[L..L] + t[L - L..];
    assert u == t;
    assert CleanAsWritten(t, L, 0, 2 * L, []) == CleanAsWritten(u, 0, 0, 2 * L, []);
  }

  /** The first pass over a store of two modules of L bytes drops the first
      and leaves the second twice: moved to the front, and its stale copy. */
  lemma {:induction false} DropFirstOfTwo(s: seq<u8>, L: nat)
    requires |s| == 2 * L && MinModuleSize <= L && HeaderAt(s, 0).size == L
    ensures CleanAsWritten(s, 2 * L, 0, 2 * L, []) == CleanAsWritten(s[L..] + s[L..], L, 0, 2 * L, [])
  {
    assert s[..0] + s[L..2 * L] + s[2 * L - L..] == s[L..] + s[L..];
  }

  /** Dropping both of two modules of equal size: the intended pass empties
      the store, the pass as written deletes the stale copy of the second
      module a second time, past the end of the store. */
  lemma {:induction false} CleanRunsPastEnd(a: Module, b: Module)
    requires ModuleOk(a) && ModuleOk(b) && ModuleSize(a) == ModuleSize(b)
    ensures var s := StoreBytes([a, b]);
            && Clean(s, []) == Cleaned(Ok(()), [])
            && CleanAsWritten(s, |s|, 0, |s|, []) == Faulted(WildMove)
  {
    var L := ModuleSize(a);
    StoreCons(b, []);
    StoreCons(a, [b]);
    var s := StoreBytes([a, b]);
    var mb := ModuleBytes(b);
    ModuleParts(a);
    ModuleParts(b);
    assert s == ModuleBytes(a) + mb && |s| == 2 * L;
    assert s[L..] == mb;
    HeaderOfPair(a, b, s);
    DropFirstOfTwo(s, L);
    HeaderOfPair(b, b, mb + mb);
    DropStaleCopy(mb + mb, L);
    CleanStore([a, b], []);
    assert Retain([a, b], []) == [];
  }
}
