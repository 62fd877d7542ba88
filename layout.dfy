/** The binary layout of the record store (ClassSerializer/Config.h):

      Store   := Module*
      Module  := Header Element* Footer
      Header  := nameHash:u64 moduleSize:u64            16 bytes
      Element := Tag Value
      Tag     := nameHash:u64 typeId:u64                16 bytes (UnknownElement)
      Value   := Width(kind) raw bytes
      Footer  := EF BE AD DE                            4 bytes

    This module holds the pure part: the codecs of the three fixed structures,
    the registry of scalar kinds (idToTSize), the decoded view of a store as
    values (Module, Element), its encoding, and its parser; `WellFormed` is
    "the buffer parses as a back-to-back sequence of modules". */
module Layout {
  import opened Words
  import opened Results
  import opened Footers

  const HeaderSize: nat := 16
  const TagSize: nat := 16
  const MinModuleSize: nat := HeaderSize + FooterSize

  // ---------------------------------------------------------------- Header

  datatype Header = Header(name: u64, size: u64)

  /** Header::write: the name hash, then the module size. */
  function EncodeHeader(h: Header): (r: seq<u8>)
    ensures |r| == HeaderSize
  {
    EncodeWord(h.name) + EncodeWord(h.size)
  }

  /** Header(char* address): the two words at p. */
  function HeaderAt(s: seq<u8>, p: nat): Header
    requires p + HeaderSize <= |s|
  {
    Header(WordAt(s, p), WordAt(s, p + 8))
  }

  /** Writing a header at p fills exactly 16 bytes, and reading there gives it back. */
  lemma {:induction false} HeaderRoundTrip(s: seq<u8>, p: nat, h: Header)
    requires p + HeaderSize <= |s|
    ensures HeaderAt(Overwrite(s, p, EncodeHeader(h)), p) == h
  {
    HeaderOfBytes(Overwrite(s, p, EncodeHeader(h)), p, h);
  }

  /** The 16 bytes at p are a header's encoding exactly when the header read there is it. */
  lemma {:induction false} HeaderOfBytes(s: seq<u8>, p: nat, h: Header)
    requires p + HeaderSize <= |s| && s[p..p + HeaderSize] == EncodeHeader(h)
    ensures HeaderAt(s, p) == h
  {
    var n, z := EncodeWord(h.name), EncodeWord(h.size);
    Slice3(n, z, []);
    assert n + z + [] == EncodeHeader(h);
    SliceOfSlice(s, p, HeaderSize, 0, 8);
    SliceOfSlice(s, p, HeaderSize, 8, 16);
    WordAtSlice(s, p);
    WordAtSlice(s, p + 8);
    WordRoundTrip(h.name);
    WordRoundTrip(h.size);
  }

  /** Reading a header from any 16 bytes and writing it back reproduces them. */
  lemma {:induction false} HeaderBytesRoundTrip(s: seq<u8>, p: nat)
    requires p + HeaderSize <= |s|
    ensures EncodeHeader(HeaderAt(s, p)) == s[p..p + HeaderSize]
  {
    assert s[p..p + HeaderSize] == s[p..p + 8] + s[p + 8..p + 16];
    WordAtSlice(s, p);
    WordAtSlice(s, p + 8);
    WordBytesRoundTrip(s[p..p + 8]);
    WordBytesRoundTrip(s[p + 8..p + 16]);
  }

  // ---------------------------------------------------------------- Registry

  /** The closed set of scalar kinds an element can hold (int and float in the source). */
  datatype Kind = Int | Float

  /** The type id written into an element's tag. */
  function TypeId(k: Kind): u64
  {
    match k
    case Int => 1
    case Float => 2
  }

  /** sizeof(int) and sizeof(float) on the target platform. */
  function Width(k: Kind): nat
  {
    4
  }

  /** The kind a type id stands for; ids outside the registry have none. */
  function KindOf(id: u64): (r: Option<Kind>)
    ensures r.Some? ==> TypeId(r.value) == id
    ensures forall k: Kind :: TypeId(k) == id ==> r == Some(k)
  {
    if id == 1 then Some(Int) else if id == 2 then Some(Float) else None
  }

  // ---------------------------------------------------------------- Element tag

  datatype Tag = Tag(name: u64, typeId: u64)

  /** UnknownElement::write. */
  function EncodeTag(t: Tag): (r: seq<u8>)
    ensures |r| == TagSize
  {
    EncodeWord(t.name) + EncodeWord(t.typeId)
  }

  /** UnknownElement(char* address). */
  function TagAt(s: seq<u8>, p: nat): Tag
    requires p + TagSize <= |s|
  {
    Tag(WordAt(s, p), WordAt(s, p + 8))
  }

  lemma {:induction false} TagOfBytes(s: seq<u8>, p: nat, t: Tag)
    requires p + TagSize <= |s| && s[p..p + TagSize] == EncodeTag(t)
    ensures TagAt(s, p) == t
  {
    var n, z := EncodeWord(t.name), EncodeWord(t.typeId);
    Slice3(n, z, []);
    assert n + z + [] == EncodeTag(t);
    SliceOfSlice(s, p, TagSize, 0, 8);
    SliceOfSlice(s, p, TagSize, 8, 16);
    WordAtSlice(s, p);
    WordAtSlice(s, p + 8);
    WordRoundTrip(t.name);
    WordRoundTrip(t.typeId);
  }

  lemma {:induction false} TagBytesRoundTrip(s: seq<u8>, p: nat)
    requires p + TagSize <= |s|
    ensures EncodeTag(TagAt(s, p)) == s[p..p + TagSize]
  {
    assert s[p..p + TagSize] == s[p..p + 8] + s[p + 8..p + 16];
    WordAtSlice(s, p);
    WordAtSlice(s, p + 8);
    WordBytesRoundTrip(s[p..p + 8]);
    WordBytesRoundTrip(s[p + 8..p + 16]);
  }

  // ---------------------------------------------------------------- Decoded view

  /** A named fixed-width scalar field; `value` is its raw bytes. */
  datatype Element = Element(name: u64, kind: Kind, value: seq<u8>)

  /** A named record: its elements in layout order. */
  datatype Module = Module(name: u64, elements: seq<Element>)

  predicate ElementOk(e: Element)
  {
    |e.value| == Width(e.kind)
  }

  predicate ElementsOk(es: seq<Element>)
  {
    forall e :: e in es ==> ElementOk(e)
  }

  /** The bytes the elements occupy: tag plus value width each (the
      `UnknownElement::size() * n + (sizeof(Ts) + ...)` of createModule). */
  function PayloadSize(es: seq<Element>): nat
  {
    if es == [] then 0 else TagSize + Width(es[0].kind) + PayloadSize(es[1..])
  }

  function ModuleSize(m: Module): nat
  {
    HeaderSize + PayloadSize(m.elements) + FooterSize
  }

  /** A module can be laid out: values have their kind's width and the size fits a size_t. */
  predicate ModuleOk(m: Module)
  {
    ElementsOk(m.elements) && ModuleSize(m) < WordLimit
  }

  predicate ModulesOk(ms: seq<Module>)
  {
    forall m :: m in ms ==> ModuleOk(m)
  }

  // ---------------------------------------------------------------- Encoding

  /** Element<T>::write: the tag, then the value bytes. */
  function ElementBytes(e: Element): (r: seq<u8>)
  {
    EncodeTag(Tag(e.name, TypeId(e.kind))) + e.value
  }

  /** addElementInternal: the elements back to back, in argument order. */
  function ElementsBytes(es: seq<Element>): (r: seq<u8>)
  {
    if es == [] then [] else ElementBytes(es[0]) + ElementsBytes(es[1..])
  }

  /** The module createModule builds: header recording the total size, the
      elements, and the footer in the last four bytes. */
  function ModuleBytes(m: Module): (r: seq<u8>)
    requires ModuleOk(m)
    ensures |r| == ModuleSize(m)
  {
    PayloadLength(m.elements);
    EncodeHeader(Header(m.name, ModuleSize(m))) + ElementsBytes(m.elements) + Sentinel
  }

  /** A module's encoding in its three parts: header, payload, sentinel. */
  lemma {:induction false} ModuleParts(m: Module)
    requires ModuleOk(m)
    ensures ModuleBytes(m) == EncodeHeader(Header(m.name, ModuleSize(m))) + ElementsBytes(m.elements) + Sentinel
    ensures |ElementsBytes(m.elements)| == PayloadSize(m.elements)
  {
    PayloadLength(m.elements);
  }

  /** ModuleParts with the header given: the module's bytes are h's encoding,
      the elements and the footer. */
  lemma {:induction false} ModuleFramedBy(m: Module, h: Header)
    requires ModuleOk(m) && h.name == m.name && h.size == ModuleSize(m)
    ensures ModuleBytes(m) == EncodeHeader(h) + ElementsBytes(m.elements) + Sentinel
  {
    ModuleParts(m);
    assert Header(m.name, ModuleSize(m)) == h;
  }

  /** The whole buffer: the modules back to back, no gaps. */
  function StoreBytes(ms: seq<Module>): (r: seq<u8>)
    requires ModulesOk(ms)
  {
    if ms == [] then [] else ModuleBytes(ms[0]) + StoreBytes(ms[1..])
  }

  // ---------------------------------------------------------------- Parsing

  /** The elements filling a payload region exactly, or None if it does not
      split into tags with registered type ids and their values. */
  function ParseElements(b: seq<u8>): Option<seq<Element>>
    decreases |b|
  {
    if b == [] then Some([])
    else if |b| < TagSize then None
    else
      var t := TagAt(b, 0);
      match KindOf(t.typeId)
      case None => None
      case Some(k) =>
        if |b| < TagSize + Width(k) then None
        else
          match ParseElements(b[TagSize + Width(k)..])
          case None => None
          case Some(rest) => Some([Element(t.name, k, b[TagSize..TagSize + Width(k)])] + rest)
  }

  /** The modules filling the buffer exactly: each with a header whose size
      spans it, elements that parse, and a valid footer in its last 4 bytes. */
  function ParseStore(s: seq<u8>): Option<seq<Module>>
    decreases |s|
  {
    if s == [] then Some([])
    else if |s| < HeaderSize then None
    else
      var h := HeaderAt(s, 0);
      if h.size < MinModuleSize || |s| < h.size then None
      else if !FooterAt(s, h.size - FooterSize) then None
      else
        match ParseElements(s[HeaderSize..h.size - FooterSize])
        case None => None
        case Some(es) =>
          match ParseStore(s[h.size..])
          case None => None
          case Some(rest) => Some([Module(h.name, es)] + rest)
  }

  /** The buffer invariant: a back-to-back concatenation of well-formed modules. */
  predicate WellFormed(s: seq<u8>)
  {
    ParseStore(s).Some?
  }

  // ---------------------------------------------------------------- Round trips

  lemma {:induction false} PayloadLength(es: seq<Element>)
    requires ElementsOk(es)
    ensures |ElementsBytes(es)| == PayloadSize(es)
  {
    if es != [] {
      assert es[0] in es;
      PayloadLength(es[1..]);
    }
  }

  lemma {:induction false} ParseElementsBytes(es: seq<Element>)
    requires ElementsOk(es)
    ensures ParseElements(ElementsBytes(es)) == Some(es)
  {
    if es != [] {
      var e := es[0];
      assert e in es;
      var b := ElementBytes(e) + ElementsBytes(es[1..]);
      assert b[..TagSize] == EncodeTag(Tag(e.name, TypeId(e.kind)));
      TagOfBytes(b, 0, Tag(e.name, TypeId(e.kind)));
      assert b[TagSize..TagSize + Width(e.kind)] == e.value;
      assert b[TagSize + Width(e.kind)..] == ElementsBytes(es[1..]);
      assert KindOf(TypeId(e.kind)) == Some(e.kind);
      assert ElementOk(e);
      ParseElementsBytes(es[1..]);
      assert [Element(e.name, e.kind, e.value)] + es[1..] == es;
    }
  }

  lemma {:induction false} ElementsBytesOfParse(b: seq<u8>)
    requires ParseElements(b).Some?
    ensures ElementsOk(ParseElements(b).value)
    ensures ElementsBytes(ParseElements(b).value) == b
  {
    if b != [] {
      var t := TagAt(b, 0);
      var k := KindOf(t.typeId).value;
      var w := TagSize + Width(k);
      ElementsBytesOfParse(b[w..]);
      var e := Element(t.name, k, b[TagSize..w]);
      TagBytesRoundTrip(b, 0);
      assert b == b[..TagSize] + b[TagSize..w] + b[w..];
    }
  }

  /** A module's encoding parses as that module, whatever follows it. */
  lemma {:induction false} ParseStoreCons(m: Module, rest: seq<u8>)
    requires ModuleOk(m)
    ensures ParseStore(ModuleBytes(m) + rest) ==
              match ParseStore(rest)
              case None => None
              case Some(ms) => Some([m] + ms)
  {
    var mb := ModuleBytes(m);
    var s := mb + rest;
    var L := ModuleSize(m);
    assert s[..L] == mb;
    assert s[0..HeaderSize] == EncodeHeader(Header(m.name, L));
    HeaderOfBytes(s, 0, Header(m.name, L));
    assert s[L - FooterSize..L] == Sentinel;
    PayloadLength(m.elements);
    assert s[HeaderSize..L - FooterSize] == ElementsBytes(m.elements);
    ParseElementsBytes(m.elements);
    assert s[L..] == rest;
  }

  /** Parsing the encoding of well-laid-out modules gives them back. */
  lemma {:induction false} ParseStoreBytes(ms: seq<Module>)
    requires ModulesOk(ms)
    ensures ParseStore(StoreBytes(ms)) == Some(ms)
  {
    if ms != [] {
      ParseStoreCons(ms[0], StoreBytes(ms[1..]));
      ParseStoreBytes(ms[1..]);
      assert [ms[0]] + ms[1..] == ms;
    }
  }

  /** The bytes of a closed module at p, with header h, whose payload parses
      as es are the encoding of the module h.name with es. */
  lemma {:induction false} ModuleBytesAt(s: seq<u8>, p: nat, h: Header, es: seq<Element>)
    requires p + HeaderSize <= |s| && h == HeaderAt(s, p) && MinModuleSize <= h.size && p + h.size <= |s|
    requires FooterAt(s, p + h.size - FooterSize)
    requires ParseElements(s[p + HeaderSize..p + h.size - FooterSize]) == Some(es)
    ensures ModuleOk(Module(h.name, es)) && ModuleSize(Module(h.name, es)) == h.size
    ensures ModuleBytes(Module(h.name, es)) == s[p..p + h.size]
  {
    ElementsBytesOfParse(s[p + HeaderSize..p + h.size - FooterSize]);
    PayloadLength(es);
    HeaderBytesRoundTrip(s, p);
    FooterEndsAt(s, p + h.size - FooterSize, p + h.size);
    ModuleBytesJoin(s, p, h, es);
  }

  /** A header, a payload and a footer laid side by side at p are the module's bytes. */
  lemma {:induction false} ModuleBytesJoin(s: seq<u8>, p: nat, h: Header, es: seq<Element>)
    requires MinModuleSize <= h.size && p + h.size <= |s|
    requires ModuleOk(Module(h.name, es)) && ModuleSize(Module(h.name, es)) == h.size
    requires EncodeHeader(h) == s[p..p + HeaderSize]
    requires ElementsBytes(es) == s[p + HeaderSize..p + h.size - FooterSize]
    requires s[p + h.size - FooterSize..p + h.size] == Sentinel
    ensures ModuleBytes(Module(h.name, es)) == s[p..p + h.size]
  {
    ModuleFramedBy(Module(h.name, es), h);
    JoinAt(s, p, p + HeaderSize, p + h.size - FooterSize, p + h.size, EncodeHeader(h), ElementsBytes(es), Sentinel);
  }

  /** The store of a module followed by others: its bytes, then theirs. */
  lemma {:induction false} StoreCons(m: Module, rest: seq<Module>)
    requires ModuleOk(m) && ModulesOk(rest)
    ensures ModulesOk([m] + rest)
    ensures StoreBytes([m] + rest) == ModuleBytes(m) + StoreBytes(rest)
  {
    var ms := [m] + rest;
    assert ms[0] == m && ms[1..] == rest;
  }

  /** What a well-formed, non-empty buffer's parse says about its first module. */
  lemma {:induction false} ParseStoreHead(s: seq<u8>)
    requires WellFormed(s) && s != []
    ensures HeaderSize <= |s|
    ensures var h := HeaderAt(s, 0);
            && MinModuleSize <= h.size <= |s|
            && FooterAt(s, h.size - FooterSize)
            && ParseElements(s[HeaderSize..h.size - FooterSize]).Some?
            && WellFormed(s[h.size..])
            && ParseStore(s).value ==
                 [Module(h.name, ParseElements(s[HeaderSize..h.size - FooterSize]).value)] + ParseStore(s[h.size..]).value
  {
  }

  /** A well-formed buffer is exactly the encoding of what it parses to. */
  lemma {:induction false} StoreBytesOfParse(s: seq<u8>)
    requires WellFormed(s)
    ensures ModulesOk(ParseStore(s).value)
    ensures StoreBytes(ParseStore(s).value) == s
  {
    if s != [] {
      ParseStoreHead(s);
      ModuleBytesAt(s, 0, HeaderAt(s, 0), ParseElements(s[HeaderSize..HeaderAt(s, 0).size - FooterSize]).value);
      StoreBytesOfParse(s[HeaderAt(s, 0).size..]);
      StoreConsBytes(s, HeaderAt(s, 0).size,
        Module(HeaderAt(s, 0).name, ParseElements(s[HeaderSize..HeaderAt(s, 0).size - FooterSize]).value),
        ParseStore(s[HeaderAt(s, 0).size..]).value);
    }
  }

  /** A module's bytes followed by a store's bytes, read back as one store. */
  lemma {:induction false} StoreConsBytes(s: seq<u8>, L: nat, m: Module, rest: seq<Module>)
    requires L <= |s| && ModuleOk(m) && ModulesOk(rest)
    requires ModuleBytes(m) == s[0..L] && StoreBytes(rest) == s[L..]
    ensures ModulesOk([m] + rest) && StoreBytes([m] + rest) == s
  {
    StoreCons(m, rest);
    assert s[0..L] + s[L..] == s;
  }
}
