/** What the scans of Scan compute on a well-formed store: the byte offsets
    they return are those of the first module / element with the name, in
    layout order, and the reads and the retain-only pass agree with the
    decoded view of Records. */
module StoreFacts {
  import opened Words
  import opened Results
  import opened Layout
  import opened Footers
  import opened Records
  import opened Scan

  /** The bytes the modules occupy back to back. */
  function ModulesSize(ms: seq<Module>): nat
  {
    if ms == [] then 0 else ModuleSize(ms[0]) + ModulesSize(ms[1..])
  }

  /** Where module i starts in the encoded store. */
  function ModuleOffset(ms: seq<Module>, i: nat): nat
    requires i <= |ms|
  {
    ModulesSize(ms[..i])
  }

  lemma {:induction false} StoreLength(ms: seq<Module>)
    requires ModulesOk(ms)
    ensures |StoreBytes(ms)| == ModulesSize(ms)
  {
    if ms != [] {
      StoreLength(ms[1..]);
    }
  }

  lemma {:induction false} ModulesSizeConcat(a: seq<Module>, b: seq<Module>)
    ensures ModulesSize(a + b) == ModulesSize(a) + ModulesSize(b)
  {
    if a == [] {
      assert a + b == b;
    } else {
      assert (a + b)[0] == a[0];
      assert (a + b)[1..] == a[1..] + b;
      ModulesSizeConcat(a[1..], b);
    }
  }

  /** Where element j starts in the payload of a module. */
  function ElementOffset(es: seq<Element>, j: nat): nat
    requires j <= |es|
  {
    PayloadSize(es[..j])
  }

  // ---------------------------------------------------------------- Concatenation

  lemma {:induction false} StoreBytesConcat(a: seq<Module>, b: seq<Module>)
    requires ModulesOk(a) && ModulesOk(b)
    ensures ModulesOk(a + b)
    ensures StoreBytes(a + b) == StoreBytes(a) + StoreBytes(b)
  {
    if a == [] {
      assert a + b == b;
    } else {
      assert (a + b)[0] == a[0];
      assert (a + b)[1..] == a[1..] + b;
      StoreBytesConcat(a[1..], b);
    }
  }

  lemma {:induction false} ElementsBytesConcat(a: seq<Element>, b: seq<Element>)
    requires ElementsOk(a) && ElementsOk(b)
    ensures ElementsOk(a + b)
    ensures ElementsBytes(a + b) == ElementsBytes(a) + ElementsBytes(b)
    ensures PayloadSize(a + b) == PayloadSize(a) + PayloadSize(b)
  {
    if a == [] {
      assert a + b == b;
    } else {
      assert (a + b)[0] == a[0];
      assert (a + b)[1..] == a[1..] + b;
      ElementsBytesConcat(a[1..], b);
    }
  }

  /** The store around module i: the modules before it, it, and those after. */
  lemma {:induction false} StoreSplitBytes(ms: seq<Module>, i: nat)
    requires ModulesOk(ms) && i < |ms|
    ensures StoreBytes(ms) == StoreBytes(ms[..i]) + ModuleBytes(ms[i]) + StoreBytes(ms[i + 1..])
  {
    var head, tail := ModuleBytes(ms[0]), StoreBytes(ms[1..]);
    assert StoreBytes(ms) == head + tail;
    if i == 0 {
      assert ms[..0] == [];
    } else {
      StoreSplitBytes(ms[1..], i - 1);
      var x, y, z := StoreBytes(ms[1..][..i - 1]), ModuleBytes(ms[i]), StoreBytes(ms[i + 1..]);
      assert ms[1..][i - 1] == ms[i] && ms[1..][i..] == ms[i + 1..];
      assert tail == x + y + z;
      var a := ms[..i];
      assert a[0] == ms[0] && a[1..] == ms[1..][..i - 1];
      assert StoreBytes(a) == head + x;
      Assoc(head, x + y, z);
      Assoc(head, x, y);
    }
  }

  /** Module i is laid out in the store at its offset. */
  lemma {:induction false} StoreSplit(ms: seq<Module>, i: nat)
    requires ModulesOk(ms) && i < |ms|
    ensures ModuleIn(StoreBytes(ms), ModuleOffset(ms, i), ms[i])
  {
    var s, x, z := StoreBytes(ms), StoreBytes(ms[..i]), StoreBytes(ms[i + 1..]);
    StoreSplitBytes(ms, i);
    StoreLength(ms[..i]);
    ModuleInConcat(s, x, ms[i], z);
  }

  /** A module's encoding sits at its offset in any concatenation. */
  lemma {:induction false} ModuleInConcat(s: seq<u8>, x: seq<u8>, m: Module, z: seq<u8>)
    requires ModuleOk(m) && s == x + ModuleBytes(m) + z
    ensures ModuleIn(s, |x|, m)
  {
    Slice3(x, ModuleBytes(m), z);
  }

  /** The payload around element j. */
  lemma {:induction false} PayloadSplit(es: seq<Element>, j: nat)
    requires ElementsOk(es) && j < |es|
    ensures ElementsBytes(es) == ElementsBytes(es[..j]) + ElementBytes(es[j]) + ElementsBytes(es[j + 1..])
    ensures PayloadSize(es) == PayloadSize(es[..j]) + TagSize + Width(es[j].kind) + PayloadSize(es[j + 1..])
  {
    var a, b := es[..j], es[j..];
    assert es == a + b;
    ElementsBytesConcat(a, b);
    assert b[0] == es[j] && b[1..] == es[j + 1..];
    assert ElementsBytes(b) == ElementBytes(es[j]) + ElementsBytes(es[j + 1..]);
  }

  /** The next module starts where module k ends. */
  lemma {:induction false} ModuleOffsetNext(ms: seq<Module>, k: nat)
    requires ModulesOk(ms) && k < |ms|
    ensures ModuleOffset(ms, k + 1) == ModuleOffset(ms, k) + ModuleSize(ms[k])
  {
    var a, m := ms[..k], ms[k];
    assert ms[..k + 1] == a + [m];
    ModulesSizeConcat(a, [m]);
    assert [m][1..] == [];
  }

  lemma {:induction false} PayloadSizeConcat(a: seq<Element>, b: seq<Element>)
    ensures PayloadSize(a + b) == PayloadSize(a) + PayloadSize(b)
  {
    if a == [] {
      assert a + b == b;
    } else {
      assert (a + b)[0] == a[0];
      assert (a + b)[1..] == a[1..] + b;
      PayloadSizeConcat(a[1..], b);
    }
  }

  /** The next element starts where element j ends, still inside the payload. */
  lemma {:induction false} ElementOffsetNext(es: seq<Element>, j: nat)
    requires j < |es|
    ensures ElementOffset(es, j + 1) == ElementOffset(es, j) + TagSize + Width(es[j].kind)
    ensures ElementOffset(es, j + 1) <= PayloadSize(es)
  {
    var a, e := es[..j], es[j];
    assert es[..j + 1] == a + [e];
    PayloadSizeConcat(a, [e]);
    assert [e][1..] == [];
    assert es == es[..j + 1] + es[j + 1..];
    PayloadSizeConcat(es[..j + 1], es[j + 1..]);
  }

  // ---------------------------------------------------------------- Fixed structures in place

  /** A module laid out at p has its header there and its footer in its last four bytes. */
  lemma {:induction false} ModuleInHeader(s: seq<u8>, p: nat, m: Module)
    requires ModuleIn(s, p, m)
    ensures HeaderAt(s, p) == Header(m.name, ModuleSize(m))
    ensures Closed(s, p)
  {
    ModuleParts(m);
    SplitParts(s, p, HeaderSize, ModuleSize(m) - FooterSize, ModuleSize(m),
      EncodeHeader(Header(m.name, ModuleSize(m))), ElementsBytes(m.elements), Sentinel);
    HeaderOfBytes(s, p, Header(m.name, ModuleSize(m)));
    ClosedAt(s, p, Header(m.name, ModuleSize(m)));
  }

  /** A module whose header reads h and whose last four bytes are the sentinel is closed. */
  lemma {:induction false} ClosedAt(s: seq<u8>, p: nat, h: Header)
    requires p + HeaderSize <= |s| && HeaderAt(s, p) == h && MinModuleSize <= h.size && p + h.size <= |s|
    requires s[p + h.size - FooterSize..p + h.size] == Sentinel
    ensures Closed(s, p)
  {
  }

  /** The payload of a module laid out at p: its elements' bytes, between header and footer. */
  lemma {:induction false} PayloadIn(s: seq<u8>, p: nat, m: Module)
    requires ModuleIn(s, p, m)
    ensures HeaderSize + PayloadSize(m.elements) + FooterSize == ModuleSize(m)
    ensures s[p + HeaderSize..p + ModuleSize(m) - FooterSize] == ElementsBytes(m.elements)
  {
    ModuleParts(m);
    SplitParts(s, p, HeaderSize, ModuleSize(m) - FooterSize, ModuleSize(m),
      EncodeHeader(Header(m.name, ModuleSize(m))), ElementsBytes(m.elements), Sentinel);
  }

  /** PayloadIn with the payload's end given by its size. */
  lemma {:induction false} PayloadAt(s: seq<u8>, p: nat, m: Module)
    requires ModuleIn(s, p, m)
    ensures p + HeaderSize + PayloadSize(m.elements) <= |s|
    ensures s[p + HeaderSize..p + HeaderSize + PayloadSize(m.elements)] == ElementsBytes(m.elements)
  {
    ModuleParts(m);
    SplitParts(s, p, HeaderSize, HeaderSize + PayloadSize(m.elements), ModuleSize(m),
      EncodeHeader(Header(m.name, ModuleSize(m))), ElementsBytes(m.elements), Sentinel);
  }

  /** An element laid out at pos has its tag there and its value after the tag. */
  lemma {:induction false} ElementInBytes(s: seq<u8>, pos: nat, e: Element)
    requires ElementOk(e) && pos + TagSize + Width(e.kind) <= |s|
    requires s[pos..pos + TagSize + Width(e.kind)] == ElementBytes(e)
    ensures TagAt(s, pos) == Tag(e.name, TypeId(e.kind))
    ensures s[pos + TagSize..pos + TagSize + Width(e.kind)] == e.value
  {
    var w := TagSize + Width(e.kind);
    var tb := EncodeTag(Tag(e.name, TypeId(e.kind)));
    Slice3(tb, e.value, []);
    assert tb + e.value + [] == ElementBytes(e);
    SliceOfSlice(s, pos, w, 0, TagSize);
    SliceOfSlice(s, pos, w, TagSize, w);
    TagOfBytes(s, pos, Tag(e.name, TypeId(e.kind)));
  }

  // ---------------------------------------------------------------- getModule on a store

  /** One step of getModule's loop at a module whose header and footer check
      out: stop there, or jump to the next module. */
  lemma {:induction false} FindModuleStep(s: seq<u8>, p: nat, name: u64)
    requires Closed(s, p)
    ensures FindModuleFrom(s, p, name) ==
              if HeaderAt(s, p).name == name then Ok(Some(p)) else FindModuleFrom(s, p + HeaderAt(s, p).size, name)
  {
  }

  /** Module k of a store has its header at its offset and its footer where the header says. */
  lemma {:induction false} HeaderInStore(ms: seq<Module>, k: nat)
    requires ModulesOk(ms) && k < |ms|
    ensures HeaderFacts(StoreBytes(ms), ms, k)
  {
    var s, p := StoreBytes(ms), ModuleOffset(ms, k);
    StoreSplit(ms, k);
    ModuleInHeader(s, p, ms[k]);
  }

  /** What getModule's loop reads at module k: a header with its name and
      size, and the footer where that size says. */
  predicate HeaderFacts(s: seq<u8>, ms: seq<Module>, k: nat)
    requires ModulesOk(ms) && k < |ms|
  {
    var p := ModuleOffset(ms, k);
    && p + HeaderSize <= |s|
    && HeaderAt(s, p).name == ms[k].name
    && HeaderAt(s, p).size == ModuleSize(ms[k])
    && Closed(s, p)
  }

  /** The headers and footers of the modules ms tile s. */
  predicate HeadersIn(s: seq<u8>, ms: seq<Module>)
  {
    && ModulesOk(ms)
    && |s| == ModuleOffset(ms, |ms|)
    && forall k :: 0 <= k < |ms| ==> HeaderFacts(s, ms, k)
  }

  lemma {:induction false} HeadersInStore(ms: seq<Module>)
    requires ModulesOk(ms)
    ensures HeadersIn(StoreBytes(ms), ms)
  {
    forall k | 0 <= k < |ms|
      ensures HeaderFacts(StoreBytes(ms), ms, k)
    {
      HeaderInStore(ms, k);
    }
    assert ms[..|ms|] == ms;
    StoreLength(ms);
  }

  /** getModule's loop at module k: stop there, or go on at module k + 1. */
  lemma {:induction false} FindModuleAt(s: seq<u8>, ms: seq<Module>, k: nat, name: u64)
    requires HeadersIn(s, ms) && k < |ms|
    ensures FindModuleFrom(s, ModuleOffset(ms, k), name) ==
              if ms[k].name == name then Ok(Some(ModuleOffset(ms, k)))
              else FindModuleFrom(s, ModuleOffset(ms, k + 1), name)
  {
    assert HeaderFacts(s, ms, k);
    FindModuleStep(s, ModuleOffset(ms, k), name);
    ModuleOffsetNext(ms, k);
  }

  /** From module k on, getModule's loop stops at module i, the first with the name. */
  lemma {:induction false} FindModuleTo(s: seq<u8>, ms: seq<Module>, k: nat, i: nat, name: u64)
    requires HeadersIn(s, ms) && k <= i < |ms|
    requires ms[i].name == name && forall j :: k <= j < i ==> ms[j].name != name
    ensures FindModuleFrom(s, ModuleOffset(ms, k), name) == Ok(Some(ModuleOffset(ms, i)))
    decreases i - k
  {
    FindModuleAt(s, ms, k, name);
    if k < i {
      FindModuleTo(s, ms, k + 1, i, name);
    }
  }

  /** From module k on, no module has the name: getModule's loop runs off the end. */
  lemma {:induction false} FindModuleNone(s: seq<u8>, ms: seq<Module>, k: nat, name: u64)
    requires HeadersIn(s, ms) && k <= |ms|
    requires forall j :: k <= j < |ms| ==> ms[j].name != name
    ensures FindModuleFrom(s, ModuleOffset(ms, k), name) == Ok(None)
    decreases |ms| - k
  {
    if k < |ms| {
      FindModuleAt(s, ms, k, name);
      FindModuleNone(s, ms, k + 1, name);
    }
  }

  /** getModule on a well-formed store returns the offset of the first module
      with the name, or absent when no module has it; it never reports corruption. */
  lemma {:induction false} FindModuleInStore(ms: seq<Module>, name: u64)
    requires ModulesOk(ms)
    ensures FirstModule(ms, name).None? ==> FindModule(StoreBytes(ms), name) == Ok(None)
    ensures FirstModule(ms, name).Some? ==>
              FindModule(StoreBytes(ms), name) == Ok(Some(ModuleOffset(ms, FirstModule(ms, name).value)))
  {
    var s := StoreBytes(ms);
    HeadersInStore(ms);
    assert ms[..0] == [];
    match FirstModule(ms, name)
    case None => FindModuleNone(s, ms, 0, name);
    case Some(i) => FindModuleTo(s, ms, 0, i, name);
  }

  // ---------------------------------------------------------------- getElementAddress on a module

  /** What getElementAddress's loop reads at element j of a payload starting at
      pos: its tag, with the element's name and type id. */
  predicate TagFacts(s: seq<u8>, pos: nat, es: seq<Element>, j: nat)
    requires j < |es|
  {
    var q := pos + ElementOffset(es, j);
    q + TagSize <= |s| && TagAt(s, q) == Tag(es[j].name, TypeId(es[j].kind))
  }

  /** The tags of es tile s from pos up to `last`, where a footer follows. */
  predicate TagsIn(s: seq<u8>, pos: nat, es: seq<Element>, last: nat)
  {
    && pos + PayloadSize(es) == last
    && FooterAt(s, last)
    && forall j :: 0 <= j < |es| ==> TagFacts(s, pos, es, j)
  }

  /** getElementAddress's loop at element j: stop there, or go on at element j + 1. */
  lemma {:induction false} FindElementAt(s: seq<u8>, pos: nat, es: seq<Element>, last: nat, j: nat, name: u64)
    requires TagsIn(s, pos, es, last) && j < |es|
    ensures FindElementFrom(s, last, pos + ElementOffset(es, j), name) ==
              if es[j].name == name then Ok(Some(pos + ElementOffset(es, j)))
              else FindElementFrom(s, last, pos + ElementOffset(es, j + 1), name)
  {
    assert TagFacts(s, pos, es, j);
    ElementOffsetNext(es, j);
    assert KindOf(TypeId(es[j].kind)) == Some(es[j].kind);
  }

  /** From element j on, the loop stops at element i, the first with the name. */
  lemma {:induction false} FindElementTo(s: seq<u8>, pos: nat, es: seq<Element>, last: nat, j: nat, i: nat, name: u64)
    requires TagsIn(s, pos, es, last) && j <= i < |es|
    requires es[i].name == name && forall k :: j <= k < i ==> es[k].name != name
    ensures FindElementFrom(s, last, pos + ElementOffset(es, j), name) == Ok(Some(pos + ElementOffset(es, i)))
    decreases i - j
  {
    FindElementAt(s, pos, es, last, j, name);
    if j < i {
      FindElementTo(s, pos, es, last, j + 1, i, name);
    }
  }

  /** From element j on, no element has the name: the loop reaches the footer. */
  lemma {:induction false} FindElementNone(s: seq<u8>, pos: nat, es: seq<Element>, last: nat, j: nat, name: u64)
    requires TagsIn(s, pos, es, last) && j <= |es|
    requires forall k :: j <= k < |es| ==> es[k].name != name
    ensures FindElementFrom(s, last, pos + ElementOffset(es, j), name) == Ok(None)
    decreases |es| - j
  {
    if j < |es| {
      FindElementAt(s, pos, es, last, j, name);
      FindElementNone(s, pos, es, last, j + 1, name);
    } else {
      FindElementEnd(s, pos, es, last, name);
    }
  }

  /** Past the last element the loop is at the footer and reports absence. */
  lemma {:induction false} FindElementEnd(s: seq<u8>, pos: nat, es: seq<Element>, last: nat, name: u64)
    requires TagsIn(s, pos, es, last)
    ensures FindElementFrom(s, last, pos + ElementOffset(es, |es|), name) == Ok(None)
  {
    assert es[..|es|] == es;
  }

  /** The tags of a module laid out at p tile its payload. */
  lemma {:induction false} TagsInModule(s: seq<u8>, p: nat, m: Module)
    requires ModuleIn(s, p, m)
    ensures TagsIn(s, p + HeaderSize, m.elements, p + ModuleSize(m) - FooterSize)
  {
    var pos, es := p + HeaderSize, m.elements;
    forall j | 0 <= j < |es|
      ensures TagFacts(s, pos, es, j)
    {
      ElementInModule(s, p, m, j);
    }
    ModuleInHeader(s, p, m);
  }

  /** getElementAddress's loop starts at the first element's tag and runs up
      to where the header's size puts the footer. */
  lemma {:induction false} FindElementStart(s: seq<u8>, p: nat, es: seq<Element>, n: nat, name: u64)
    requires p + HeaderSize <= |s| && HeaderAt(s, p).size == n && HeaderSize + FooterSize <= n
    ensures FindElement(s, p, name) == FindElementFrom(s, p + n - FooterSize, p + HeaderSize + ElementOffset(es, 0), name)
  {
    assert es[..0] == [];
  }

  /** getElementAddress on a module whose header records size n and whose
      tags tile the payload up to the footer: the offset of the first element
      with the name, or absent, and never corruption. */
  lemma {:induction false} FindElementTiled(s: seq<u8>, p: nat, es: seq<Element>, n: nat, name: u64)
    requires p + HeaderSize <= |s| && HeaderAt(s, p).size == n && HeaderSize + FooterSize <= n
    requires TagsIn(s, p + HeaderSize, es, p + n - FooterSize)
    ensures FirstElement(es, name).None? ==> FindElement(s, p, name) == Ok(None)
    ensures FirstElement(es, name).Some? ==>
              FindElement(s, p, name) == Ok(Some(p + HeaderSize + ElementOffset(es, FirstElement(es, name).value)))
  {
    var pos, last, first := p + HeaderSize, p + n - FooterSize, FirstElement(es, name);
    FindElementStart(s, p, es, n, name);
    if first.None? {
      FindElementNone(s, pos, es, last, 0, name);
    } else {
      FindElementTo(s, pos, es, last, 0, first.value, name);
    }
  }

  /** getElementAddress on a laid-out module returns the offset of the first
      element with the name, or absent, and never reports corruption. */
  lemma {:induction false} FindElementInModule(s: seq<u8>, p: nat, m: Module, name: u64)
    requires ModuleIn(s, p, m)
    ensures p + HeaderSize <= |s|
    ensures FirstElement(m.elements, name).None? ==> FindElement(s, p, name) == Ok(None)
    ensures FirstElement(m.elements, name).Some? ==>
              FindElement(s, p, name) == Ok(Some(p + HeaderSize + ElementOffset(m.elements, FirstElement(m.elements, name).value)))
  {
    ModuleTiled(s, p, m);
    FindElementTiled(s, p, m.elements, ModuleSize(m), name);
  }

  /** A module laid out at p meets what FindElementTiled asks of a module:
      its header records its size and its tags tile the payload. */
  lemma {:induction false} ModuleTiled(s: seq<u8>, p: nat, m: Module)
    requires ModuleIn(s, p, m)
    ensures p + HeaderSize <= |s| && HeaderAt(s, p).size == ModuleSize(m) && HeaderSize + FooterSize <= ModuleSize(m)
    ensures TagsIn(s, p + HeaderSize, m.elements, p + ModuleSize(m) - FooterSize)
  {
    TagsInModule(s, p, m);
    ModuleInHeader(s, p, m);
  }

  /** Element j of a module laid out at p: its bytes in s, inside the module. */
  lemma {:induction false} ElementBytesInModule(s: seq<u8>, p: nat, m: Module, j: nat)
    requires ModuleIn(s, p, m) && j < |m.elements|
    ensures var q := p + HeaderSize + ElementOffset(m.elements, j);
            var e := m.elements[j];
            && ElementOk(e)
            && q + TagSize + Width(e.kind) + FooterSize <= p + ModuleSize(m)
            && s[q..q + TagSize + Width(e.kind)] == ElementBytes(e)
  {
    assert m.elements[j] in m.elements;
    PayloadSplit(m.elements, j);
    PayloadLength(m.elements);
    PayloadLength(m.elements[..j]);
    ElementOffsetNext(m.elements, j);
    PayloadAt(s, p, m);
    SplitParts(s, p + HeaderSize, ElementOffset(m.elements, j),
      ElementOffset(m.elements, j) + TagSize + Width(m.elements[j].kind), PayloadSize(m.elements),
      ElementsBytes(m.elements[..j]), ElementBytes(m.elements[j]), ElementsBytes(m.elements[j + 1..]));
  }

  /** Element j of a module laid out at p: its tag and value bytes in s. */
  lemma {:induction false} ElementInModule(s: seq<u8>, p: nat, m: Module, j: nat)
    requires ModuleIn(s, p, m) && j < |m.elements|
    ensures var q := p + HeaderSize + ElementOffset(m.elements, j);
            var e := m.elements[j];
            && ElementOk(e)
            && q + TagSize + Width(e.kind) + FooterSize <= p + ModuleSize(m)
            && TagAt(s, q) == Tag(e.name, TypeId(e.kind))
            && s[q + TagSize..q + TagSize + Width(e.kind)] == e.value
  {
    ElementBytesInModule(s, p, m, j);
    ElementInBytes(s, p + HeaderSize + ElementOffset(m.elements, j), m.elements[j]);
  }

  // ---------------------------------------------------------------- Reads on a store

  /** getElementValue on a laid-out module reads the field's bytes, or the default when absent. */
  lemma {:induction false} ElementValueInModule(s: seq<u8>, p: nat, m: Module, name: u64, k: Kind)
    requires ModuleIn(s, p, m)
    ensures p + HeaderSize <= |s|
    ensures ElementValue(s, p, name, k) == Ok(FieldValue(m, name, k))
  {
    FindElementInModule(s, p, m, name);
    var first := FirstElement(m.elements, name);
    if first.None? {
      ValueAbsent(s, p, name, k);
    } else {
      var j := first.value;
      ElementInModule(s, p, m, j);
      ValueAfterTag(s, p, p + HeaderSize + ElementOffset(m.elements, j), name, k, m.elements[j]);
    }
  }

  /** getElementValue where getElementAddress finds nothing: the default. */
  lemma {:induction false} ValueAbsent(s: seq<u8>, p: nat, name: u64, k: Kind)
    requires p + HeaderSize <= |s| && FindElement(s, p, name) == Ok(None)
    ensures ElementValue(s, p, name, k) == Ok(DefaultValue(k))
  {
  }

  /** getElementValue where getElementAddress finds the tag at q: the value's bytes after it. */
  lemma {:induction false} ValueAfterTag(s: seq<u8>, p: nat, q: nat, name: u64, k: Kind, e: Element)
    requires p + HeaderSize <= |s| && FindElement(s, p, name) == Ok(Some(q))
    requires q + TagSize + Width(e.kind) <= |s| && s[q + TagSize..q + TagSize + Width(e.kind)] == e.value
    ensures ElementValue(s, p, name, k) == Ok(e.value)
  {
    assert Width(k) == Width(e.kind);
  }

  lemma {:induction false} ElementValuesInModule(s: seq<u8>, p: nat, m: Module, fields: seq<Field>)
    requires ModuleIn(s, p, m)
    ensures p + HeaderSize <= |s|
    ensures ElementValues(s, p, fields) ==
              Ok(seq(|fields|, i requires 0 <= i < |fields| => FieldValue(m, fields[i].name, fields[i].kind)))
  {
    ModuleInHeader(s, p, m);
    if fields != [] {
      ElementValueInModule(s, p, m, fields[0].name, fields[0].kind);
      ElementValuesInModule(s, p, m, fields[1..]);
      var all := seq(|fields|, i requires 0 <= i < |fields| => FieldValue(m, fields[i].name, fields[i].kind));
      var rest := fields[1..];
      var tail := seq(|rest|, i requires 0 <= i < |rest| => FieldValue(m, rest[i].name, rest[i].kind));
      assert ElementValues(s, p, fields) == Ok([all[0]] + tail);
      assert all == [all[0]] + tail;
    }
  }

  /** getModuleData on a well-formed store agrees with the decoded view:
      defaults for an absent module, per-field values or defaults otherwise. */
  lemma {:induction false} ModuleDataInStore(ms: seq<Module>, name: u64, fields: seq<Field>)
    requires ModulesOk(ms)
    ensures ModuleData(StoreBytes(ms), name, fields) == Ok(ModuleFields(ms, name, fields))
  {
    FindModuleInStore(ms, name);
    match FirstModule(ms, name)
    case None =>
    case Some(i) =>
      StoreSplit(ms, i);
      ElementValuesInModule(StoreBytes(ms), ModuleOffset(ms, i), ms[i], fields);
  }

  /** getModuleData after saveModule on the image of a store with distinct
      names: each saved field reads back as saved, every other field as
      before or as its default. */
  lemma {:induction false} SaveThenRead(ms: seq<Module>, name: u64, es: seq<Element>, fs: seq<Field>)
    requires ModulesOk(SaveModule(ms, name, es)) && DistinctNames(ms) && DistinctElementNames(es)
    ensures ModuleData(StoreBytes(SaveModule(ms, name, es)), name, fs) ==
              Ok(seq(|fs|, k requires 0 <= k < |fs| => SavedValue(ms, name, es, fs[k])))
  {
    var saved := SaveModule(ms, name, es);
    ModuleDataInStore(saved, name, fs);
    SaveModuleReadBack(ms, name, es, fs);
    assert ModuleFields(saved, name, fs) == seq(|fs|, k requires 0 <= k < |fs| => SavedValue(ms, name, es, fs[k]));
  }

  // ---------------------------------------------------------------- cleanModules on a store

  /** One step of cleanModules at a module whose header and footer check out. */
  lemma {:induction false} CleanStep(s: seq<u8>, keep: seq<u64>)
    requires Closed(s, 0)
    ensures var L := HeaderAt(s, 0).size;
            Clean(s, keep) ==
              if HeaderAt(s, 0).name !in keep then Clean(s[L..], keep)
              else Cleaned(Clean(s[L..], keep).outcome, s[..L] + Clean(s[L..], keep).bytes)
  {
  }

  /** cleanModules over a module followed by anything: drop or keep that module, then go on. */
  lemma {:induction false} CleanCons(m: Module, rest: seq<u8>, keep: seq<u64>)
    requires ModuleOk(m)
    ensures Clean(ModuleBytes(m) + rest, keep) ==
              if m.name !in keep then Clean(rest, keep)
              else Cleaned(Clean(rest, keep).outcome, ModuleBytes(m) + Clean(rest, keep).bytes)
  {
    var mb := ModuleBytes(m);
    var s := mb + rest;
    ModuleInConcat(s, [], m, rest);
    ModuleInHeader(s, 0, m);
    CleanStep(s, keep);
    assert s[..|mb|] == mb && s[|mb|..] == rest;
  }

  /** cleanModules on a well-formed store keeps exactly the listed modules, in
      order, and completes without error. */
  lemma {:induction false} CleanStore(ms: seq<Module>, keep: seq<u64>)
    requires ModulesOk(ms)
    ensures ModulesOk(Retain(ms, keep))
    ensures Clean(StoreBytes(ms), keep) == Cleaned(Ok(()), StoreBytes(Retain(ms, keep)))
  {
    if ms != [] {
      var m, tail := ms[0], ms[1..];
      assert m in ms;
      assert StoreBytes(ms) == ModuleBytes(m) + StoreBytes(tail);
      CleanCons(m, StoreBytes(tail), keep);
      CleanStore(tail, keep);
      if m.name in keep {
        var r := Retain(ms, keep);
        assert r[0] == m && r[1..] == Retain(tail, keep);
      }
    }
  }
  /** cleanModules at a module it does not list, of any size from 1 up that
      ends inside s: the module is skipped. */
  lemma {:induction false} CleanDropAt(s: seq<u8>, pos: nat, keep: seq<u64>, h: Header)
    requires pos + HeaderSize <= |s| && h == HeaderAt(s, pos) && h.name !in keep
    requires 0 < h.size && pos + h.size <= |s|
    ensures Clean(s[pos..], keep) == Clean(s[pos + h.size..], keep)
  {
    var t := s[pos..];
    HeaderShift(s, pos);
    assert t[h.size..] == s[pos + h.size..];
  }

  /** A module not listed that is a bare 16-byte header, with no footer, is
      deleted like any other and the pass ends without error. */
  lemma {:induction false} CleanDropsBareHeader(h: Header, keep: seq<u64>)
    requires h.name !in keep && h.size == HeaderSize
    ensures Clean(EncodeHeader(h), keep) == Cleaned(Ok(()), [])
  {
    var s := EncodeHeader(h);
    assert s[0..HeaderSize] == s;
    HeaderOfBytes(s, 0, h);
    assert s[h.size..] == [];
  }

  /** cleanModules at a listed module with its footer: the module is kept in front of the rest. */
  lemma {:induction false} CleanKeepAt(s: seq<u8>, pos: nat, keep: seq<u64>, h: Header, next: nat)
    requires Framed(s, pos) && h == HeaderAt(s, pos) && h.name in keep && FooterAt(s, pos + h.size - FooterSize)
    requires next == pos + h.size
    ensures pos <= next <= |s|
    ensures Clean(s[pos..], keep) == Cleaned(Clean(s[next..], keep).outcome, s[pos..next] + Clean(s[next..], keep).bytes)
  {
    var t := s[pos..];
    HeaderShift(s, pos);
    FooterShift(s, pos, h.size - FooterSize);
    CleanStep(t, keep);
    assert t[h.size..] == s[next..] && t[..h.size] == s[pos..next];
  }

  /** The header at p is the header at the front of what follows p. */
  lemma {:induction false} HeaderShift(s: seq<u8>, p: nat)
    requires p + HeaderSize <= |s|
    ensures HeaderAt(s[p..], 0) == HeaderAt(s, p)
  {
    var t := s[p..];
    WordAtSlice(s, p);
    WordAtSlice(s, p + WordBytes);
    WordAtSlice(t, 0);
    WordAtSlice(t, WordBytes);
    assert t[0..WordBytes] == s[p..p + WordBytes];
    assert t[WordBytes..2 * WordBytes] == s[p + WordBytes..p + 2 * WordBytes];
  }

  /** cleanModules where it is blocked: it stops there. */
  lemma {:induction false} CleanBlockedAt(s: seq<u8>, pos: nat, keep: seq<u64>)
    requires pos < |s| && Blocked(s, pos, keep)
    ensures Clean(s[pos..], keep) == Cleaned(Err(Corrupted), s[pos..])
  {
    if pos + HeaderSize <= |s| {
      var h := HeaderAt(s, pos);
      HeaderShift(s, pos);
      if h.name in keep && Framed(s, pos) {
        FooterShift(s, pos, h.size - FooterSize);
      }
    }
  }
}
