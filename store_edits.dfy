/** What the store's writes do to the decoded view: appending a module's bytes
    appends the module, closing the gap a module leaves deletes it, writing a
    value's bytes in place replaces that value, and a module rebuilt with more
    elements is the module with those elements appended. */
module StoreEdits {
  import opened Words
  import opened Layout
  import opened Footers
  import opened Records
  import opened Scan
  import opened StoreFacts

  /** addModule: a module's bytes after the store are the store with that module last. */
  lemma {:induction false} StoreAppend(ms: seq<Module>, m: Module)
    requires ModulesOk(ms) && ModuleOk(m)
    ensures ModulesOk(ms + [m])
    ensures StoreBytes(ms + [m]) == StoreBytes(ms) + ModuleBytes(m)
  {
    assert ModulesOk([m]);
    StoreBytesConcat(ms, [m]);
    assert [m][1..] == [];
  }

  /** deleteModule: cutting module i's bytes out of the store gives the store without it. */
  lemma {:induction false} StoreDelete(ms: seq<Module>, i: nat)
    requires ModulesOk(ms) && i < |ms|
    ensures ModulesOk(Without(ms, i))
    ensures ModuleOffset(ms, i) + ModuleSize(ms[i]) <= |StoreBytes(ms)|
    ensures var s, o := StoreBytes(ms), ModuleOffset(ms, i);
            s[..o] + s[o + ModuleSize(ms[i])..] == StoreBytes(Without(ms, i))
  {
    var x, y, z := StoreBytes(ms[..i]), ModuleBytes(ms[i]), StoreBytes(ms[i + 1..]);
    StoreSplitBytes(ms, i);
    StoreLength(ms[..i]);
    SpliceOut(x, y, z);
    StoreBytesConcat(ms[..i], ms[i + 1..]);
  }

  /** Module i replaced by m: the store's bytes with m's bytes in place of module i's. */
  lemma {:induction false} StoreReplace(ms: seq<Module>, i: nat, m: Module)
    requires ModulesOk(ms) && i < |ms| && ModuleOk(m)
    ensures ModulesOk(ms[i := m])
    ensures ModuleOffset(ms, i) + ModuleSize(ms[i]) <= |StoreBytes(ms)|
    ensures var s, o := StoreBytes(ms), ModuleOffset(ms, i);
            s[..o] + ModuleBytes(m) + s[o + ModuleSize(ms[i])..] == StoreBytes(ms[i := m])
  {
    var ms' := ms[i := m];
    forall x | x in ms'
      ensures ModuleOk(x)
    {
      var k :| 0 <= k < |ms'| && ms'[k] == x;
      if k != i {
        assert ms[k] in ms;
      }
    }
    assert ms'[..i] == ms[..i] && ms'[i + 1..] == ms[i + 1..];
    var x, y, z := StoreBytes(ms[..i]), ModuleBytes(ms[i]), StoreBytes(ms[i + 1..]);
    StoreSplitBytes(ms, i);
    StoreSplitBytes(ms', i);
    StoreLength(ms[..i]);
    Slice3(x, y, z);
  }

  /** Replacing values keeps every element's kind, so the payload keeps its size. */
  lemma {:induction false} PayloadSizeSameKinds(es: seq<Element>, es': seq<Element>)
    requires |es| == |es'|
    requires forall j :: 0 <= j < |es| ==> es[j].kind == es'[j].kind
    ensures PayloadSize(es) == PayloadSize(es')
  {
    if es != [] {
      PayloadSizeSameKinds(es[1..], es'[1..]);
    }
  }

  /** setElementValue on a present field: the module with element j's value
      replaced is the module's bytes with the value's bytes written over, right
      after element j's tag. */
  lemma {:induction false} ModuleValueBytes(m: Module, j: nat, v: seq<u8>)
    requires ModuleOk(m) && j < |m.elements| && |v| == Width(m.elements[j].kind)
    ensures ModuleOk(WithValue(m, j, v)) && ModuleSize(WithValue(m, j, v)) == ModuleSize(m)
    ensures var q := HeaderSize + ElementOffset(m.elements, j) + TagSize;
            q + |v| <= ModuleSize(m) && ModuleBytes(WithValue(m, j, v)) == Overwrite(ModuleBytes(m), q, v)
  {
    var es := m.elements;
    var e := es[j];
    var m' := WithValue(m, j, v);
    var es' := m'.elements;
    assert e in es;
    forall x | x in es'
      ensures ElementOk(x)
    {
      var k :| 0 <= k < |es'| && es'[k] == x;
      if k != j {
        assert es[k] in es;
      }
    }
    PayloadSizeSameKinds(es, es');
    var hb := EncodeHeader(Header(m.name, ModuleSize(m)));
    var a, c := ElementsBytes(es[..j]), ElementsBytes(es[j + 1..]);
    var tb := EncodeTag(Tag(e.name, TypeId(e.kind)));
    PayloadSplit(es, j);
    PayloadSplit(es', j);
    assert es'[..j] == es[..j] && es'[j + 1..] == es[j + 1..];
    PayloadLength(es[..j]);
    ModuleParts(m);
    ModuleParts(m');
    Regroup(hb, a, tb, e.value, c, Sentinel);
    Regroup(hb, a, tb, v, c, Sentinel);
    OverwriteMiddle(hb + a + tb, e.value, c + Sentinel, v);
  }

  /** addElements as intended: the module with elements appended is its header
      with the new size, its old payload, the new elements, and the footer. */
  lemma {:induction false} GrowBytes(m: Module, es: seq<Element>)
    requires ModuleOk(m) && ElementsOk(es) && ModuleSize(m) + PayloadSize(es) < WordLimit
    ensures ModuleOk(WithElements(m, es))
    ensures ModuleSize(WithElements(m, es)) == ModuleSize(m) + PayloadSize(es)
    ensures var mb, L := ModuleBytes(m), ModuleSize(m);
            ModuleBytes(WithElements(m, es)) ==
              EncodeHeader(Header(m.name, L + PayloadSize(es))) + mb[HeaderSize..L - FooterSize] + ElementsBytes(es) + Sentinel
  {
    var m' := WithElements(m, es);
    ElementsBytesConcat(m.elements, es);
    var hb := EncodeHeader(Header(m.name, ModuleSize(m)));
    var pb := ElementsBytes(m.elements);
    var eb := ElementsBytes(es);
    ModuleParts(m);
    Slice3(hb, pb, Sentinel);
    assert ModuleBytes(m)[HeaderSize..ModuleSize(m) - FooterSize] == pb;
    ModuleParts(m');
    Assoc(EncodeHeader(Header(m.name, ModuleSize(m'))), pb, eb);
  }

  /** The steps of createModule and addElements on a scratch module of n
      bytes: the header written over the start, the elements written after the
      bytes `mid` already there, and the footer over the last four bytes. */
  lemma {:induction false} Assemble(b: seq<u8>, hb: seq<u8>, mid: seq<u8>, eb: seq<u8>)
    requires |b| == |hb| + |mid| + |eb| + FooterSize && b[|hb|..|hb| + |mid|] == mid
    ensures var b1, o := Overwrite(b, 0, hb), |hb| + |mid|;
            && o + |eb| <= |b1|
            && WriteFooter(b1[..o] + eb + b1[o + |eb|..], |b| - FooterSize) == hb + mid + eb + Sentinel
  {
    var b1, o := Overwrite(b, 0, hb), |hb| + |mid|;
    assert b1 == hb + b[|hb|..];
    assert b1[..o] == hb + mid;
    var b2 := b1[..o] + eb + b1[o + |eb|..];
    assert b2[..|b| - FooterSize] == hb + mid + eb;
  }

  /** setElementValue on a present field, on the whole store: the value's
      bytes written after element j's tag in module i give the store of the
      modules with that value replaced. */
  lemma {:induction false} SetPresentBytes(ms: seq<Module>, i: nat, j: nat, v: seq<u8>, q: nat)
    requires ModulesOk(ms) && i < |ms| && j < |ms[i].elements| && |v| == Width(ms[i].elements[j].kind)
    requires q == ModuleOffset(ms, i) + HeaderSize + ElementOffset(ms[i].elements, j) + TagSize
    ensures q + |v| <= |StoreBytes(ms)|
    ensures ModulesOk(ms[i := WithValue(ms[i], j, v)])
    ensures Overwrite(StoreBytes(ms), q, v) == StoreBytes(ms[i := WithValue(ms[i], j, v)])
  {
    ModuleValueBytes(ms[i], j, v);
    StoreReplace(ms, i, ms[i]);
    assert ms[i := ms[i]] == ms;
    StoreReplace(ms, i, WithValue(ms[i], j, v));
    OverwritePart(StoreBytes(ms), ModuleOffset(ms, i), StoreBytes(ms)[..ModuleOffset(ms, i)], ModuleBytes(ms[i]),
      StoreBytes(ms)[ModuleOffset(ms, i) + ModuleSize(ms[i])..], HeaderSize + ElementOffset(ms[i].elements, j) + TagSize, q, v,
      ModuleBytes(WithValue(ms[i], j, v)), StoreBytes(ms[i := WithValue(ms[i], j, v)]));
  }

  /** The store s after addElements, as intended, on the module of L bytes at
      o: the module cut out and put back last, with the grown size in its
      header, its old payload, the new elements and the footer. */
  ghost function Regrown(s: seq<u8>, o: nat, L: nat, name: u64, es: seq<Element>): seq<u8>
    requires o + L <= |s| && HeaderSize + FooterSize <= L && L + PayloadSize(es) < WordLimit
  {
    s[..o] + s[o + L..]
      + (EncodeHeader(Header(name, L + PayloadSize(es))) + s[o + HeaderSize..o + L - FooterSize] + ElementsBytes(es) + Sentinel)
  }

  /** Module i's header in the store: its name and its encoded size. */
  lemma {:induction false} ModuleSpan(ms: seq<Module>, i: nat)
    requires ModulesOk(ms) && i < |ms|
    ensures var s, o := StoreBytes(ms), ModuleOffset(ms, i);
            && ModuleSize(ms[i]) < WordLimit
            && o + ModuleSize(ms[i]) <= |s|
            && HeaderAt(s, o) == Header(ms[i].name, ModuleSize(ms[i]))
  {
    assert ms[i] in ms;
    StoreSplit(ms, i);
    ModuleInHeader(StoreBytes(ms), ModuleOffset(ms, i), ms[i]);
  }

  /** After addElements the modules are still well formed and the grown module
      is the last one, starting where the shortened store ends. */
  lemma {:induction false} GrownOk(ms: seq<Module>, i: nat, es: seq<Element>)
    requires ModulesOk(ms) && i < |ms| && ElementsOk(es)
    requires |StoreBytes(ms)| + PayloadSize(es) < WordLimit
    ensures var grown := Without(ms, i) + [WithElements(ms[i], es)];
            && ModulesOk(grown)
            && ModuleOffset(grown, |ms| - 1) == |StoreBytes(ms)| - ModuleSize(ms[i])
  {
    assert ms[i] in ms;
    ElementsBytesConcat(ms[i].elements, es);
    StoreDelete(ms, i);
    StoreAppend(Without(ms, i), WithElements(ms[i], es));
    StoreLength(Without(ms, i));
    assert (Without(ms, i) + [WithElements(ms[i], es)])[..|ms| - 1] == Without(ms, i);
  }

  /** addElements as intended, on the whole store: module i cut out, then put
      back last with the new size in its header, its old payload, the new
      elements and the footer. */
  lemma {:induction false} GrowStore(ms: seq<Module>, i: nat, es: seq<Element>)
    requires ModulesOk(ms) && i < |ms| && ElementsOk(es)
    requires |StoreBytes(ms)| + PayloadSize(es) < WordLimit
    ensures var s, o, L := StoreBytes(ms), ModuleOffset(ms, i), ModuleSize(ms[i]);
            && o + L <= |s|
            && ModulesOk(Without(ms, i) + [WithElements(ms[i], es)])
            && Regrown(s, o, L, ms[i].name, es) == StoreBytes(Without(ms, i) + [WithElements(ms[i], es)])
  {
    RegrownSplit(ms, i, es);
    StoreDelete(ms, i);
    StoreAppend(Without(ms, i), WithElements(ms[i], es));
  }

  /** Regrown is the store with module i cut out, followed by the grown module. */
  lemma {:induction false} RegrownSplit(ms: seq<Module>, i: nat, es: seq<Element>)
    requires ModulesOk(ms) && i < |ms| && ElementsOk(es)
    requires |StoreBytes(ms)| + PayloadSize(es) < WordLimit
    ensures ModuleOffset(ms, i) + ModuleSize(ms[i]) <= |StoreBytes(ms)|
    ensures ModuleOk(WithElements(ms[i], es))
    ensures Regrown(StoreBytes(ms), ModuleOffset(ms, i), ModuleSize(ms[i]), ms[i].name, es)
              == StoreBytes(ms)[..ModuleOffset(ms, i)] + StoreBytes(ms)[ModuleOffset(ms, i) + ModuleSize(ms[i])..]
                 + ModuleBytes(WithElements(ms[i], es))
  {
    PayloadInStore(ms, i);
    RegrownModule(StoreBytes(ms), ModuleOffset(ms, i), ms[i], es);
  }

  /** RegrownSplit for one module m whose bytes sit at o in s. */
  lemma {:induction false} RegrownModule(s: seq<u8>, o: nat, m: Module, es: seq<Element>)
    requires ModuleOk(m) && ElementsOk(es) && o + ModuleSize(m) <= |s| && ModuleSize(m) + PayloadSize(es) < WordLimit
    requires s[o + HeaderSize..o + ModuleSize(m) - FooterSize] == ElementsBytes(m.elements)
    ensures ModuleOk(WithElements(m, es))
    ensures Regrown(s, o, ModuleSize(m), m.name, es) == s[..o] + s[o + ModuleSize(m)..] + ModuleBytes(WithElements(m, es))
  {
    ElementsBytesConcat(m.elements, es);
    ModuleParts(WithElements(m, es));
    RegrownParts(s, o, ModuleSize(m), m.name, es, ElementsBytes(m.elements), ModuleBytes(WithElements(m, es)),
      ModuleSize(WithElements(m, es)), ElementsBytes(WithElements(m, es).elements));
  }

  /** Regrown in terms of the module's payload p and the grown block b:
      header with size n, the payload and the elements q, and the footer. */
  lemma {:induction false} RegrownParts(s: seq<u8>, o: nat, L: nat, name: u64, es: seq<Element>, p: seq<u8>, b: seq<u8>, n: nat, q: seq<u8>)
    requires o + L <= |s| && HeaderSize + FooterSize <= L && L + PayloadSize(es) < WordLimit
    requires s[o + HeaderSize..o + L - FooterSize] == p
    requires n == L + PayloadSize(es) && q == p + ElementsBytes(es)
    requires b == EncodeHeader(Header(name, n)) + q + Sentinel
    ensures Regrown(s, o, L, name, es) == s[..o] + s[o + L..] + b
  {
    Assoc(EncodeHeader(Header(name, L + PayloadSize(es))), p, ElementsBytes(es));
  }


  /** setElementValue on a field module i lacks: the module moves to the end of
      the store grown by the field, which is what addElements writes. */
  lemma {:induction false} AppendFieldStore(ms: seq<Module>, i: nat, e: Element)
    requires ModulesOk(ms) && i < |ms| && ElementOk(e)
    requires |StoreBytes(ms)| + TagSize + Width(e.kind) < WordLimit
    requires FirstElement(ms[i].elements, e.name).None?
    ensures var s, o := StoreBytes(ms), ModuleOffset(ms, i);
            && ElementsOk([e]) && PayloadSize([e]) == TagSize + Width(e.kind)
            && o + HeaderSize <= |s|
            && HeaderSize + FooterSize <= HeaderAt(s, o).size && o + HeaderAt(s, o).size <= |s|
            && ModulesOk(SetField(ms, i, e).0)
            && Regrown(s, o, HeaderAt(s, o).size, HeaderAt(s, o).name, [e]) == StoreBytes(SetField(ms, i, e).0)
            && ModuleOffset(SetField(ms, i, e).0, SetField(ms, i, e).1) == |s| - HeaderAt(s, o).size
  {
    assert [e][1..] == [];
    assert ElementsOk([e]);
    ModuleSpan(ms, i);
    GrowTail(ms, i, [e], StoreBytes(ms), ModuleOffset(ms, i), HeaderAt(StoreBytes(ms), ModuleOffset(ms, i)));
  }

  /** The grown block: the module's bytes copied into a block with room for
      the elements and framed with the new size are the module's part of
      Regrown. */
  lemma {:induction false} GrownBlock(s: seq<u8>, o: nat, L: nat, name: u64, es: seq<Element>, n: nat, b0: seq<u8>, b: seq<u8>)
    requires ElementsOk(es) && o + L <= |s| && HeaderSize + FooterSize <= L && L + PayloadSize(es) < WordLimit
    requires n == L + PayloadSize(es) && b0 == s[o..o + L] + Zeros(n - L)
    requires b == EncodeHeader(Header(name, |b0|)) + b0[HeaderSize..L - FooterSize] + ElementsBytes(es) + Sentinel
    ensures HeaderSize <= |b| && HeaderAt(b, 0).size == |b| == n
    ensures s[..o] + s[o + L..] + b[..HeaderAt(b, 0).size] == Regrown(s, o, L, name, es)
  {
    CopiedPayload(s, o, L, n, b0);
    FramedGrown(s, o, L, name, es, b0, b);
  }

  /** The store after the module is cut out (rest) and the grown block b is
      appended (c) is Regrown. */
  lemma {:induction false} RegrownIs(s: seq<u8>, o: nat, L: nat, name: u64, es: seq<Element>, b: seq<u8>, rest: seq<u8>, c: seq<u8>)
    requires o + L <= |s| && HeaderSize + FooterSize <= L && L + PayloadSize(es) < WordLimit
    requires HeaderSize <= |b| && HeaderAt(b, 0).size <= |b|
    requires s[..o] + s[o + L..] + b[..HeaderAt(b, 0).size] == Regrown(s, o, L, name, es)
    requires rest == s[..o] + s[o + L..] && c == rest + b[..HeaderAt(b, 0).size]
    ensures c == Regrown(s, o, L, name, es)
  {
  }

  /** The module's bytes copied into a larger zeroed block keep its payload
      where it was. */
  lemma {:induction false} CopiedPayload(s: seq<u8>, o: nat, L: nat, n: nat, b0: seq<u8>)
    requires o + L <= |s| && HeaderSize + FooterSize <= L <= n
    requires b0 == s[o..o + L] + Zeros(n - L)
    ensures |b0| == n
    ensures b0[HeaderSize..L - FooterSize] == s[o + HeaderSize..o + L - FooterSize]
  {
    SliceOfFront(s[o..o + L], Zeros(n - L), HeaderSize, L - FooterSize);
    SliceOfSlice(s, o, L, HeaderSize, L - FooterSize);
  }

  /** A block holding the module's payload and the new elements, framed with
      the grown size, is the module's part of Regrown. */
  lemma {:induction false} FramedGrown(s: seq<u8>, o: nat, L: nat, name: u64, es: seq<Element>, b0: seq<u8>, b: seq<u8>)
    requires ElementsOk(es) && o + L <= |s| && HeaderSize + FooterSize <= L && L + PayloadSize(es) < WordLimit
    requires |b0| == L + PayloadSize(es) && b0[HeaderSize..L - FooterSize] == s[o + HeaderSize..o + L - FooterSize]
    requires b == EncodeHeader(Header(name, |b0|)) + b0[HeaderSize..L - FooterSize] + ElementsBytes(es) + Sentinel
    ensures HeaderSize <= |b| && HeaderAt(b, 0).size == |b| == |b0|
    ensures s[..o] + s[o + L..] + b[..HeaderAt(b, 0).size] == Regrown(s, o, L, name, es)
  {
    PayloadLength(es);
    FramedSize(b, Header(name, |b0|), b0[HeaderSize..L - FooterSize] + ElementsBytes(es));
  }

  /** A block that starts with the encoding of a header whose size is the
      block's length and ends with the footer reads back that header. */
  lemma {:induction false} FramedSize(b: seq<u8>, h: Header, body: seq<u8>)
    requires b == EncodeHeader(h) + body + Sentinel && h.size == |b|
    ensures HeaderSize <= |b| && HeaderAt(b, 0) == h && b[..HeaderAt(b, 0).size] == b
  {
    assert b[..HeaderSize] == EncodeHeader(h);
    HeaderOfBytes(b, 0, h);
  }

  /** The store with module i taken out and its grown bytes appended. */
  lemma {:induction false} GrowTail(ms: seq<Module>, i: nat, es: seq<Element>, s: seq<u8>, o: nat, h: Header)
    requires ModulesOk(ms) && i < |ms| && ElementsOk(es) && |s| + PayloadSize(es) < WordLimit
    requires s == StoreBytes(ms) && o == ModuleOffset(ms, i)
    requires h.name == ms[i].name && h.size == ModuleSize(ms[i]) && o + h.size <= |s|
    ensures HeaderSize + FooterSize <= h.size
    ensures var grown := Without(ms, i) + [WithElements(ms[i], es)];
            && ModulesOk(grown)
            && Regrown(s, o, h.size, h.name, es) == StoreBytes(grown)
            && ModuleOffset(grown, |ms| - 1) == |s| - h.size
  {
    GrowStore(ms, i, es);
    GrownOk(ms, i, es);
  }

  /** The bytes between module i's header and footer in the store are its elements' bytes. */
  lemma {:induction false} PayloadInStore(ms: seq<Module>, i: nat)
    requires ModulesOk(ms) && i < |ms|
    ensures var s, o, L := StoreBytes(ms), ModuleOffset(ms, i), ModuleSize(ms[i]);
            && ModuleOk(ms[i]) && o + L <= |s|
            && s[o + HeaderSize..o + L - FooterSize] == ElementsBytes(ms[i].elements)
  {
    StoreSplit(ms, i);
    PayloadIn(StoreBytes(ms), ModuleOffset(ms, i), ms[i]);
  }
}
