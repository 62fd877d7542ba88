/** The Config class of ClassSerializer/Config.h: the loaded store (`buffer`,
    of which the first `size` bytes are in use) and the operations that scan
    and rewrite it in place. Every read is proved to compute the byte-level
    function of Scan, and every write is proved to leave the bytes of the
    decoded view's update (Records) when the store is well formed. Where the
    source's code departs from what it evidently means, the method follows the
    intent and the comment on it says how the source differs. */
module ConfigStore {
  import opened Words
  import opened Results
  import opened Layout
  import opened Footers
  import opened Records
  import opened Scan
  import opened StoreFacts
  import opened StoreEdits

  /** addElementInternal: the elements written back to back from `at`, each as
      its tag followed by its value bytes (Element<T>::write). */
  method WriteElements(buf: seq<u8>, at: nat, es: seq<Element>) returns (r: seq<u8>)
    requires ElementsOk(es) && at + PayloadSize(es) <= |buf|
    ensures |r| == |buf|
    ensures r == buf[..at] + ElementsBytes(es) + buf[at + PayloadSize(es)..]
  {
    r := buf;
    var pos := at;
    var k := 0;
    while k < |es|
      invariant k <= |es| && pos == at + ElementOffset(es, k)
      invariant ElementOffset(es, k) <= PayloadSize(es)
      invariant r == buf[..at] + ElementsBytes(es[..k]) + buf[pos..]
    {
      var e := es[k];
      ElementOffsetNext(es, k);
      WriteStep(buf, at, es, k, r, pos);
      r := Overwrite(r, pos, ElementBytes(e));
      pos := pos + TagSize + Width(e.kind);
      k := k + 1;
    }
    assert es[..k] == es;
    PayloadLength(es);
  }

  /** One element of addElementInternal: writing it over the untouched bytes
      extends the written prefix by that element. */
  lemma {:induction false} WriteStep(buf: seq<u8>, at: nat, es: seq<Element>, k: nat, r: seq<u8>, pos: nat)
    requires ElementsOk(es) && k < |es| && pos == at + ElementOffset(es, k)
    requires ElementOffset(es, k + 1) <= PayloadSize(es) && at + PayloadSize(es) <= |buf|
    requires ElementOffset(es, k + 1) == ElementOffset(es, k) + TagSize + Width(es[k].kind)
    requires r == buf[..at] + ElementsBytes(es[..k]) + buf[pos..]
    ensures pos + |ElementBytes(es[k])| <= |r|
    ensures Overwrite(r, pos, ElementBytes(es[k])) ==
              buf[..at] + ElementsBytes(es[..k + 1]) + buf[at + ElementOffset(es, k + 1)..]
  {
    PrefixBytesNext(es, k);
    var head, done, v, rest := buf[..at], ElementsBytes(es[..k]), ElementBytes(es[k]), buf[pos..];
    OverwriteAfter(head + done, rest, v);
    assert rest[|v|..] == buf[at + ElementOffset(es, k + 1)..];
    Assoc(head, done, v);
  }

  /** The bytes of the first k + 1 elements are those of the first k followed
      by element k, which starts at ElementOffset(es, k). */
  lemma {:induction false} PrefixBytesNext(es: seq<Element>, k: nat)
    requires ElementsOk(es) && k < |es|
    ensures ElementsBytes(es[..k + 1]) == ElementsBytes(es[..k]) + ElementBytes(es[k])
    ensures |ElementsBytes(es[..k])| == ElementOffset(es, k)
    ensures |ElementsBytes(es[..k + 1])| == ElementOffset(es, k + 1)
  {
    assert es[k] in es;
    assert es[..k] + [es[k]] == es[..k + 1];
    ElementsBytesConcat(es[..k], [es[k]]);
    assert [es[k]][1..] == [];
    PayloadLength(es[..k]);
    PayloadLength(es[..k + 1]);
  }

  /** The common tail of createModule and addElements on a scratch block:
      the header with the block's size over the first bytes, the elements
      written from `at` on (addElementInternal), the footer in the last four
      bytes. What lies between the header and `at` is kept. */
  method FrameBlock(b: seq<u8>, name: u64, at: nat, es: seq<Element>) returns (r: seq<u8>)
    requires HeaderSize <= at && ElementsOk(es) && |b| == at + PayloadSize(es) + FooterSize && |b| < WordLimit
    ensures r == EncodeHeader(Header(name, |b|)) + b[HeaderSize..at] + ElementsBytes(es) + Sentinel
  {
    PayloadLength(es);
    var hb := EncodeHeader(Header(name, |b|));
    r := Overwrite(b, 0, hb);
    r := WriteElements(r, at, es);
    r := WriteFooter(r, |b| - FooterSize);
    Assemble(b, hb, b[HeaderSize..at], ElementsBytes(es));
  }

  class Config {
    /** The allocation; only its first `size` bytes are the store. */
    var buffer: seq<u8>
    var size: nat

    ghost predicate Valid()
      reads this
    {
      size <= |buffer|
    }

    /** The store: the bytes in use. */
    function Contents(): (c: seq<u8>)
      reads this
      requires Valid()
      ensures |c| == size
    {
      buffer[..size]
    }

    /** Config(filename): the store is the file's bytes (reading the file is not modelled). */
    constructor (file: seq<u8>)
      ensures Valid() && Contents() == file && |buffer| == size
    {
      buffer := file;
      size := |file|;
    }

    // -------------------------------------------------------------- getModule

    /** getModule: scan the modules from the start of the buffer; return the
        first whose header has the name, absent at the end of the store, and
        Corrupted when a module skipped over has no footer where its header
        says (or a header or module would reach past the store). */
    method GetModule(name: u64) returns (r: Result<Option<nat>>)
      requires Valid()
      ensures r == FindModule(Contents(), name)
    {
      var s := buffer[..size];
      var pos := 0;
      while pos < size
        invariant FindModuleFrom(s, pos, name) == FindModule(s, name)
        decreases size - pos
      {
        if pos + HeaderSize > size {
          return Err(Corrupted);
        }
        var header := HeaderAt(s, pos);
        if header.name == name {
          return Ok(Some(pos));
        }
        if header.size < MinModuleSize || pos + header.size > size
           || !FooterAt(s, pos + header.size - FooterSize) {
          return Err(Corrupted);
        }
        pos := pos + header.size;
      }
      return Ok(None);
    }

    // -------------------------------------------------------------- getElementAddress

    /** getElementAddress: from just after the module's header, step over each
        element (its tag and the width its type id stands for) until one has
        the name or the cursor reaches the footer's place; there the footer
        must be. The source's unsigned `header.size - Footer::size()` wraps for
        sizes under 4; here that is Corrupted. */
    method GetElementAddress(mod: nat, name: u64) returns (r: Result<Option<nat>>)
      requires Valid() && mod + HeaderSize <= size
      ensures r == FindElement(Contents(), mod, name)
    {
      var s := buffer[..size];
      var header := HeaderAt(s, mod);
      if header.size < FooterSize {
        return Err(Corrupted);
      }
      var last := mod + header.size - FooterSize;
      var pos := mod + HeaderSize;
      while pos < last
        invariant FindElementFrom(s, last, pos, name) == FindElement(s, mod, name)
        decreases |s| - pos
      {
        if pos + TagSize > size {
          return Err(Corrupted);
        }
        var tag := TagAt(s, pos);
        if tag.name == name {
          return Ok(Some(pos));
        }
        var width := SizeOfType(tag.typeId);
        if width.Err? {
          return Err(width.error);
        }
        pos := pos + TagSize + width.value;
      }
      if FooterAt(s, pos) {
        return Ok(None);
      }
      return Err(Corrupted);
    }

    // -------------------------------------------------------------- Reads

    /** getElementValue<T>: the value bytes after the element's tag, or `T()`
        (zero bytes) when the module has no element with the name. */
    method GetElementValue(mod: nat, name: u64, k: Kind) returns (r: Result<seq<u8>>)
      requires Valid() && mod + HeaderSize <= size
      ensures r == ElementValue(Contents(), mod, name, k)
    {
      var s := Contents();
      var pos := GetElementAddress(mod, name);
      match pos
      case Err(e) => return Err(e);
      case Ok(None) => return Ok(DefaultValue(k));
      case Ok(Some(p)) =>
        if p + TagSize + Width(k) > size {
          return Err(Corrupted);
        }
        return Ok(s[p + TagSize..p + TagSize + Width(k)]);
    }

    /** getElementsValues: the requested fields read one after the other. */
    method GetElementsValues(mod: nat, fields: seq<Field>) returns (r: Result<seq<seq<u8>>>)
      requires Valid() && mod + HeaderSize <= size
      ensures r == ElementValues(Contents(), mod, fields)
    {
      var s := Contents();
      var values: seq<seq<u8>> := [];
      var i := 0;
      assert fields[i..] == fields;
      PrefixedNone(ElementValues(s, mod, fields));
      while i < |fields|
        invariant i <= |fields|
        invariant ElementValues(s, mod, fields) == Prefixed(values, ElementValues(s, mod, fields[i..]))
      {
        assert fields[i..][0] == fields[i] && fields[i..][1..] == fields[i + 1..];
        var v := GetElementValue(mod, fields[i].name, fields[i].kind);
        if v.Err? {
          return Err(v.error);
        }
        PrefixedStep(values, v.value, ElementValues(s, mod, fields[i + 1..]));
        values := values + [v.value];
        i := i + 1;
      }
      assert fields[i..] == [] && values + [] == values;
      return Ok(values);
    }

    /** getModuleData: the module's fields, or every field's default when the
        store has no module with the name. */
    method GetModuleData(name: u64, fields: seq<Field>) returns (r: Result<seq<seq<u8>>>)
      requires Valid()
      ensures r == ModuleData(Contents(), name, fields)
    {
      var mod := GetModule(name);
      match mod
      case Err(e) => return Err(e);
      case Ok(Some(p)) =>
        r := GetElementsValues(p, fields);
      case Ok(None) =>
        return Ok(seq(|fields|, i requires 0 <= i < |fields| => DefaultValue(fields[i].kind)));
    }

    // -------------------------------------------------------------- Moving modules

    /** copyModule(module): a fresh block holding the module's bytes, as many
        as its header says. */
    method CopyModule(mod: nat) returns (r: seq<u8>)
      requires Valid() && mod + HeaderSize <= size && mod + HeaderAt(Contents(), mod).size <= size
      ensures r == Contents()[mod..mod + HeaderAt(Contents(), mod).size]
      ensures forall m :: ModuleIn(Contents(), mod, m) ==> r == ModuleBytes(m)
    {
      var s := Contents();
      r := s[mod..mod + HeaderAt(s, mod).size];
      forall m | ModuleIn(s, mod, m)
        ensures r == ModuleBytes(m)
      {
        ModuleInHeader(s, mod, m);
      }
    }

    /** copyModule(module, size): a block of n bytes starting with the module's
        bytes. The rest of a malloc'd block is indeterminate; here it is zero,
        and Assemble shows that every byte of it is overwritten before use. */
    method CopyModuleSized(mod: nat, n: nat) returns (r: seq<u8>)
      requires Valid() && mod + HeaderSize <= size && mod + HeaderAt(Contents(), mod).size <= size
      requires HeaderAt(Contents(), mod).size <= n
      ensures |r| == n
      ensures r == Contents()[mod..mod + HeaderAt(Contents(), mod).size] + Zeros(n - HeaderAt(Contents(), mod).size)
    {
      var s := Contents();
      var L := HeaderAt(s, mod).size;
      r := s[mod..mod + L] + Zeros(n - L);
    }

    /** addModule: grow the buffer by the module's size (taken from the
        header at the front of the block) and copy the module to the end;
        returns where it now starts. */
    method AddModule(block: seq<u8>) returns (at: nat)
      requires Valid() && HeaderSize <= |block| && HeaderAt(block, 0).size <= |block|
      modifies this
      ensures Valid() && buffer == Contents()
      ensures at == old(size)
      ensures Contents() == old(Contents()) + block[..HeaderAt(block, 0).size]
    {
      var L := HeaderAt(block, 0).size;
      at := size;
      buffer := buffer[..size] + block[..L];
      size := size + L;
    }

    /** deleteModule: move everything after the module down over it and
        shrink the store by the module's size. The allocation keeps its
        length; the bytes past the new end are left as they were. The source
        passes the module's address where its offset in the buffer is meant
        as the move's length (see Findings); this moves the bytes up to the
        store's end. */
    method DeleteModule(mod: nat)
      requires Valid() && mod + HeaderSize <= size && mod + HeaderAt(Contents(), mod).size <= size
      modifies this
      ensures Valid() && |buffer| == old(|buffer|)
      ensures size == old(size) - old(HeaderAt(Contents(), mod).size)
      ensures Contents() == old(Contents()[..mod] + Contents()[mod + HeaderAt(Contents(), mod).size..])
    {
      var s := Contents();
      var L := HeaderAt(s, mod).size;
      buffer := buffer[..mod] + buffer[mod + L..size] + buffer[size - L..];
      size := size - L;
      assert buffer[..size] == s[..mod] + s[mod + L..];
    }

    // -------------------------------------------------------------- Building modules

    /** createModule: lay the module out in a scratch block (header with the
        total size, the elements back to back, the footer in the last four
        bytes) and append it to the store; returns where it starts. */
    method CreateModule(name: u64, es: seq<Element>) returns (at: nat)
      requires Valid() && ElementsOk(es) && size + MinModuleSize + PayloadSize(es) < WordLimit
      modifies this
      ensures Valid() && buffer == Contents() && at == old(size)
      ensures ModuleOk(Module(name, es))
      ensures Contents() == old(Contents()) + ModuleBytes(Module(name, es))
    {
      var L := HeaderSize + FooterSize + PayloadSize(es);
      var block := Zeros(L);
      block := FrameBlock(block, name, HeaderSize, es);
      ModuleParts(Module(name, es));
      assert block == ModuleBytes(Module(name, es));
      ModuleInHeader(block, 0, Module(name, es));
      assert block[..L] == block;
      at := AddModule(block);
    }

    /** addElements, as intended: copy the module into a block grown by the
        new elements, delete it from the store, rewrite its header with the
        new size, write the elements where the old footer was, put the footer
        at the new end and append the block; returns where the module now
        starts. The source skips the header rewrite, writes the elements after
        the old footer and shrinks the buffer to the module's size before
        appending (see Findings). */
    method AddElements(mod: nat, es: seq<Element>) returns (at: nat)
      requires Valid() && ElementsOk(es) && mod + HeaderSize <= size
      requires HeaderSize + FooterSize <= HeaderAt(Contents(), mod).size && mod + HeaderAt(Contents(), mod).size <= size
      requires size + PayloadSize(es) < WordLimit
      modifies this
      ensures Valid() && buffer == Contents()
      ensures var h := old(HeaderAt(Contents(), mod));
              && Contents() == Regrown(old(Contents()), mod, h.size, h.name, es)
              && size == old(size) + PayloadSize(es)
              && at == old(size) - h.size
    {
      var s := Contents();
      var header := HeaderAt(s, mod);
      var n := header.size + PayloadSize(es);
      var block := CopyModuleSized(mod, n);
      DeleteModule(mod);
      ghost var rest, copied := Contents(), block;
      block := FrameBlock(block, header.name, header.size - FooterSize, es);
      GrownBlock(s, mod, header.size, header.name, es, n, copied, block);
      at := AddModule(block);
      RegrownIs(s, mod, header.size, header.name, es, block, rest, Contents());
    }

    // -------------------------------------------------------------- Writes

    /** setElementValue: overwrite the field's value in place when the module
        has it; otherwise append it with addElements, which moves the module
        to the end of the store. Returns where the module now starts. The
        source then also writes the value through the null address it got
        back (see Findings). */
    method SetElementValue(mod: nat, e: Element, ghost ms: seq<Module>, ghost i: nat) returns (at: nat)
      requires Valid() && ModulesOk(ms) && i < |ms| && Contents() == StoreBytes(ms) && mod == ModuleOffset(ms, i)
      requires ElementOk(e) && size + TagSize + Width(e.kind) < WordLimit
      modifies this
      ensures Valid() && size <= old(size) + TagSize + Width(e.kind)
      ensures ModulesOk(SetField(ms, i, e).0)
      ensures Contents() == StoreBytes(SetField(ms, i, e).0)
      ensures at == ModuleOffset(SetField(ms, i, e).0, SetField(ms, i, e).1)
    {
      StoreSplit(ms, i);
      FindElementInModule(Contents(), mod, ms[i], e.name);
      var pos := GetElementAddress(mod, e.name);
      match pos
      case Err(_) =>
        assert false;
        at := mod;
      case Ok(None) =>
        at := AppendValue(mod, e, ms, i);
      case Ok(Some(p)) =>
        OverwriteValue(p, e, ms, i, FirstElement(ms[i].elements, e.name).value);
        at := mod;
    }

    /** setElementValue on a module that has the field: the value's bytes
        written over the old ones, right after the field's tag at p. */
    method OverwriteValue(p: nat, e: Element, ghost ms: seq<Module>, ghost i: nat, ghost j: nat)
      requires Valid() && ModulesOk(ms) && i < |ms| && Contents() == StoreBytes(ms)
      requires FirstElement(ms[i].elements, e.name) == Some(j) && ElementOk(e)
      requires p == ModuleOffset(ms, i) + HeaderSize + ElementOffset(ms[i].elements, j)
      modifies this
      ensures Valid() && size == old(size)
      ensures ModulesOk(SetField(ms, i, e).0) && Contents() == StoreBytes(SetField(ms, i, e).0)
      ensures ModuleOffset(SetField(ms, i, e).0, SetField(ms, i, e).1) == ModuleOffset(ms, i)
    {
      SetPresentBytes(ms, i, j, e.value, p + TagSize);
      OverwritePrefix(buffer, size, p + TagSize, e.value);
      buffer := Overwrite(buffer, p + TagSize, e.value);
      assert ms[i := WithValue(ms[i], j, e.value)][..i] == ms[..i];
    }

    /** setElementValue on a module without the field: addElements with it. */
    method AppendValue(mod: nat, e: Element, ghost ms: seq<Module>, ghost i: nat) returns (at: nat)
      requires Valid() && ModulesOk(ms) && i < |ms| && Contents() == StoreBytes(ms) && mod == ModuleOffset(ms, i)
      requires FirstElement(ms[i].elements, e.name).None? && ElementOk(e)
      requires size + TagSize + Width(e.kind) < WordLimit
      modifies this
      ensures Valid() && size == old(size) + TagSize + Width(e.kind)
      ensures ModulesOk(SetField(ms, i, e).0) && Contents() == StoreBytes(SetField(ms, i, e).0)
      ensures at == ModuleOffset(SetField(ms, i, e).0, SetField(ms, i, e).1)
    {
      AppendFieldStore(ms, i, e);
      at := AddElements(mod, [e]);
    }

    /** setElementsValues: the fields set one after the other, each on the
        module where the previous one left it. The source keeps using the
        module's first address, which is stale once a field was appended
        (see Findings). */
    method SetElementsValues(mod: nat, es: seq<Element>, ghost ms: seq<Module>, ghost i: nat) returns (at: nat)
      requires Valid() && ModulesOk(ms) && i < |ms| && Contents() == StoreBytes(ms) && mod == ModuleOffset(ms, i)
      requires ElementsOk(es) && size + PayloadSize(es) < WordLimit
      modifies this
      ensures Valid()
      ensures ModulesOk(SetFields(ms, i, es).0)
      ensures Contents() == StoreBytes(SetFields(ms, i, es).0)
      ensures at == ModuleOffset(SetFields(ms, i, es).0, SetFields(ms, i, es).1)
    {
      at := mod;
      ghost var cur: seq<Module>, ci: nat := ms, i;
      var k := 0;
      assert es[k..] == es;
      while k < |es|
        invariant Valid() && k <= |es| && ModulesOk(cur) && ci < |cur|
        invariant Contents() == StoreBytes(cur) && at == ModuleOffset(cur, ci)
        invariant SetFields(cur, ci, es[k..]) == SetFields(ms, i, es)
        invariant size + PayloadSize(es[k..]) < WordLimit
      {
        var e := es[k];
        assert es[k..][0] == e && es[k..][1..] == es[k + 1..];
        assert e in es;
        at := SetElementValue(at, e, cur, ci);
        cur, ci := SetField(cur, ci, e).0, SetField(cur, ci, e).1;
        k := k + 1;
      }
      assert es[k..] == [];
    }

    /** saveModule: write the fields into the first module with the name, or
        create the module when the store has none. getModule's exception on a
        corrupted store is the error result, with the store left as it was. */
    method SaveModule(name: u64, es: seq<Element>) returns (r: Result<()>)
      requires Valid() && ElementsOk(es)
      requires size + MinModuleSize + PayloadSize(es) < WordLimit
      requires FindModule(Contents(), name).Ok? && FindModule(Contents(), name).value.Some? ==> WellFormed(Contents())
      modifies this
      ensures Valid()
      ensures old(FindModule(Contents(), name)).Err? ==>
                r == Err(old(FindModule(Contents(), name)).error) && Contents() == old(Contents())
      ensures old(FindModule(Contents(), name)) == Ok(None) ==>
                r == Ok(()) && Contents() == old(Contents()) + ModuleBytes(Module(name, es))
      ensures old(WellFormed(Contents())) ==>
                && r == Ok(()) && WellFormed(Contents())
                && ModulesOk(Records.SaveModule(old(ParseStore(Contents()).value), name, es))
                && Contents() == StoreBytes(Records.SaveModule(old(ParseStore(Contents()).value), name, es))
    {
      ghost var wf := WellFormed(Contents());
      ghost var ms := if wf then ParseStore(Contents()).value else [];
      if wf {
        StoreBytesOfParse(Contents());
        FindModuleInStore(ms, name);
      }
      var mod := GetModule(name);
      match mod
      case Err(e) =>
        r := Err(e);
      case Ok(None) =>
        var _ := CreateModule(name, es);
        r := Ok(());
        if wf {
          StoreAppend(ms, Module(name, es));
          ParseStoreBytes(ms + [Module(name, es)]);
        }
      case Ok(Some(p)) =>
        var _ := SetElementsValues(p, es, ms, FirstModule(ms, name).value);
        ParseStoreBytes(SetFields(ms, FirstModule(ms, name).value, es).0);
        r := Ok(());
    }

    // -------------------------------------------------------------- cleanModules

    /** One module dropped by cleanModules: deleteModule at the cursor, which
        stays where it is while the pass goes on over what follows. */
    method DropModule(pos: nat, ghost goal: Cleaned, keep: seq<u64>)
      requires Valid() && pos + HeaderSize <= size
      requires 0 < HeaderAt(Contents(), pos).size && pos + HeaderAt(Contents(), pos).size <= size
      requires HeaderAt(Contents(), pos).name !in keep
      requires goal == Joined(Contents()[..pos], Clean(Contents()[pos..], keep))
      modifies this
      ensures Valid() && pos <= size < old(size)
      ensures goal == Joined(Contents()[..pos], Clean(Contents()[pos..], keep))
    {
      CleanDropStep(goal, keep, Contents(), pos);
      DeleteModule(pos);
    }

    /** cleanModules: walk the store from the front; a module whose name is
        not listed is deleted in place (the cursor stays), a listed one must
        end in the sentinel and is stepped over. At the end the allocation is
        shrunk to the store. Where the pass is blocked (a header past the end,
        an unlisted module of size 0 or past the end, a listed one with a bad
        footer) it stops with Corrupted and leaves the rest as it is. The source bounds the walk by the end computed before any
        deletion (see Findings); this bounds it by the current size. */
    method CleanModules(keep: seq<u64>) returns (r: Result<()>)
      requires Valid()
      modifies this
      ensures Valid()
      ensures r == Clean(old(Contents()), keep).outcome
      ensures Contents() == Clean(old(Contents()), keep).bytes
      ensures r.Ok? ==> buffer == Contents()
    {
      ghost var goal := Clean(Contents(), keep);
      var pos: nat := 0;
      assert Contents()[..0] == [] && Contents()[0..] == Contents();
      while pos < size
        invariant Valid() && pos <= size
        invariant goal == Joined(Contents()[..pos], Clean(Contents()[pos..], keep))
        decreases size - pos
      {
        var s := Contents();
        if pos + HeaderSize > size {
          CleanCorrupt(goal, keep, s, pos);
          return Err(Corrupted);
        }
        var header := HeaderAt(s, pos);
        if header.name !in keep {
          if header.size == 0 || pos + header.size > size {
            CleanCorrupt(goal, keep, s, pos);
            return Err(Corrupted);
          }
          DropModule(pos, goal, keep);
        } else {
          if !Closed(s, pos) {
            CleanCorrupt(goal, keep, s, pos);
            return Err(Corrupted);
          }
          var next := pos + header.size;
          CleanKeepStep(goal, keep, s, pos, header, next);
          pos := next;
        }
      }
      CleanEndStep(goal, keep, Contents());
      buffer := buffer[..size];
      return Ok(());
    }
  }

  /** The bytes of the modules already passed in front of the outcome of the rest of cleanModules. */
  function Joined(done: seq<u8>, rest: Cleaned): Cleaned
  {
    Cleaned(rest.outcome, done + rest.bytes)
  }

  /** A module dropped by cleanModules leaves the pass where it was. */
  lemma {:induction false} CleanDropStep(goal: Cleaned, keep: seq<u64>, s: seq<u8>, pos: nat)
    requires pos + HeaderSize <= |s|
    requires 0 < HeaderAt(s, pos).size && pos + HeaderAt(s, pos).size <= |s| && HeaderAt(s, pos).name !in keep
    requires goal == Joined(s[..pos], Clean(s[pos..], keep))
    ensures var s' := s[..pos] + s[pos + HeaderAt(s, pos).size..];
            pos <= |s'| && goal == Joined(s'[..pos], Clean(s'[pos..], keep))
  {
    var h := HeaderAt(s, pos);
    var s' := s[..pos] + s[pos + h.size..];
    CleanDropAt(s, pos, keep, h);
    assert s'[..pos] == s[..pos] && s'[pos..] == s[pos + h.size..];
  }

  /** A module kept by cleanModules joins the bytes already passed. */
  lemma {:induction false} CleanKeepStep(goal: Cleaned, keep: seq<u64>, s: seq<u8>, pos: nat, h: Header, next: nat)
    requires pos + HeaderSize <= |s| && h == HeaderAt(s, pos)
    requires MinModuleSize <= h.size && pos + h.size <= |s| && h.name in keep
    requires FooterAt(s, pos + h.size - FooterSize)
    requires goal == Joined(s[..pos], Clean(s[pos..], keep))
    requires next == pos + h.size
    ensures next <= |s| && goal == Joined(s[..next], Clean(s[next..], keep))
  {
    CleanKeepAt(s, pos, keep, h, next);
    JoinKeep(s[..pos], s[pos..next], Clean(s[next..], keep), Clean(s[pos..], keep));
    assert s[..pos] + s[pos..next] == s[..next];
  }

  /** Joining the passed bytes commutes with stepping over one more module. */
  lemma JoinKeep(a: seq<u8>, b: seq<u8>, rest: Cleaned, mid: Cleaned)
    requires mid == Cleaned(rest.outcome, b + rest.bytes)
    ensures Joined(a, mid) == Joined(a + b, rest)
  {
    assert a + (b + rest.bytes) == (a + b) + rest.bytes;
  }

  /** A blocked module stops cleanModules with the store as it stands. */
  lemma {:induction false} CleanCorrupt(goal: Cleaned, keep: seq<u64>, s: seq<u8>, pos: nat)
    requires pos < |s| && goal == Joined(s[..pos], Clean(s[pos..], keep))
    requires Blocked(s, pos, keep)
    ensures goal == Cleaned(Err(Corrupted), s)
  {
    CleanBlockedAt(s, pos, keep);
    CleanStopStep(goal, keep, s, pos);
  }

  /** A corrupted module stops cleanModules with the store as it stands. */
  lemma {:induction false} CleanStopStep(goal: Cleaned, keep: seq<u64>, s: seq<u8>, pos: nat)
    requires pos <= |s|
    requires goal == Joined(s[..pos], Clean(s[pos..], keep))
    requires Clean(s[pos..], keep) == Cleaned(Err(Corrupted), s[pos..])
    ensures goal == Cleaned(Err(Corrupted), s)
  {
    assert s[..pos] + s[pos..] == s;
  }

  /** A pass that reaches the end of the store succeeds with the store as it stands. */
  lemma {:induction false} CleanEndStep(goal: Cleaned, keep: seq<u64>, s: seq<u8>)
    requires goal == Joined(s[..|s|], Clean(s[|s|..], keep))
    ensures goal == Cleaned(Ok(()), s)
  {
    assert s[|s|..] == [] && s[..|s|] == s;
  }

  /** Values already read in front of the outcome of reading the rest. */
  function Prefixed(values: seq<seq<u8>>, rest: Result<seq<seq<u8>>>): Result<seq<seq<u8>>>
  {
    match rest
    case Err(e) => Err(e)
    case Ok(vs) => Ok(values + vs)
  }

  lemma {:induction false} PrefixedNone(rest: Result<seq<seq<u8>>>)
    ensures Prefixed([], rest) == rest
  {
    if rest.Ok? {
      assert [] + rest.value == rest.value;
    }
  }

  /** Moving one value read from the rest to the values already read. */
  lemma {:induction false} PrefixedStep(values: seq<seq<u8>>, v: seq<u8>, rest: Result<seq<seq<u8>>>)
    ensures Prefixed(values, match rest case Err(e) => Err(e) case Ok(vs) => Ok([v] + vs))
            == Prefixed(values + [v], rest)
  {
    if rest.Ok? {
      assert values + ([v] + rest.value) == values + [v] + rest.value;
    }
  }
}
