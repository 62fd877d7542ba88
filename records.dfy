/** The store's operations on its decoded view (a sequence of modules): what
    the byte-level operations of Config mean. Lookups are first-match in
    layout order, reads of absent fields give zero bytes, writes to absent
    fields append the field and move the module to the end of the store. */
module Records {
  import opened Words
  import opened Results
  import opened Layout
  import opened Footers

  /** The index of the first module named `name`, in scan order. */
  function FirstModule(ms: seq<Module>, name: u64): (r: Option<nat>)
    ensures r.Some? ==> r.value < |ms| && ms[r.value].name == name
    ensures r.Some? ==> forall j :: 0 <= j < r.value ==> ms[j].name != name
    ensures r.None? <==> forall j :: 0 <= j < |ms| ==> ms[j].name != name
  {
    if ms == [] then None
    else if ms[0].name == name then Some(0)
    else match FirstModule(ms[1..], name)
      case None => None
      case Some(i) => Some(i + 1)
  }

  /** The index of the first element named `name` in a module's payload. */
  function FirstElement(es: seq<Element>, name: u64): (r: Option<nat>)
    ensures r.Some? ==> r.value < |es| && es[r.value].name == name
    ensures r.Some? ==> forall j :: 0 <= j < r.value ==> es[j].name != name
    ensures r.None? <==> forall j :: 0 <= j < |es| ==> es[j].name != name
  {
    if es == [] then None
    else if es[0].name == name then Some(0)
    else match FirstElement(es[1..], name)
      case None => None
      case Some(i) => Some(i + 1)
  }

  // ---------------------------------------------------------------- Reads

  /** What a field reads as when it is absent: `T()`, all zero bytes. */
  function DefaultValue(k: Kind): (v: seq<u8>)
    ensures |v| == Width(k) && forall i :: 0 <= i < |v| ==> v[i] == 0
  {
    Zeros(Width(k))
  }

  /** getElementValue<T>: the bytes of the first element named `name`, or the default. */
  function FieldValue(m: Module, name: u64, k: Kind): seq<u8>
  {
    match FirstElement(m.elements, name)
    case None => DefaultValue(k)
    case Some(j) => m.elements[j].value
  }

  /** A requested field of getModuleData: its name and the kind of its output variable. */
  datatype Field = Field(name: u64, kind: Kind)

  /** getModuleData: one value per requested field, all defaults when the module is absent. */
  function ModuleFields(ms: seq<Module>, name: u64, fields: seq<Field>): (r: seq<seq<u8>>)
    ensures |r| == |fields|
    ensures FirstModule(ms, name).None? ==>
              forall i :: 0 <= i < |fields| ==> r[i] == DefaultValue(fields[i].kind)
    ensures FirstModule(ms, name).Some? ==>
              forall i :: 0 <= i < |fields| ==>
                r[i] == FieldValue(ms[FirstModule(ms, name).value], fields[i].name, fields[i].kind)
  {
    match FirstModule(ms, name)
    case None => seq(|fields|, i requires 0 <= i < |fields| => DefaultValue(fields[i].kind))
    case Some(m) => seq(|fields|, i requires 0 <= i < |fields| => FieldValue(ms[m], fields[i].name, fields[i].kind))
  }

  // ---------------------------------------------------------------- Retain

  /** cleanModules: the modules whose names are listed, in their original order. */
  function Retain(ms: seq<Module>, keep: seq<u64>): (r: seq<Module>)
    ensures forall m :: m in r <==> m in ms && m.name in keep
    ensures |r| <= |ms|
  {
    if ms == [] then []
    else if ms[0].name in keep then [ms[0]] + Retain(ms[1..], keep)
    else Retain(ms[1..], keep)
  }

  /** Retaining distributes over concatenation: relative order is preserved. */
  lemma {:induction false} RetainConcat(a: seq<Module>, b: seq<Module>, keep: seq<u64>)
    ensures Retain(a + b, keep) == Retain(a, keep) + Retain(b, keep)
  {
    if a == [] {
      assert a + b == b;
    } else {
      assert (a + b)[0] == a[0];
      assert (a + b)[1..] == a[1..] + b;
      RetainConcat(a[1..], b, keep);
    }
  }

  /** Cleaning twice with the same list removes nothing more. */
  lemma {:induction false} RetainIdempotent(ms: seq<Module>, keep: seq<u64>)
    ensures Retain(Retain(ms, keep), keep) == Retain(ms, keep)
  {
    if ms != [] {
      RetainIdempotent(ms[1..], keep);
    }
  }

  // ---------------------------------------------------------------- Writes

  /** The module with element j's value replaced (its name and kind stay). */
  function WithValue(m: Module, j: nat, v: seq<u8>): Module
    requires j < |m.elements|
  {
    m.(elements := m.elements[j := m.elements[j].(value := v)])
  }

  /** The module with elements appended to its payload (addElements). */
  function WithElements(m: Module, es: seq<Element>): Module
  {
    m.(elements := m.elements + es)
  }

  /** The modules without the one at i (deleteModule). */
  function Without(ms: seq<Module>, i: nat): (r: seq<Module>)
    requires i < |ms|
    ensures |r| == |ms| - 1
  {
    ms[..i] + ms[i + 1..]
  }

  /** setElementValue on module i: overwrite the field in place when present,
      otherwise append it and move the module to the end. Also returns where
      the module now is. */
  function SetField(ms: seq<Module>, i: nat, e: Element): (r: (seq<Module>, nat))
    requires i < |ms|
    ensures r.1 < |r.0| && |r.0| == |ms|
  {
    match FirstElement(ms[i].elements, e.name)
    case Some(j) => (ms[i := WithValue(ms[i], j, e.value)], i)
    case None => (Without(ms, i) + [WithElements(ms[i], [e])], |ms| - 1)
  }

  /** setElementsValues: the fields set one after the other, following the module as it moves. */
  function SetFields(ms: seq<Module>, i: nat, es: seq<Element>): (r: (seq<Module>, nat))
    requires i < |ms|
    ensures r.1 < |r.0| && |r.0| == |ms|
    decreases |es|
  {
    if es == [] then (ms, i)
    else
      var (ms', i') := SetField(ms, i, es[0]);
      SetFields(ms', i', es[1..])
  }

  /** saveModule: update the first module of that name field by field, or create it. */
  function SaveModule(ms: seq<Module>, name: u64, es: seq<Element>): seq<Module>
  {
    match FirstModule(ms, name)
    case None => ms + [Module(name, es)]
    case Some(i) => SetFields(ms, i, es).0
  }

  // ---------------------------------------------------------------- Properties

  /** No two modules share a name: what a store built only by saveModule keeps. */
  predicate DistinctNames(ms: seq<Module>)
  {
    forall i, j :: 0 <= i < j < |ms| ==> ms[i].name != ms[j].name
  }

  /** No two of the elements share a name. */
  predicate DistinctElementNames(es: seq<Element>)
  {
    forall i, j :: 0 <= i < j < |es| ==> es[i].name != es[j].name
  }

  /** Setting a field keeps the module's name, makes the field read back as
      written, leaves every other field's value as it was, and leaves the other
      modules in their relative order. */
  lemma {:induction false} SetFieldEffect(ms: seq<Module>, i: nat, e: Element, other: u64, k: Kind)
    requires i < |ms|
    ensures var (ms', i') := SetField(ms, i, e);
            && ms'[i'].name == ms[i].name
            && FieldValue(ms'[i'], e.name, k) == e.value
            && (other != e.name ==> FieldValue(ms'[i'], other, k) == FieldValue(ms[i], other, k))
            && Without(ms', i') == Without(ms, i)
  {
    var (ms', i') := SetField(ms, i, e);
    var es := ms[i].elements;
    match FirstElement(es, e.name)
    case Some(j) =>
      var es' := ms'[i'].elements;
      assert FirstElement(es', e.name) == Some(j) by { FirstElementSameNames(es, es', e.name); }
      if other != e.name {
        FirstElementSameNames(es, es', other);
      }
      assert Without(ms', i') == Without(ms, i);
    case None =>
      var es' := es + [e];
      assert ms'[i'].elements == es';
      FirstElementAppend(es, [e], e.name);
      assert FirstElement([e], e.name) == Some(0);
      if other != e.name {
        FirstElementAppend(es, [e], other);
        assert FirstElement([e], other) == None;
      }
      assert ms'[..i'] == Without(ms, i);
  }

  /** Element lookups only see names, so replacing values leaves them unchanged. */
  lemma {:induction false} FirstElementSameNames(es: seq<Element>, es': seq<Element>, name: u64)
    requires |es| == |es'|
    requires forall j :: 0 <= j < |es| ==> es[j].name == es'[j].name
    ensures FirstElement(es, name) == FirstElement(es', name)
  {
    if es != [] {
      FirstElementSameNames(es[1..], es'[1..], name);
    }
  }

  /** Appending elements cannot shadow one that is already there. */
  lemma {:induction false} FirstElementAppend(es: seq<Element>, more: seq<Element>, name: u64)
    ensures FirstElement(es + more, name) ==
              match FirstElement(es, name)
              case Some(j) => Some(j)
              case None => match FirstElement(more, name)
                case None => None
                case Some(j) => Some(|es| + j)
  {
    if es == [] {
      assert es + more == more;
    } else {
      assert (es + more)[0] == es[0];
      assert (es + more)[1..] == es[1..] + more;
      FirstElementAppend(es[1..], more, name);
    }
  }

  /** Writing the same field twice leaves the store as writing it once. */
  lemma {:induction false} SetFieldIdempotent(ms: seq<Module>, i: nat, e: Element)
    requires i < |ms|
    ensures var (ms1, i1) := SetField(ms, i, e);
            SetField(ms1, i1, e) == (ms1, i1)
  {
    var (ms1, i1) := SetField(ms, i, e);
    var es := ms[i].elements;
    match FirstElement(es, e.name)
    case Some(j) =>
      FirstElementSameNames(es, ms1[i1].elements, e.name);
      assert ms1[i1].elements[j] == es[j].(value := e.value);
      assert WithValue(ms1[i1], j, e.value) == ms1[i1];
      assert ms1[i1 := ms1[i1]] == ms1;
    case None =>
      FirstElementAppend(es, [e], e.name);
      assert FirstElement([e], e.name) == Some(0);
      assert ms1[i1].elements == es + [e];
      assert WithValue(ms1[i1], |es|, e.value) == ms1[i1];
      assert ms1[i1 := ms1[i1]] == ms1;
  }

  // ---------------------------------------------------------------- saveModule then getModuleData

  /** What a field reads as after saveModule: the saved element's value when
      one of the saved elements has its name, otherwise what the module held
      before, or the default when there was no such module. */
  function SavedValue(ms: seq<Module>, name: u64, es: seq<Element>, f: Field): seq<u8>
  {
    match FirstElement(es, f.name)
    case Some(j) => es[j].value
    case None =>
      match FirstModule(ms, name)
      case None => DefaultValue(f.kind)
      case Some(i) => FieldValue(ms[i], f.name, f.kind)
  }

  /** Setting fields one after the other keeps the module's name and leaves
      the other modules as they were, in order. */
  lemma {:induction false} SetFieldsPlace(ms: seq<Module>, i: nat, es: seq<Element>)
    requires i < |ms|
    ensures var (ms', i') := SetFields(ms, i, es);
            ms'[i'].name == ms[i].name && Without(ms', i') == Without(ms, i)
    decreases |es|
  {
    if es != [] {
      var (m1, i1) := SetField(ms, i, es[0]);
      SetFieldEffect(ms, i, es[0], es[0].name, Int);
      SetFieldsPlace(m1, i1, es[1..]);
    }
  }

  /** After setting fields with distinct names, each of them reads back as
      set and every other field of the module as before. */
  lemma {:induction false} SetFieldsValue(ms: seq<Module>, i: nat, es: seq<Element>, f: u64, k: Kind)
    requires i < |ms| && DistinctElementNames(es)
    ensures var (ms', i') := SetFields(ms, i, es);
            FieldValue(ms'[i'], f, k) ==
              match FirstElement(es, f)
              case Some(j) => es[j].value
              case None => FieldValue(ms[i], f, k)
    decreases |es|
  {
    if es != [] {
      var e, rest := es[0], es[1..];
      var (m1, i1) := SetField(ms, i, e);
      SetFieldEffect(ms, i, e, f, k);
      assert DistinctElementNames(rest) by {
        forall a, b | 0 <= a < b < |rest|
          ensures rest[a].name != rest[b].name
        {
          assert rest[a] == es[a + 1] && rest[b] == es[b + 1];
        }
      }
      SetFieldsValue(m1, i1, rest, f, k);
      if f == e.name {
        assert FirstElement(rest, f).None? by {
          forall a | 0 <= a < |rest|
            ensures rest[a].name != f
          {
            assert rest[a] == es[a + 1];
          }
        }
      }
    }
  }

  /** The module at i is the only one with its name: the lookup finds it. */
  lemma {:induction false} FirstModuleOnly(ms: seq<Module>, i: nat, name: u64)
    requires i < |ms| && ms[i].name == name
    requires forall j :: 0 <= j < |ms| - 1 ==> Without(ms, i)[j].name != name
    ensures FirstModule(ms, name) == Some(i)
  {
    forall j | 0 <= j < i
      ensures ms[j].name != name
    {
      assert Without(ms, i)[j] == ms[j];
    }
  }

  /** In a store of distinct names, no module but the i-th has its name. */
  lemma {:induction false} DistinctWithout(ms: seq<Module>, i: nat)
    requires i < |ms| && DistinctNames(ms)
    ensures forall j :: 0 <= j < |ms| - 1 ==> Without(ms, i)[j].name != ms[i].name
    ensures DistinctNames(Without(ms, i))
  {
    var w := Without(ms, i);
    forall j | 0 <= j < |ms| - 1
      ensures w[j] == ms[if j < i then j else j + 1]
    {
    }
  }

  /** Distinct names are a matter of the other modules and the one name. */
  lemma {:induction false} DistinctFromWithout(ms: seq<Module>, i: nat)
    requires i < |ms| && DistinctNames(Without(ms, i))
    requires forall j :: 0 <= j < |ms| - 1 ==> Without(ms, i)[j].name != ms[i].name
    ensures DistinctNames(ms)
  {
    var w := Without(ms, i);
    forall a, b | 0 <= a < b < |ms|
      ensures ms[a].name != ms[b].name
    {
      if a != i && b != i {
        assert ms[a] == w[if a < i then a else a - 1];
        assert ms[b] == w[if b < i then b else b - 1];
      } else if a == i {
        assert ms[b] == w[b - 1];
      } else {
        assert ms[a] == w[a];
      }
    }
  }

  /** saveModule keeps the names of a store distinct. */
  lemma {:induction false} SaveModuleDistinct(ms: seq<Module>, name: u64, es: seq<Element>)
    requires DistinctNames(ms)
    ensures DistinctNames(SaveModule(ms, name, es))
  {
    match FirstModule(ms, name)
    case None =>
      var ms' := ms + [Module(name, es)];
      assert Without(ms', |ms|) == ms;
      DistinctFromWithout(ms', |ms|);
    case Some(i) =>
      var (ms', i') := SetFields(ms, i, es);
      SetFieldsPlace(ms, i, es);
      DistinctWithout(ms, i);
      DistinctFromWithout(ms', i');
  }

  /** Reading a module back after saving it: in a store of distinct names,
      getModuleData on the saved name gives every saved field the value it
      was saved with (the saved elements having distinct names), and every
      other field its old value or the default. With a repeated name among
      the saved elements, a created module reads the first of them and an
      updated one the last. */
  lemma {:induction false} SaveModuleReadBack(ms: seq<Module>, name: u64, es: seq<Element>, fs: seq<Field>)
    requires DistinctNames(ms) && DistinctElementNames(es)
    ensures var r := ModuleFields(SaveModule(ms, name, es), name, fs);
            |r| == |fs| && forall k :: 0 <= k < |fs| ==> r[k] == SavedValue(ms, name, es, fs[k])
  {
    var saved := SaveModule(ms, name, es);
    match FirstModule(ms, name)
    case None =>
      assert Without(saved, |ms|) == ms;
      FirstModuleOnly(saved, |ms|, name);
    case Some(i) =>
      var (ms', i') := SetFields(ms, i, es);
      SetFieldsPlace(ms, i, es);
      DistinctWithout(ms, i);
      FirstModuleOnly(ms', i', name);
      forall k | 0 <= k < |fs|
        ensures FieldValue(ms'[i'], fs[k].name, fs[k].kind) == SavedValue(ms, name, es, fs[k])
      {
        SetFieldsValue(ms, i, es, fs[k].name, fs[k].kind);
      }
  }
}
