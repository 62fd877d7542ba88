/** What the scans of Config compute on raw bytes, whatever the bytes are:
    the module scan of getModule, the element scan of getElementAddress, the
    reads of getElementValue and getModuleData, and the retain-only pass of
    cleanModules. Each follows the source's cursor arithmetic and its error
    checks; reads that the source would make outside the buffer are reported
    as corruption. The lemmas show what they compute on a well-formed store. */
module Scan {
  import opened Words
  import opened Results
  import opened Layout
  import opened Footers
  import opened Records

  /** idToTSize: the value width a type id stands for. The source's switch has no
      default and returns nothing for other ids; here that is UnknownType. */
  function SizeOfType(id: u64): (r: Result<nat>)
    ensures r.Ok? <==> (id == TypeId(Int) || id == TypeId(Float))
    ensures forall k: Kind :: TypeId(k) == id ==> r == Ok(Width(k))
  {
    match KindOf(id)
    case None => Err(UnknownType)
    case Some(k) => Ok(Width(k))
  }

  // ---------------------------------------------------------------- Framing checks

  /** The module whose header is at p is at least a header and a footer long
      and lies inside s. */
  predicate Framed(s: seq<u8>, p: nat)
  {
    p + HeaderSize <= |s| && MinModuleSize <= HeaderAt(s, p).size && p + HeaderAt(s, p).size <= |s|
  }

  /** ... and its last four bytes are the footer sentinel. */
  predicate Closed(s: seq<u8>, p: nat)
  {
    Framed(s, p) && FooterAt(s, p + HeaderAt(s, p).size - FooterSize)
  }

  /** The module m is laid out in s at p. */
  predicate ModuleIn(s: seq<u8>, p: nat, m: Module)
  {
    ModuleOk(m) && p + ModuleSize(m) <= |s| && s[p..p + ModuleSize(m)] == ModuleBytes(m)
  }

  // ---------------------------------------------------------------- getModule

  /** The loop of getModule from cursor pos: stop at the first header with the
      name; otherwise check the footer of the module skipped and jump over it. */
  function FindModuleFrom(s: seq<u8>, pos: nat, name: u64): (r: Result<Option<nat>>)
    ensures r.Ok? && r.value.Some? ==>
              var p := r.value.value;
              pos <= p && p + HeaderSize <= |s| && HeaderAt(s, p).name == name
    decreases |s| - pos
  {
    if pos >= |s| then Ok(None)
    else if pos + HeaderSize > |s| then Err(Corrupted)
    else if HeaderAt(s, pos).name == name then Ok(Some(pos))
    else if !Closed(s, pos) then Err(Corrupted)
    else FindModuleFrom(s, pos + HeaderAt(s, pos).size, name)
  }

  function FindModule(s: seq<u8>, name: u64): (r: Result<Option<nat>>)
    ensures r.Ok? && r.value.Some? ==>
              r.value.value + HeaderSize <= |s| && HeaderAt(s, r.value.value).name == name
  {
    FindModuleFrom(s, 0, name)
  }

  // ---------------------------------------------------------------- getElementAddress

  /** The loop of getElementAddress from cursor pos, up to `last`, the offset
      where the module's footer should start: stop at the first tag with the
      name, otherwise jump over the tag and its value; once the cursor reaches
      `last`, the footer must be right there. */
  function FindElementFrom(s: seq<u8>, last: nat, pos: nat, name: u64): (r: Result<Option<nat>>)
    ensures r.Ok? && r.value.Some? ==>
              var p := r.value.value;
              pos <= p < last && p + TagSize <= |s| && TagAt(s, p).name == name
    decreases |s| - pos
  {
    if pos < last then
      if pos + TagSize > |s| then Err(Corrupted)
      else if TagAt(s, pos).name == name then Ok(Some(pos))
      else
        match SizeOfType(TagAt(s, pos).typeId)
        case Err(e) => Err(e)
        case Ok(w) => FindElementFrom(s, last, pos + TagSize + w, name)
    else if FooterAt(s, pos) then Ok(None)
    else Err(Corrupted)
  }

  /** getElementAddress for the module whose header is at `mod`. */
  function FindElement(s: seq<u8>, mod: nat, name: u64): Result<Option<nat>>
    requires mod + HeaderSize <= |s|
  {
    var size := HeaderAt(s, mod).size;
    if size < FooterSize then Err(Corrupted)
    else FindElementFrom(s, mod + size - FooterSize, mod + HeaderSize, name)
  }

  // ---------------------------------------------------------------- Reads

  /** getElementValue<T>: the sizeof(T) bytes after the element's tag, or `T()` if absent. */
  function ElementValue(s: seq<u8>, mod: nat, name: u64, k: Kind): Result<seq<u8>>
    requires mod + HeaderSize <= |s|
  {
    match FindElement(s, mod, name)
    case Err(e) => Err(e)
    case Ok(None) => Ok(DefaultValue(k))
    case Ok(Some(p)) =>
      if p + TagSize + Width(k) <= |s| then Ok(s[p + TagSize..p + TagSize + Width(k)])
      else Err(Corrupted)
  }

  /** getElementsValues: the fields read one after the other; the first error ends the call. */
  function ElementValues(s: seq<u8>, mod: nat, fields: seq<Field>): Result<seq<seq<u8>>>
    requires mod + HeaderSize <= |s|
  {
    if fields == [] then Ok([])
    else
      match ElementValue(s, mod, fields[0].name, fields[0].kind)
      case Err(e) => Err(e)
      case Ok(v) =>
        match ElementValues(s, mod, fields[1..])
        case Err(e) => Err(e)
        case Ok(vs) => Ok([v] + vs)
  }

  /** getModuleData: every field defaulted when the module is absent. */
  function ModuleData(s: seq<u8>, name: u64, fields: seq<Field>): Result<seq<seq<u8>>>
  {
    match FindModule(s, name)
    case Err(e) => Err(e)
    case Ok(None) => Ok(seq(|fields|, i requires 0 <= i < |fields| => DefaultValue(fields[i].kind)))
    case Ok(Some(mod)) => ElementValues(s, mod, fields)
  }

  // ---------------------------------------------------------------- cleanModules

  /** The outcome of cleanModules and the bytes it leaves from the scanned region on. */
  datatype Cleaned = Cleaned(outcome: Result<()>, bytes: seq<u8>)

  /** cleanModules cannot go on from p: the header does not fit; a module not
      listed records size 0 (the source would delete nothing and loop forever) or
      ends past s; or a listed module does not end in the sentinel (the source
      throws; a recorded size below header plus footer counts as that). */
  predicate Blocked(s: seq<u8>, p: nat, keep: seq<u64>)
  {
    p + HeaderSize > |s| ||
    (var h := HeaderAt(s, p);
     if h.name !in keep then h.size == 0 || p + h.size > |s| else !Closed(s, p))
  }

  /** cleanModules over the modules from the front of s: a module not listed is
      spliced out (the cursor stays), a listed one must end in the sentinel and
      is stepped over; where the scan is blocked it stops and the rest stays as is. */
  function Clean(s: seq<u8>, keep: seq<u64>): Cleaned
    decreases |s|
  {
    if s == [] then Cleaned(Ok(()), [])
    else if Blocked(s, 0, keep) then Cleaned(Err(Corrupted), s)
    else
      var h := HeaderAt(s, 0);
      if h.name !in keep then Clean(s[h.size..], keep)
      else
        var c := Clean(s[h.size..], keep);
        Cleaned(c.outcome, s[..h.size] + c.bytes)
  }
}
