# ClassSerializer record store in Dafny

This project models `ClassSerializer/Config.h`, a binary record store. The store
is one growable byte buffer holding a sequence of modules, which are named
records. Each module is a 16-byte header, a run of elements and a 4-byte
footer:

- The header holds the module's name hash and its total size, as two `size_t`s.
- Each element is a 16-byte tag followed by its value bytes. The tag holds the
  element's name hash and the id of its type.
- The footer is the sentinel `EF BE AD DE`.

Names are djb2-style hashes of C strings. A read that finds no element returns
the type's default value. A write of a missing element appends it, which moves
the module to the end of the store.

The model has four layers:

- **Bytes.** `Words`, `NameHash`, `Footers` and `Layout` define the 64-bit
  little-endian words, the name hash, the footer, the header and tag codecs and
  the byte image of a module and of a store. Each codec is proved to round-trip.
- **Scans.** `Scan` restates the source's scanning loops as functions over the
  bytes: `getModule`, `getElementAddress`, `getElementValue` and
  `cleanModules`.
- **Records.** `Records` gives the meaning of each operation on a list of
  decoded modules. `StoreFacts` and `StoreEdits` prove the following:
  - On a well-formed store, each scan returns what the decoded view says.
  - Each byte edit (append, splice out, overwrite in place, rebuild a module
    larger) leaves the encoding of the updated view.
- **The class.** `ConfigStore.Config` is the class itself. Its fields are
  `buffer` and `size`, and its methods carry the source's loops with their
  invariants. Each method is proved against the scan functions or against the
  byte image of the updated records.

Several parts of the code do not do what they evidently mean. `Findings`
models each of those as written and exhibits the defect, while the rest of the
model follows the intended behaviour. All of them are listed under Findings
below.

Two facts about the code shape the byte layout:

- An element tag is 16 bytes: two `size_t` words (`UnknownElement::write`).
  The type id is a full word.
- `idToTSize` has no default case. The model reports an unknown type id as an
  error, and the behaviour as written is in Findings.

## Model

| member | source | states |
|---|---|---|
| Words.WordRoundTrip | ClassSerializer/Config.h:58-67 | a size_t written as 8 little-endian bytes reads back as the same value |
| Words.WordBytesRoundTrip | ClassSerializer/Config.h:59 | any 8 bytes read as a size_t and written back are the same bytes |
| NameHash.HashStopsAtNul | ClassSerializer/Config.h:13-16 | the hash reads the string only up to its first NUL: whatever follows does not change it |
| NameHash.ExampleHashes | ClassSerializer/Config.h:13-16 | the hashes of "hp" and "mana" are 5861405 and 6382523398 (the last character is folded in first) |
| Footers.WriteFooter | ClassSerializer/Config.h:35 | after Footer::write at q the footer check at q succeeds, and no byte outside those four changes |
| Footers.FooterShift | ClassSerializer/Config.h:25-33 | the footer check at q in the bytes from p on is the check at p + q in the whole buffer |
| Layout.HeaderRoundTrip | ClassSerializer/Config.h:58-67 | a header written at p (Header::write) reads back (Header(char*)) as the same name and size |
| Layout.HeaderBytesRoundTrip | ClassSerializer/Config.h:59-67 | the 16 bytes at p are exactly the encoding of the header read there |
| Layout.TagOfBytes | ClassSerializer/Config.h:76-91 | bytes equal to a tag's encoding read back as that tag, with the full 64-bit name |
| Layout.TagBytesRoundTrip | ClassSerializer/Config.h:78-91 | the 16 bytes of an element tag are exactly the encoding of the tag read there |
| Layout.KindOf | ClassSerializer/Config.h:141-150 | a type id maps to a kind exactly when it is the id of that kind (int or float) |
| Layout.ModuleBytes | ClassSerializer/Config.h:352-365 | a module's image is as long as the size createModule computes: header + payload + footer |
| Layout.ParseElementsBytes | ClassSerializer/Config.h:126-130 | decoding the bytes Element::write lays down for a run of elements gives those elements back |
| Layout.ElementsBytesOfParse | ClassSerializer/Config.h:299-306 | a payload that decodes is exactly the encoding of what it decodes to |
| Layout.ParseStoreBytes | ClassSerializer/Config.h:262-286 | decoding the image of any valid list of modules gives that list back |
| Layout.StoreBytesOfParse | ClassSerializer/Config.h:262-286 | a store that decodes is exactly the image of its modules |
| Layout.ModuleBytesAt | ClassSerializer/Config.h:262-282 | a header, a decoded payload and a valid footer at p make up the image of that module |
| Scan.SizeOfType | ClassSerializer/Config.h:141-150 | the value width for a type id: 4 for int and float, an error for every other id |
| Scan.FindModule | ClassSerializer/Config.h:262-286 | a module found by the scan starts within the buffer at a header with the requested name |
| Scan.FindElementFrom | ClassSerializer/Config.h:296-306 | an element found by the scan lies before the payload's end and has a tag with the requested name |
| Records.FirstModule | ClassSerializer/Config.h:262-286 | the index of the first module with the name, or none exactly when no module has it |
| Records.FirstElement | ClassSerializer/Config.h:289-311 | the index of the first element with the name, or none exactly when no element has it |
| Records.DefaultValue | ClassSerializer/Config.h:332 | the default read value T() is the type's width of zero bytes |
| Records.ModuleFields | ClassSerializer/Config.h:234-245 | one value per requested field: all defaults when the module is absent, otherwise each field's value or default |
| Records.Retain | ClassSerializer/Config.h:207-231 | the modules cleanModules keeps are exactly those whose name is listed |
| Records.RetainConcat | ClassSerializer/Config.h:207-231 | cleaning a concatenation cleans each part |
| Records.RetainIdempotent | ClassSerializer/Config.h:207-231 | cleaning twice with the same list is cleaning once |
| Records.SetFieldEffect | ClassSerializer/Config.h:339-349 | after setting a field the module keeps its name, reads the new value for that field and the old one for every other, and no other module changes |
| Records.SetFieldIdempotent | ClassSerializer/Config.h:339-349 | setting the same field to the same value twice is setting it once |
| Records.FirstElementAppend | ClassSerializer/Config.h:289-311 | appending elements does not change which element a present name finds; a missing name is found in the appended part |
| Records.SetFieldsPlace | ClassSerializer/Config.h:322-325 | setting fields one after the other keeps the module's name and leaves the other modules as they were, in order |
| Records.SetFieldsValue | ClassSerializer/Config.h:322-325 | after setting fields with distinct names, each reads back as set and every other field of the module as before |
| Records.SaveModuleDistinct | ClassSerializer/Config.h:248-257 | saveModule keeps the module names of a store distinct |
| Records.SaveModuleReadBack | ClassSerializer/Config.h:234-257 | in a store of distinct names, reading the saved module gives each saved field its saved value and every other field its old value or the default |
| StoreFacts.ModuleInHeader | ClassSerializer/Config.h:352-365 | a module laid out at p reads back through its header as its name and total size, and its footer is where that size puts it |
| StoreFacts.PayloadIn | ClassSerializer/Config.h:352-365 | the bytes between a laid-out module's header and footer are its elements back to back, and header, payload and footer add up to the recorded size |
| StoreFacts.FindModuleInStore | ClassSerializer/Config.h:262-286 | on a store image, getModule returns the offset of the first module with the name, or null when none has it |
| StoreFacts.FindElementInModule | ClassSerializer/Config.h:289-311 | inside a valid module, getElementAddress returns the tag of the first element with the name, or null when none has it |
| StoreFacts.ElementValueInModule | ClassSerializer/Config.h:328-335 | getElementValue on a valid module yields the field's value, or the default when it is absent |
| StoreFacts.ElementValuesInModule | ClassSerializer/Config.h:316-319 | getElementsValues yields, field by field, each value or default of the module |
| StoreFacts.ModuleDataInStore | ClassSerializer/Config.h:234-245 | getModuleData on a store image yields the decoded view's fields, or all defaults when the module is absent |
| StoreFacts.SaveThenRead | ClassSerializer/Config.h:234-257 | getModuleData on the image after saveModule returns the saved values, the old ones or the defaults, as SaveModuleReadBack states for the records |
| StoreFacts.CleanStore | ClassSerializer/Config.h:207-231 | cleanModules on a store image succeeds and leaves exactly the image of the listed modules, in order |
| StoreFacts.CleanDropsBareHeader | ClassSerializer/Config.h:214-218 | a module that is not listed is deleted even when it is only a 16-byte header with no footer, and the pass then ends without error |
| StoreEdits.StoreAppend | ClassSerializer/Config.h:421-429 | appending a module's bytes to a store image gives the image of the list with that module appended |
| StoreEdits.StoreDelete | ClassSerializer/Config.h:431-436 | cutting module i's bytes out of a store image gives the image of the list without module i |
| StoreEdits.SetPresentBytes | ClassSerializer/Config.h:348 | writing new value bytes over a present field gives the image of the list with that value replaced |
| StoreEdits.GrowBytes | ClassSerializer/Config.h:370-385 | a module grown by elements has the new total size in its header, the old payload, the new elements and the footer |
| StoreEdits.AppendFieldStore | ClassSerializer/Config.h:343-346 | appending a missing field through addElements gives the image of the list with the module, grown, moved to the end |
| ConfigStore.WriteElements | ClassSerializer/Config.h:387-395 | addElementInternal writes each element's tag and value back to back from the address, and nothing else |
| ConfigStore.FrameBlock | ClassSerializer/Config.h:352-365 | the scratch block gets a header with its own length, the elements and the sentinel in its last four bytes |
| ConfigStore.Config.constructor | ClassSerializer/Config.h:162-185 | the store's contents are the file's bytes |
| ConfigStore.Config.GetModule | ClassSerializer/Config.h:262-286 | the loop returns what the getModule scan specifies (with FindModuleInStore: the first module of that name) |
| ConfigStore.Config.GetElementAddress | ClassSerializer/Config.h:289-311 | the loop returns what the getElementAddress scan specifies, including the footer check and the corrupt cases |
| ConfigStore.Config.GetElementValue | ClassSerializer/Config.h:328-335 | the value bytes after the tag found, or the default, or the scan's error |
| ConfigStore.Config.GetElementsValues | ClassSerializer/Config.h:316-319 | the fields' values in order, stopping at the first error |
| ConfigStore.Config.GetModuleData | ClassSerializer/Config.h:234-245 | the module's field values, or all defaults when the module is absent |
| ConfigStore.Config.CopyModule | ClassSerializer/Config.h:404-411 | a copy of the module's bytes, as many as its header records |
| ConfigStore.Config.CopyModuleSized | ClassSerializer/Config.h:413-419 | a block of the requested size that starts with the module's bytes |
| ConfigStore.Config.AddModule | ClassSerializer/Config.h:421-429 | the store grows by the block's recorded size, those bytes are appended, and the new module's offset is returned |
| ConfigStore.Config.DeleteModule | ClassSerializer/Config.h:431-436 | the module's bytes are cut out of the contents, the size shrinks by its length, and the allocation keeps its length |
| ConfigStore.Config.CreateModule | ClassSerializer/Config.h:352-367 | the contents gain exactly the image of the new module, which starts at the old size |
| ConfigStore.Config.AddElements | ClassSerializer/Config.h:370-385 | the module is cut out and put back last, with the grown size in its header, its old payload, the new elements and the footer |
| ConfigStore.Config.SetElementValue | ClassSerializer/Config.h:339-349 | the contents become the image of the records with the field set (in place, or appended with the module moved last); returns where the module now is |
| ConfigStore.Config.OverwriteValue | ClassSerializer/Config.h:348 | writing the value over a present field keeps the size and gives the image of the updated records |
| ConfigStore.Config.AppendValue | ClassSerializer/Config.h:343-346 | appending a missing field grows the store by one tag and value and gives the image of the updated records |
| ConfigStore.Config.SetElementsValues | ClassSerializer/Config.h:322-325 | the contents become the image of the records with every field set in turn, following the module as it moves |
| ConfigStore.Config.SaveModule | ClassSerializer/Config.h:248-257 | getModule's error is returned with the store unchanged; an absent module is appended as a new module image; on a well-formed store the result is the image of the records with the first module of that name updated, or a new module appended |
| ConfigStore.Config.CleanModules | ClassSerializer/Config.h:207-231 | the outcome and contents are those of the cleanModules scan (with CleanStore: exactly the listed modules) |
| Findings.StoredNameKeeps | ClassSerializer/Config.h:76 | a name survives the cut to int exactly when it is a sign-extended 32-bit value |
| Findings.ShortNamesKept | ClassSerializer/Config.h:9-16 | names of up to three ASCII characters hash below 2^31 and survive the cut |
| Findings.FourLetterNameLost | ClassSerializer/Config.h:112-114 | "mana" is stored under 2087556102, so its tag never matches its hash |
| Findings.UnknownIdStepsAnywhere | ClassSerializer/Config.h:141-150 | for unknown ids, idToTSize as written returns whatever value is left over, so the next cursor is arbitrary |
| Findings.DeleteMoveCountWrong | ClassSerializer/Config.h:434 | the move count differs from the bytes after the module for any buffer not at address 0 |
| Findings.AppendWritesThroughNull | ClassSerializer/Config.h:343-348 | setElementValue writes through null exactly when the field was absent |
| Findings.StaleModuleTakesField | ClassSerializer/Config.h:322-325 | with a stale module address, the second new field lands in the other module |
| Findings.AddElementsLosesFields | ClassSerializer/Config.h:370-385 | addElements as written moves the module last unchanged and loses the new fields |
| Findings.CleanRunsPastEnd | ClassSerializer/Config.h:207-231 | with two equal-sized modules to drop, cleanModules as written deletes past the end of the store |

## Left out

- File I/O is not modelled: the constructor's file read becomes a parameter, and `save` and the destructor are left out. The failure to open or read the file is left out with it.
- `printf` and `std::cout` tracing is left out, and so are the stream `write` and `read` members of Footer and Element.
- `typeid(T)::hash_code` is replaced by a closed set of kinds (int = 1, float = 2), both 4 bytes wide. Values are kept as raw bytes, so float semantics are not modelled.
- Thrown `std::exception`s become an `Err(Corrupted)` result returned to the caller. The store keeps whatever changes were made before the throw: none for saveModule, the deletions done so far for cleanModules. The message text is not modelled.
- Reads the source makes outside the buffer are undefined behaviour there. The model reports them as `Err(Corrupted)`.
- getModule treats a module it steps over whose recorded size is below 20 bytes (header plus footer) as corrupt, and so does cleanModules for a module it keeps. The source does not reject these sizes. Sizes 0 to 3 put the footer read before the module. Sizes 4 to 19 put it at `size - 4` bytes into the module, within its first 19 bytes, and when those four bytes happen to be the sentinel the scan steps on by that short size. A module cleanModules drops is deleted at any size from 1 up that ends inside the store, as in the source (StoreFacts.CleanDropsBareHeader). A dropped module of size 0 deletes nothing, so the source loop never ends; a dropped module that runs past the end makes deleteModule move bytes from outside the buffer; the model stops with Corrupted on both. Findings.CleanAsWritten follows the source in each of these cases.
- getElementAddress (Scan.FindElement) follows the source for recorded sizes of 4 and up; for sizes 4 to 19 the element loop is not entered and the footer is checked right after the header. For sizes 0 to 3 the source's unsigned `size - 4` wraps, and its loop reads tags past the module; the model reports Corrupted there.
- Bytes from `malloc` and `realloc` are indeterminate in the source. The model fills them with zeros in the methods and with an explicit `junk` argument in Findings.
- Pointer identity is not modelled: addresses are offsets into the buffer, so aliasing and the address changes of `realloc` do not appear. Allocation failure is left out too.
- Variadic argument packs become sequences of elements or fields.
- Growth past 2^64 bytes is excluded by `requires` on the growing methods (`size_t` overflow).
- ConfigStore.Config.SaveModule requires a well-formed store when getModule finds the module. It then goes on to setElementsValues, which is modelled on the decoded store only. On a corrupted store the source would scan that module and write into it, and may or may not throw; the model does not state that. The error path of getModule and the creation of an absent module are stated for any store.
- ConfigStore.Config.CreateModule, and ConfigStore.Config.SaveModule when it creates the module, also accept an empty element list and then write a 20-byte module of header and footer. In the source the size is a unary fold `(sizeof(Ts) + ...)` over the element pack, which does not compile for an empty pack, so no caller can reach that case.
- ConfigStore.Config.SetElementValue, AppendValue, OverwriteValue and SetElementsValues take the decoded modules and the module's index as ghost parameters. Their contracts are stated for a well-formed store, following the source's comment that `module` must come from `getModule`.
- ConfigStore.Config.CleanModules states the final `realloc` only when it succeeds. On an error the source throws before the `realloc`, and the model leaves the allocation length unspecified there.
- Findings.ShortNamesKept covers names of at most three ASCII characters. Characters from 0x80 up are sign-extended by the hash and are not covered.

## Findings

| source | as written | input that shows it | evidently intended | confidence | as-written member | corrected member |
|---|---|---|---|---|---|---|
| ClassSerializer/Config.h:76 | `UnknownElement(int hashedName, …)` cuts the 64-bit name hash to `int` | `Element` for "mana": hash 6382523398 is stored as 2087556102, so `getElementAddress` never finds it (the TODO at lines 9-10) | the tag keeps the full `size_t` name | high (not executed) | Findings.FourLetterNameLost | Layout.TagOfBytes |
| ClassSerializer/Config.h:141-150 | `idToTSize` falls off the end for an id outside its switch | any tag whose type id is neither int's nor float's: the next cursor is `pos + 16 + ` an indeterminate value | an unknown id is reported as corruption | high (not executed) | Findings.UnknownIdStepsAnywhere | Scan.SizeOfType |
| ClassSerializer/Config.h:434 | the move count is `size - (uintptr_t)module - L`, an address minus a length | any buffer at a nonzero address: too few bytes moved, or a count that wraps past the whole store | `size - (module - buffer) - L`, the bytes after the module | high (not executed) | Findings.DeleteMoveCountWrong | ConfigStore.Config.DeleteModule |
| ClassSerializer/Config.h:343-348 | after appending a missing field, the value is still written through the null `pos` | `setElementValue` on any module without that field | return after the append | high (not executed) | Findings.AppendWritesThroughNull | ConfigStore.Config.SetElementValue |
| ClassSerializer/Config.h:322-325 | each field is set on the same `module` address, though an append moves the module to the end | two new fields for the first of two modules: the second goes to the other module | follow the module to its new place | high (not executed) | Findings.StaleModuleTakesField | ConfigStore.Config.SetElementsValues |
| ClassSerializer/Config.h:370-385 | the header keeps the old size; the elements go after the old footer; the buffer is reallocated to the module's size; `addModule` copies the old length | any module and at least one new element: the module is moved last unchanged and the new fields are lost | rewrite the header with the new size, write the elements before the footer, grow the store | high (not executed) | Findings.AddElementsLosesFields | ConfigStore.Config.AddElements |
| ClassSerializer/Config.h:211 | the loop bound `end` is taken once, before deletions shrink the store | two modules of equal size, neither kept: the stale copy of the second is deleted again, past the end | stop at the current end of the store | high (not executed) | Findings.CleanRunsPastEnd | ConfigStore.Config.CleanModules |
