# UMASM section store in Dafny

This project models the section store of the UMASM assembler back end
(`umsections.c`). The store keeps a table from section names to growable
sequences of 32-bit words. It also keeps a "current" section, which receives
emitted words, and an error callback for its reports. The store can read and
patch any word already emitted, and it writes every word out as four bytes,
most significant byte first.

The project has three modules:

- `Wrappers` holds `Option`. It stands for a table entry that may be `NULL`
  and for an access that finds no word.
- `Layout` holds the byte layout of one word and one section, and the
  nested loops of `write_section`: the outer loop is `WriteSection`, the
  inner one `WriteWord`.
- `Umsections` holds pure functions on a `State` (table and current section)
  that give each operation its meaning, with lemmas about them. It also holds
  the class `Store`. Its fields `table` and `current` are updated in place,
  and the ghost field `errors` records every report handed to the error
  callback. Each method of `Store` is proved to move `Model()` exactly as the
  matching function says.

The model keeps these behaviours of the code as written:

- `Umsections_new` binds its section to an empty sequence.
  `Umsections_section` binds a new name to `NULL` (`None` here).
  `section_exists` tests for a sequence, so a name that was only selected
  counts as missing. Its length query reports it, and nothing can be emitted
  into it (`SelectNewSectionHasNoWords`).
- Reports never stop an operation, because the callback's return value is
  ignored. For a missing section, `Umsections_getword` and
  `Umsections_putword` report "does NOT exist" twice: once from their own
  check, and once from inside `Umsections_length`. They then report
  "OUT OF BOUNDS!" when `i >= 0`, since the length they compare against is 0.
  A negative index is not reported at all. These checks are stated in
  `AccessErrorsCases`.
- After its checks, the code accesses word `i` whatever the checks found. An
  index outside the sequence, or a section with no sequence, is a fault. The
  model returns `None` (read) or `ok == false` (patch) for it, and leaves the
  table unchanged.
- `Umsections_write` visits sections in the hash table's order, which is not
  fixed. The order is a parameter: any list of the section names that has
  each name exactly once. The output's size does not depend on it
  (`ImageSizeOrderIndependent`).

## Model

| member | source | states |
|---|---|---|
| `Layout.WordBytesBigEndian` | umsections.c:64-69 | byte k of the four written for a word is `(w >> 8*(3-k)) & 0xFF`, so the most significant byte comes first |
| `Layout.WordBytesRoundTrip` | umsections.c:64-69 | reassembling the four bytes written for a word, first byte most significant, gives the word back |
| `Layout.WordOfRoundTrip` | umsections.c:64-69 | every group of four bytes is the group written for exactly one word |
| `Layout.SectionBytes` | umsections.c:64-69 | a section of n words is written as exactly 4n bytes |
| `Layout.SectionBytesAt` | umsections.c:64-69 | byte k of word i is at output offset 4i+k |
| `Layout.SectionBytesDecode` | umsections.c:57-70 | reading the output of a section four bytes at a time gives its words back, in order |
| `Layout.SectionBytesAppend` | umsections.c:64-69 | writing two runs of words one after the other is the same as writing their concatenation |
| `Layout.StepBytesAreWordBytes` | umsections.c:66-68 | the four inner steps, counting j down from 4 and writing the field at bit (j-1)*8, write exactly the big-endian group of the word |
| `Layout.WriteWord` | umsections.c:66-68 | the inner loop appends exactly the four big-endian bytes of one word to the output |
| `Layout.WriteSection` | umsections.c:57-70 | the outer loop appends exactly the big-endian bytes of every word, in order, to the output |
| `Umsections.SectionExists` | umsections.c:25-28 | a name exists only when the table binds it to a word sequence; an absent name and an entry bound to no sequence (`NULL`) both count as missing |
| `Umsections.Init` | umsections.c:74-92 | a new store has exactly one section, the given name, holding no words, and no current section |
| `Umsections.Select` | umsections.c:109-118 | selecting makes the name current; an entry that has words is untouched; otherwise the name is added with no words; all other entries are unchanged |
| `Umsections.SelectIdempotent` | umsections.c:109-118 | selecting the same name twice has the effect of selecting it once |
| `Umsections.SelectNewSectionHasNoWords` | umsections.c:109-118 | a name selected before it had words has no words afterwards: length 0 with one report, and no emit is possible |
| `Umsections.Emit` | umsections.c:120-126 | emitting grows the current section by one word, keeps its earlier words, ends it with the new word, and changes no other section and not the current name |
| `Umsections.EmitAll` | umsections.c:120-126 | after any run of emits, the current section still holds words, so emitting stays possible |
| `Umsections.EmitAllAppends` | umsections.c:120-126 | a run of emits appends exactly those words, in order, to the current section and changes nothing else |
| `Umsections.EmitsIntoNewStore` | umsections.c:74-126 | in a new store whose own section is selected, n emits give length n, and index i reads the i-th emitted word |
| `Umsections.AccessErrorsCases` | umsections.c:150-160 | a read or patch reports "OUT OF BOUNDS!" exactly when i >= length; it reports "does NOT exist" twice for a section with no words and never otherwise; it reports nothing exactly when the section exists and i < length; every report's text is "OUT OF BOUNDS!" or "Section <name> does NOT exist!\n" |
| `Umsections.Put` | umsections.c:166-182 | a patch keeps every section's existence and length; afterwards the patched index reads the new word and every other index of every section reads as before; a faulting patch changes nothing |
| `Umsections.ImageIsSectionBytes` | umsections.c:184-189 | the output is the big-endian layout of all words of all sections, in visiting order |
| `Umsections.ImageDecodes` | umsections.c:184-189 | the output has four bytes per stored word and decodes back to exactly those words |
| `Umsections.FlattenLengthPermutation` | umsections.c:184-189 | the number of words visited is the same for every visiting order |
| `Umsections.ImageSizeOrderIndependent` | umsections.c:184-189 | every enumeration of the sections gives an output of the same size, four bytes per stored word |
| `Umsections.Store.constructor` | umsections.c:74-92 | the new store is the state `Init(name)`, with no reports |
| `Umsections.Store.Section` | umsections.c:109-118 | the new state is `Select` of the old one |
| `Umsections.Store.EmitWord` | umsections.c:120-126 | the new state is `Emit` of the old one; it requires a current section bound to words |
| `Umsections.Store.Length` | umsections.c:135-148 | returns the word count of a section that has words; otherwise it returns 0 and logs exactly one report, with text "Section <name> does NOT exist!\n"; the table is unchanged |
| `Umsections.Store.GetWord` | umsections.c:150-164 | logs `AccessErrors`, then yields word i exactly when the section has words and 0 <= i < length |
| `Umsections.Store.PutWord` | umsections.c:166-182 | logs `AccessErrors`, and the new table is `Put` of the old one; `ok` tells whether the word was there to overwrite |
| `Umsections.Store.Write` | umsections.c:184-189 | for a visiting order that lists every section once, returns the big-endian bytes of the sections in that order: 4 bytes per word, decoding back to the words |

## Left out

- `ummacros.c` is not part of this model. It holds only an unfinished `mov` and a `switch` with one unfinished case, and neither parses. The macro expander, the instruction encoder and the bit-field codec it would use are not in the source.
- `Umsections_free` and `table_free` are left out: they only release memory.
- `Umsections_map` and `table_apply` are left out: they hand each section name to a visitor in the hash table's unspecified order. The only visit order the model uses is the `order` parameter of `Store.Write`.
- `Umsections_error` is not modelled as a function pointer with its `errstate`. Each report becomes one entry of the ghost log `errors`, and `Message` gives its text. No caller uses the callback's return value.
- Names are compared by content. The table uses atom identity, and `section_exists` and `Umsections_section` look up the caller's pointer rather than its atom. So in the code a lookup finds an entry only when the caller passes the atom itself. The model's `Select` keeps an entry that has words only under that assumption: re-selecting such a section through a pointer that is not its atom makes `Table_get` (umsections.c:111) return `NULL`, and `Table_put` (umsections.c:113) then binds the name to `NULL`, discarding its words.
- `bitpack.h` is not part of this model. `Layout.ByteAt` stands for `Bitpack_getu` at width 8 only.
- The `FILE *` output becomes a returned byte sequence; `fputc` becomes appending one byte.
- Indices and lengths are unbounded integers. The C `int` range is not modelled.
- Umsections.Store.GetWord: the read that follows a failed check does not crash the model; it returns `None`, which stands for the fault.
- Umsections.Store.PutWord: a patch that follows a failed check does not crash the model; it returns `ok == false` and leaves the table as it was.
- Umsections.Store.EmitWord: emitting with no current section, or into a section with no words, makes the code dereference `NULL`. The model excludes it with a `requires` instead of modelling a fault.
- Umsections.Store.Write: a store with a section that was only selected is excluded by a `requires`, because `write_section` would take the length of a `NULL` sequence.
