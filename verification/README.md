# Mach-O load-command walker of dylib_mem_dump

`dylib_mem_dump` answers three questions about the dynamic libraries the
loader (dyld) has mapped into a process:

- `dylib_find_image_name_index` gives the index of the first loaded image
  whose path has a given last component.
- `dylib_find_base_reference` walks an image's load commands and gives two
  values: the static base address, which is the `vmaddr` of the `__TEXT`
  segment, and the entry offset, which is the `entryoff` of `LC_MAIN`.
- `dylib_find_sections` gives a pointer to every `section_64` record of
  every `LC_SEGMENT_64` command, in order.

This project models those three functions in Dafny.

- An image is the byte sequence that starts at its `mach_header_64`. Fields
  are read little-endian.
- The loader's image list is a sequence of `LoadedImage`s, each with a path
  and an optional header. An absent header stands for a NULL from
  `_dyld_get_image_header`.
- A pointer into the image is modelled as a byte offset from the header.
- A C out-parameter becomes an input holding the caller's value plus an
  output. The output is returned unchanged wherever the C does not write it.

Modules:

- `Bytes` holds the byte and fixed-width integer types and the little-endian
  decoder `FromLE`. It also holds the encoder `ToLE`, which is the
  decoder's inverse, with round-trip lemmas in both directions.
- `CString` models `strcmp` against a NUL-terminated literal, and `basename`.
- `MachO` holds the structure layouts and constants of `<mach-o/loader.h>`,
  the decoding of one load command, and `Walk`. `Walk` is the sequence of
  commands met by a cursor that starts after the header and advances by
  each command's `cmdsize`.
- `Images` holds the image list and the name lookup.
- `BaseRef` is `dylib_find_base_reference`. It has a reference definition
  (`BaseReferenceOf`) and a loop with the C's structure proved equal to it.
- `Sections` is `dylib_find_sections`. It has a reference definition
  (`SectionsOf`) and a loop with the C's structure proved equal to it.
- `Scenario` is a worked example: an executable with a `__TEXT` segment of
  three sections followed by `LC_MAIN`.

Strings are C strings: the image name and every image path are free of
NUL. Under that condition `strcmp` returning 0 is plain equality.

The C reads raw memory, and nothing stops it reading past the image.
`CommandInBounds` therefore asks exactly what each loop reads from a command
to lie inside the image:

- The base walker reads the 8-byte `load_command` prefix of every command.
  For LC_SEGMENT_64 it also reads `segname`. When that names `__TEXT`, it
  reads `vmaddr` too. For LC_MAIN it reads `entryoff`.
- The sections walker reads the prefix of every command. For LC_SEGMENT_64
  it also reads `nsects`.

`DecodeCommand` is total, and a payload field lying past the image decodes
as 0. The walkers never use such a field. `Walk` stops at the first command
whose reads would leave the image. Each query requires its walk to be as
long as the number of commands the C visits. For the base walker that is up
to its early exit. For the sections walker it is all `ncmds` commands.

`dylib_find_sections` returns NULL in two cases. The first is a missing
header, which leaves `*section_count` alone (`dylib_mem_dump.c:80`). The
second is an image whose segments declare no sections. There `sections`
stays at its initial NULL and `*section_count` at its reset value 0
(`dylib_mem_dump.c:84-85,92,112`). The header documents the result only as
"NULL on failure" (`dylib_mem_dump.h:55`). The model follows the code:
`SectionsOf` is `None` exactly when no command declares a section, and the
count then is 0.

## Model

| member | source | states |
|---|---|---|
| Images.FindImageNameIndex | dylib_mem_dump.c:7-29 | For NUL-free C strings, reports found exactly when some image's path has imageName as its last component. The index returned is the first such image. When nothing matches, the caller's index is left unchanged. |
| CString.Basename | dylib_mem_dump.c:19 | The last path component is a suffix of the path with no '/'. It is either the whole path or preceded by a '/'. |
| CString.BasenameUnique | dylib_mem_dump.c:19 | Any string with Basename's three properties equals Basename(path), so the contract determines the last component uniquely. |
| CString.StrCmp | dylib_mem_dump.c:52 | strcmp against a literal returns 0 exactly when the compared bytes, up to and including the literal's NUL, equal the literal. |
| MachO.TextSegmentIff | dylib_mem_dump.c:47-52 | A command is the `__TEXT` segment exactly when it is LC_SEGMENT_64 and its segname starts with the six bytes "__TEXT" followed by a NUL. The remaining nine bytes are never examined. |
| MachO.DecodeCommand | dylib_mem_dump.c:47-62 | The decoded command sits at the given offset and carries the `cmd` and `cmdsize` read there. It is a segment exactly when `cmd` is LC_SEGMENT_64, and an entry point exactly when `cmd` is LC_MAIN. |
| MachO.Walk | dylib_mem_dump.c:45-67 | The walk meets at most the requested number of commands. |
| MachO.WalkDecoded | dylib_mem_dump.c:45-62 | Every command of the walk lies inside the image as far as its walker reads, and is what the bytes at its offset decode to. |
| MachO.WalkOffset | dylib_mem_dump.c:40-67 | The first command of the walk is at the starting offset. Each later one is `cmdsize` bytes after the one before. |
| MachO.WalkAt | dylib_mem_dump.c:40-67 | The walk's first command sits right after the 32-byte header. Each later command sits `cmdsize` bytes after the one before. Each command is what the bytes at its offset decode to. |
| MachO.WalkStopsAtBound | dylib_mem_dump.c:45-67 | A walk shorter than `ncmds` ends exactly where the next command would be read outside the image. |
| Bytes.FromLEToLE | dylib_mem_dump.c:45 | Decoding the n-byte little-endian encoding of x gives x modulo 256^n. This is what reading a uint32/uint64 field yields. |
| Bytes.ToLEFromLE | dylib_mem_dump.c:45 | Re-encoding a decoded field gives back its bytes, so the decoder loses nothing. |
| BaseRef.LastIndex | dylib_mem_dump.c:53-62 | A field's final value comes from the last visited command of its kind: that command is of the kind and no later visited command is. |
| BaseRef.VisitedCount | dylib_mem_dump.c:45-64 | The walk stops right after the first command that completes the pair, or after all commands. No earlier point has both kinds seen. |
| BaseRef.BaseReferenceOf | dylib_mem_dump.c:42-70 | Each field of the result either keeps the caller's value or holds the value of some command of its kind: the vmaddr of a `__TEXT` segment, or the entryoff of an LC_MAIN. Success implies that both kinds occur. |
| BaseRef.FindBaseReference | dylib_mem_dump.c:31-71 | With no header, it fails and leaves the caller's struct alone. Otherwise it yields BaseReferenceOf the image's commands. It succeeds exactly when the image has both a `__TEXT` segment and an LC_MAIN. |
| BaseRef.WalkForBaseReference | dylib_mem_dump.c:40-70 | The C loop, with its early exit, computes the reference definition BaseReferenceOf: the verdict and the struct after the visited commands. |
| BaseRef.HandleCommand | dylib_mem_dump.c:47-65 | One loop round: `__TEXT` sets the base address and its flag, and LC_MAIN sets the entry offset and its flag. Other commands change nothing. The round stops exactly when both flags are set. |
| BaseRef.RecordedStep | dylib_mem_dump.c:47-65 | Processing one more command overwrites only the field of its kind, and marks only that kind as seen. |
| BaseRef.FoundIffBothPresent | dylib_mem_dump.c:42-70 | The early exit does not change the verdict: success means that both kinds occur anywhere in the commands. |
| BaseRef.SingleTextAndMain | dylib_mem_dump.c:52-64 | With exactly one `__TEXT` segment and one LC_MAIN, the result is success with exactly their vmaddr and entryoff, whatever the caller's struct held. |
| BaseRef.NotFoundWritesSeenFields | dylib_mem_dump.c:53-70 | On failure every command was visited. A field was written exactly when a command of its kind exists, and it holds the last such command's value. |
| Sections.SectionsOf | dylib_mem_dump.c:84-112 | The result is NULL exactly when no command is a segment declaring sections. A non-NULL list is as long as the count. |
| Sections.SectionTotalZero | dylib_mem_dump.c:92-96 | The section count stays 0 exactly when every command declares no section. |
| Sections.FindSections | dylib_mem_dump.c:73-113 | With no header, it returns NULL and leaves the caller's count alone. Otherwise it returns SectionsOf the commands: NULL exactly when the count is 0, and otherwise a list whose length is the count. |
| Sections.CollectSections | dylib_mem_dump.c:82-111 | The C loop over all `ncmds` commands computes the reference definition SectionsOf. |
| Sections.AppendSections | dylib_mem_dump.c:102-106 | The inner loop appends nsects references, 80 bytes apart, after those already collected. Reference j is first + 80*j. |
| Sections.SectionsOfSnoc | dylib_mem_dump.c:89-106 | The result for the commands followed by c is one loop round of c applied to the result without c. A segment with sections grows the count and appends its records, starting a fresh list after NULL. Other commands change nothing. |
| Sections.SectionRefsLength | dylib_mem_dump.c:95-103 | There is one reference per declared section: the list is as long as the sum of `nsects`. |
| Sections.SectionRefsAt | dylib_mem_dump.c:94-106 | Ordering: section j of command i sits at position (sections of earlier commands) + j. It refers to the record 72 + 80*j bytes after that command. |
| Sections.SectionCountFits | dylib_mem_dump.c:96 | The section count, a sum of at most 2^32 - 1 uint32 values, never wraps a 64-bit `size_t`. |
| Scenario.ExampleWalk | dylib_mem_dump.c:40-67 | Both walkers decode the example's 368 bytes into a `__TEXT` segment at offset 32 with vmaddr 0x100000000 and three sections, followed by LC_MAIN at offset 344 with entryoff 0x4010. |
| Scenario.ExampleBaseReference | dylib_mem_dump.c:45-70 | For those two commands the result is success with {0x100000000, 0x4010}, whatever the caller's struct held. |
| Scenario.ExampleSections | dylib_mem_dump.c:87-111 | For the same two commands, the three sections of `__TEXT` are found at offsets 104, 184 and 264, in that order. |
| Scenario.ExampleFindImage | dylib_mem_dump.c:7-29 | In a process whose only image is "/usr/local/bin/example", the name "example" is found at index 0. |
| Scenario.ExampleFindBaseReference | dylib_mem_dump.c:31-71 | The query on that image's bytes succeeds with {0x100000000, 0x4010}. |
| Scenario.ExampleFindSections | dylib_mem_dump.c:73-113 | The query on that image's bytes returns the three section records at offsets 104, 184 and 264, with a count of 3. |
| Scenario.TruncatedMainWalk | dylib_mem_dump.c:45-62 | An image that ends right after the `entryoff` of its only command, an LC_MAIN, is walkable by the base walker: the walk meets that command with entryoff 0. |
| Scenario.TruncatedMainQuery | dylib_mem_dump.c:59-70 | On that image the query fails for want of a `__TEXT` segment, yet stores the entry offset it read and leaves the base address as the caller had it. |

## Left out

- The loader calls `_dyld_image_count`, `_dyld_get_image_name` and `_dyld_get_image_header` are not modelled. Their results are inputs: the image list and each image's header bytes.
- CString.Basename: models the last component after the final '/' only. POSIX `basename` returns "." for an empty path and strips trailing slashes; here a path ending in '/' has an empty last component.
- The failure of `realloc` is not modelled, because allocation is outside the model. In the C, a failed `realloc` returns NULL, leaks the earlier array and leaves `*section_count` already increased. The model always allocates.
- `realloc` sizes the pointer array by `sizeof(struct section_64)` rather than by the size of a pointer. This only over-allocates and is not modelled.
- Pointer identity and memory lifetime, including the caller's duty to `free` the array, are not modelled. A pointer is an offset from the image header.
- `main` is an empty stub and is not modelled.
- 32-bit images (`mach_header`, LC_SEGMENT) and fat binaries are not modelled. The C reads every image as a 64-bit Mach-O, and so does the model.
- BaseRef.FindBaseReference: requires the whole 16-byte `segname` of each visited segment to be inside the image. `strcmp` against "__TEXT" stops at the first differing byte or NUL, so it reads at most 7 bytes.
- BaseRef.WalkForBaseReference: requires the whole 16-byte `segname` of each visited segment to be inside the image, as for FindBaseReference.
- BaseRef.HandleCommand: requires the whole 16-byte `segname` of a segment to be inside the image, as for FindBaseReference.
- Calling any of the three queries twice gives the same answer, because the model's functions are pure. No idempotence lemma is stated for that reason.
