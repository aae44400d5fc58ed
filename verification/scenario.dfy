/**
 A worked example: an executable whose header declares two load commands,
 a `__TEXT` segment at `vmaddr` 0x100000000 with three sections, followed
 by LC_MAIN with `entryoff` 0x4010.
 */
module Scenario {
  import opened Bytes
  import opened Wrappers
  import opened MachO
  import opened BaseRef
  import opened Sections
  import opened Images
  import opened CString

  /** "__TEXT" padded with NULs to the 16 bytes of `segname`. */
  const TextSegname: seq<Byte> :=
    [0x5F, 0x5F, 0x54, 0x45, 0x58, 0x54, 0, 0, 0, 0, 0, 0, 0, 0, 0, 0]

  /**
   The decoded walk: the segment right after the 32-byte header, 72 + 3 * 80
   = 312 bytes long, then the 24-byte LC_MAIN.
   */
  function ExampleCommands(): seq<Command>
  {
    [ Command(32, LC_SEGMENT_64, 312, Segment64(TextSegname, 0x1_0000_0000, 3)),
      Command(344, LC_MAIN, 24, EntryPoint(0x4010)) ]
  }

  /** Byte i of the example image; every byte not listed is 0. */
  function ExampleByte(i: int): Byte
  {
    if 0 <= i < 4 then [0xCF, 0xFA, 0xED, 0xFE][i]       // magic MH_MAGIC_64
    else if i == 16 then 2                                // ncmds
    else if i == 20 then 0x50 else if i == 21 then 0x01   // sizeofcmds 336
    else if i == 32 then 0x19                             // LC_SEGMENT_64
    else if i == 36 then 0x38 else if i == 37 then 0x01   // cmdsize 312
    else if 40 <= i < 56 then TextSegname[i - 40]         // segname
    else if i == 60 then 0x01                             // vmaddr 0x1_0000_0000
    else if i == 96 then 3                                // nsects
    else if i == 344 then 0x28 else if i == 347 then 0x80 // LC_MAIN
    else if i == 348 then 24                              // cmdsize
    else if i == 352 then 0x10 else if i == 353 then 0x40 // entryoff 0x4010
    else 0
  }

  /** The example image: header, segment command, three sections, LC_MAIN. */
  function ExampleImage(): (img: seq<Byte>)
    ensures |img| == 368
    ensures forall i :: 0 <= i < |img| ==> img[i] == ExampleByte(i)
  {
    seq(368, i => ExampleByte(i))
  }

  /** The value of four little-endian bytes. */
  lemma {:induction false} FromLE4(bs: seq<Byte>)
    requires |bs| == 4
    ensures FromLE(bs) == bs[0] as int + 0x100 * (bs[1] as int) + 0x1_0000 * (bs[2] as int) + 0x100_0000 * (bs[3] as int)
  {
    var t1 := bs[1..];
    var t2 := t1[1..];
    var t3 := t2[1..];
    assert FromLE(t3[1..]) == 0;
    assert FromLE(t3) == bs[3];
    assert FromLE(t2) == bs[2] as int + 0x100 * (bs[3] as int);
    assert FromLE(t1) == bs[1] as int + 0x100 * FromLE(t2);
  }

  /** The value of eight little-endian bytes: the low word plus 2^32 times the high one. */
  lemma {:induction false} FromLE8(bs: seq<Byte>)
    requires |bs| == 8
    ensures FromLE(bs) == FromLE(bs[..4]) + 0x1_0000_0000 * FromLE(bs[4..])
  {
    var t1 := bs[1..];
    var t2 := t1[1..];
    var t3 := t2[1..];
    var t4 := t3[1..];
    assert t4 == bs[4..];
    FromLE4(bs[..4]);
    assert FromLE(t3) == bs[3] as int + 0x100 * FromLE(t4);
    assert FromLE(t2) == bs[2] as int + 0x100 * FromLE(t3);
    assert FromLE(t1) == bs[1] as int + 0x100 * FromLE(t2);
  }

  /** The header and command fields of the example image, read as the walkers read them. */
  lemma ExampleWords()
    ensures Ncmds(ExampleImage()) == 2
    ensures U32At(ExampleImage(), 32) == LC_SEGMENT_64
    ensures U32At(ExampleImage(), 36) == 312
    ensures U32At(ExampleImage(), 96) == 3
    ensures U32At(ExampleImage(), 344) == LC_MAIN
    ensures U32At(ExampleImage(), 348) == 24
  {
    var img := ExampleImage();
    FromLE4(img[16..20]);
    FromLE4(img[32..36]);
    FromLE4(img[36..40]);
    FromLE4(img[96..100]);
    FromLE4(img[344..348]);
    FromLE4(img[348..352]);
  }

  lemma ExampleVmaddr()
    ensures U64At(ExampleImage(), 56) == 0x1_0000_0000
  {
    var bs := ExampleImage()[56..64];
    assert bs == [0, 0, 0, 0, 1, 0, 0, 0];
    FromLE8(bs);
    FromLE4(bs[..4]);
    FromLE4(bs[4..]);
    Pow256Widths();
  }

  lemma ExampleEntryoff()
    ensures U64At(ExampleImage(), 352) == 0x4010
  {
    var bs := ExampleImage()[352..360];
    assert bs == [0x10, 0x40, 0, 0, 0, 0, 0, 0];
    FromLE8(bs);
    FromLE4(bs[..4]);
    FromLE4(bs[4..]);
    Pow256Widths();
  }

  /** The segment's name field holds "__TEXT" padded with NULs. */
  lemma ExampleSegname()
    ensures ExampleImage()[40..56] == TextSegname
  {
  }

  /** The first command is the `__TEXT` segment, and both walkers may read it. */
  lemma {:induction false} ExampleSegment(w: Walker)
    ensures CommandInBounds(w, ExampleImage(), 32)
    ensures DecodeCommand(ExampleImage(), 32) == ExampleCommands()[0]
  {
    var img := ExampleImage();
    ExampleWords();
    ExampleVmaddr();
    TextSegmentNameMatches();
    ExampleSegname();
    DecodedFields(img, 32);
  }

  /** The second command is LC_MAIN, and both walkers may read it. */
  lemma {:induction false} ExampleMain(w: Walker)
    ensures CommandInBounds(w, ExampleImage(), 344)
    ensures DecodeCommand(ExampleImage(), 344) == ExampleCommands()[1]
  {
    var img := ExampleImage();
    ExampleWords();
    ExampleEntryoff();
    DecodedFields(img, 344);
  }

  /** Both walkers decode the example image's bytes into the two commands. */
  lemma {:induction false} ExampleWalk(w: Walker)
    ensures |ExampleImage()| >= NcmdsOffset + 4
    ensures Commands(w, ExampleImage()) == ExampleCommands()
  {
    var img := ExampleImage();
    var cs := ExampleCommands();
    ExampleWords();
    ExampleSegment(w);
    ExampleMain(w);
    assert Walk(w, img, 368, 0) == [];
    assert Walk(w, img, 344, 1) == [cs[1]];
    assert Walk(w, img, 32, 2) == [cs[0], cs[1]];
  }

  /** The base reference is {0x100000000, 0x4010} whatever the caller's struct held. */
  lemma {:induction false} ExampleBaseReference(prior: BaseReference)
    ensures BaseReferenceOf(ExampleCommands(), prior) == (true, BaseReference(0x1_0000_0000, 0x4010))
  {
    var cs := ExampleCommands();
    TextSegmentNameMatches();
    assert IsTextSegment(cs[0]) && !IsTextSegment(cs[1]);
    SingleTextAndMain(cs, 0, 1, prior);
  }

  /** The sections are the three records following the segment command, in order. */
  lemma ExampleSections()
    ensures SectionsOf(ExampleCommands()) == (Some([104, 184, 264]), 3)
  {
    var cs := ExampleCommands();
    assert cs[..1] == [cs[0]] && cs[..1][..0] == [];
    assert cs[..2] == cs;
    assert SectionTotal(cs[..1]) == 3 && SectionTotal(cs) == 3;
    assert SectionRun(104, 3) == [104, 184, 264];
    assert SectionRefs(cs[..1]) == SectionRun(104, 3);
    assert SectionRefs(cs) == [104, 184, 264];
    assert SectionsOf(cs) == (Some(SectionRefs(cs)), 3);
  }

  /** A process with the example executable as its only image. */
  function ExampleImages(): seq<LoadedImage>
  {
    [LoadedImage(ExamplePathName(), Some(ExampleImage()))]
  }

  function ExamplePathName(): string
  {
    "/usr/local/bin/example"
  }

  /** The executable's path is a C string: it holds no NUL. */
  lemma ExamplePathNul()
    ensures '\0' !in ExamplePathName()
  {
  }

  /** The last component of the executable's path is "example". */
  lemma ExamplePath()
    ensures Basename(ExamplePathName()) == "example"
  {
    var path := ExamplePathName();
    assert path[|path| - 7..] == "example" && path[|path| - 8] == '/';
    BasenameUnique(path, "example");
  }

  /** `dylib_find_image_name_index` finds the executable by the name "example" at index 0. */
  method ExampleFindImage() returns (found: bool, index: uint32)
    ensures found && index == 0
  {
    var images := ExampleImages();
    ExamplePath();
    ExamplePathNul();
    assert NameMatches(images, 0, "example");
    found, index := FindImageNameIndex(images, "example", 0);
  }

  /** `dylib_find_base_reference` on that image gives {0x100000000, 0x4010}. */
  method ExampleFindBaseReference() returns (found: bool, reference: BaseReference)
    ensures found && reference == BaseReference(0x1_0000_0000, 0x4010)
  {
    var images := ExampleImages();
    assert ImageHeader(images, 0) == Some(ExampleImage());
    ExampleWords();
    ExampleBaseReference(BaseReference(0, 0));
    ExampleWalk(BaseWalker);
    assert BaseWalkInBounds(images, 0);
    found, reference := FindBaseReference(images, 0, BaseReference(0, 0));
  }

  /** `dylib_find_sections` on that image gives the three records of `__TEXT`. */
  method ExampleFindSections() returns (sections: Option<seq<nat>>, count: uint64)
    ensures sections == Some([104, 184, 264]) && count == 3
  {
    var images := ExampleImages();
    assert ImageHeader(images, 0) == Some(ExampleImage());
    ExampleWords();
    ExampleSections();
    ExampleWalk(SectionWalker);
    assert SectionWalkInBounds(images, 0);
    sections, count := FindSections(images, 0, 0);
  }

  /**
   A 48-byte image whose header declares one command: an LC_MAIN with
   `cmdsize` 24 and `entryoff` 0, cut off right after `entryoff`.
   */
  function TruncatedMainImage(): (img: seq<Byte>)
    ensures |img| == 48
  {
    seq(48, i => if i == 16 then 1 else if i == 32 then 0x28 else if i == 35 then 0x80 else if i == 36 then 24 else 0)
  }

  /** The 32-bit fields of the truncated image, read as the base walker reads them. */
  lemma TruncatedMainWords()
    ensures Ncmds(TruncatedMainImage()) == 1
    ensures U32At(TruncatedMainImage(), 32) == LC_MAIN
    ensures U32At(TruncatedMainImage(), 36) == 24
  {
    var img := TruncatedMainImage();
    FromLE4(img[16..20]);
    FromLE4(img[32..36]);
    FromLE4(img[36..40]);
  }

  /** The truncated image's `entryoff` is 0. */
  lemma TruncatedMainEntryoff()
    ensures U64At(TruncatedMainImage(), 40) == 0
  {
    var bs := TruncatedMainImage()[40..48];
    assert bs[..4] == bs[4..] == [0, 0, 0, 0];
    FromLE8(bs);
    FromLE4(bs[..4]);
    FromLE4(bs[4..]);
  }

  /** The base walker may read the truncated LC_MAIN: it needs no byte past `entryoff`. */
  lemma TruncatedMainWalk()
    ensures Ncmds(TruncatedMainImage()) == 1
    ensures Commands(BaseWalker, TruncatedMainImage()) == [Command(32, LC_MAIN, 24, EntryPoint(0))]
  {
    var img := TruncatedMainImage();
    TruncatedMainWords();
    TruncatedMainEntryoff();
    DecodedFields(img, 32);
    assert CommandInBounds(BaseWalker, img, 32);
    assert Walk(BaseWalker, img, 32, 1) == [DecodeCommand(img, 32)];
  }

  /**
   `dylib_find_base_reference` on the truncated image: it reads `entryoff`,
   stores it, and fails for want of a `__TEXT` segment.
   */
  method TruncatedMainQuery() returns (found: bool, reference: BaseReference)
    ensures !found && reference == BaseReference(7, 0)
  {
    var images := [LoadedImage("/usr/local/bin/truncated", Some(TruncatedMainImage()))];
    TruncatedMainWalk();
    var cs := [Command(32, LC_MAIN, 24, EntryPoint(0))];
    assert !IsTextSegment(cs[0]);
    NotFoundWritesSeenFields(cs, BaseReference(7, 7));
    assert ImageHeader(images, 0) == Some(TruncatedMainImage());
    found, reference := FindBaseReference(images, 0, BaseReference(7, 7));
  }

  lemma TextSegmentNameMatches()
    ensures CString.StrCmp(TextSegname, TextSegmentName, 0) == 0
  {
    assert TextSegname[0..7] == TextSegmentName[0..];
  }
}
