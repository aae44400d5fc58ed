/**
 `dylib_find_sections`: a reference to every `section_64` record of every
 LC_SEGMENT_64 command of an image, in load-command order and, within a
 segment, in the order the records follow its `segment_command_64`. A
 reference is the record's byte offset from the image's header.
 */
module Sections {
  import opened Bytes
  import opened Wrappers
  import opened MachO
  import opened Images

  /** `nsects` of a segment command; other commands declare no sections. */
  function NsectsOf(c: Command): nat
  {
    if c.payload.Segment64? then c.payload.nsects else 0
  }

  /** n section records laid back to back from first on. */
  function SectionRun(first: nat, n: nat): (refs: seq<nat>)
    ensures |refs| == n
  {
    if n == 0 then [] else SectionRun(first, n - 1) + [first + SectionSize * (n - 1)]
  }

  /** The section records that follow a command's fixed header. */
  function SegmentSections(c: Command): seq<nat>
  {
    SectionRun(c.offset + SegmentCommandSize, NsectsOf(c))
  }

  /** The sections of the commands cs, segment after segment. */
  function SectionRefs(cs: seq<Command>): seq<nat>
  {
    if cs == [] then [] else SectionRefs(cs[..|cs| - 1]) + SegmentSections(cs[|cs| - 1])
  }

  /** The sum of `nsects` over the segment commands of cs. */
  function SectionTotal(cs: seq<Command>): nat
  {
    if cs == [] then 0 else SectionTotal(cs[..|cs| - 1]) + NsectsOf(cs[|cs| - 1])
  }

  /** Record j of a run is 80 * j bytes after its first. */
  lemma {:induction false} SectionRunAt(first: nat, n: nat, j: nat)
    requires j < n
    ensures SectionRun(first, n)[j] == first + SectionSize * j
  {
    if j < n - 1 {
      SectionRunAt(first, n - 1, j);
    }
  }

  /** One reference per declared section: the list is as long as the count. */
  lemma {:induction false} SectionRefsLength(cs: seq<Command>)
    ensures |SectionRefs(cs)| == SectionTotal(cs)
    decreases |cs|
  {
    if cs != [] {
      SectionRefsLength(cs[..|cs| - 1]);
    }
  }

  /**
   The ordering contract: section j of the i-th command sits at position
   (sections of the commands before it) + j, and refers to the record 72 +
   80 * j bytes after that command.
   */
  lemma {:induction false} SectionRefsAt(cs: seq<Command>, i: nat, j: nat)
    requires i < |cs| && j < NsectsOf(cs[i])
    ensures SectionTotal(cs[..i]) + j < |SectionRefs(cs)|
    ensures SectionRefs(cs)[SectionTotal(cs[..i]) + j]
         == cs[i].offset + SegmentCommandSize + SectionSize * j
    decreases |cs|
  {
    var m := |cs| - 1;
    var init := cs[..m];
    SectionRefsLength(init);
    if i == m {
      SectionRunAt(cs[i].offset + SegmentCommandSize, NsectsOf(cs[i]), j);
    } else {
      assert init[..i] == cs[..i] && init[i] == cs[i];
      SectionRefsAt(init, i, j);
    }
  }

  /** Each command adds at most a 32-bit `nsects` to the count. */
  lemma {:induction false} SectionTotalBound(cs: seq<Command>)
    ensures SectionTotal(cs) <= |cs| * MaxUint32
    decreases |cs|
  {
    if cs != [] {
      SectionTotalBound(cs[..|cs| - 1]);
    }
  }

  /**
   With at most 2^32 - 1 commands (`ncmds` is 32 bits) the count never
   overflows the 64-bit `size_t` it is accumulated in.
   */
  lemma {:induction false} SectionCountFits(cs: seq<Command>)
    requires |cs| <= MaxUint32
    ensures SectionTotal(cs) < 0x1_0000_0000_0000_0000
  {
    SectionTotalBound(cs);
    assert |cs| * MaxUint32 <= MaxUint32 * MaxUint32;
  }

  /**
   The C's result: NULL with a count of 0 when no segment declares a
   section, and otherwise the references with their number.
   */
  function SectionsOf(cs: seq<Command>): (r: (Option<seq<nat>>, nat))
    ensures r.0.None? <==> forall i :: 0 <= i < |cs| ==> NsectsOf(cs[i]) == 0
    ensures r.0.Some? ==> |r.0.value| == r.1
  {
    var count := SectionTotal(cs);
    SectionTotalZero(cs);
    SectionRefsLength(cs);
    (if count == 0 then None else Some(SectionRefs(cs)), count)
  }

  /** The total is 0 exactly when no command declares a section. */
  lemma {:induction false} SectionTotalZero(cs: seq<Command>)
    ensures SectionTotal(cs) == 0 <==> forall i :: 0 <= i < |cs| ==> NsectsOf(cs[i]) == 0
    decreases |cs|
  {
    if cs != [] {
      var init := cs[..|cs| - 1];
      SectionTotalZero(init);
      assert forall i :: 0 <= i < |init| ==> init[i] == cs[i];
    }
  }

  /** Every command of the image can be read: the section walk never breaks. */
  predicate SectionWalkInBounds(images: seq<LoadedImage>, imageIndex: uint32)
  {
    match ImageHeader(images, imageIndex)
    case None => true
    case Some(img) => |img| >= NcmdsOffset + 4 && |Commands(SectionWalker, img)| == Ncmds(img)
  }

  /**
   `dylib_find_sections`: a missing header yields NULL and leaves the
   caller's count alone; otherwise the count is reset and the commands are
   walked.
   */
  method FindSections(images: seq<LoadedImage>, imageIndex: uint32, sectionCount: uint64)
    returns (sections: Option<seq<nat>>, count: uint64)
    requires SectionWalkInBounds(images, imageIndex)
    ensures ImageHeader(images, imageIndex).None? ==> sections == None && count == sectionCount
    ensures ImageHeader(images, imageIndex).Some? ==>
              (sections, count as nat) == SectionsOf(Commands(SectionWalker, ImageHeader(images, imageIndex).value))
    ensures ImageHeader(images, imageIndex).Some? ==> (sections.Some? <==> count > 0)
    ensures sections.Some? ==> |sections.value| == count
  {
    var header := ImageHeader(images, imageIndex);
    if header.None? {
      return None, sectionCount;
    }
    sections, count := CollectSections(header.value);
    SectionRefsLength(Commands(SectionWalker, header.value));
  }

  /**
   The loop of `dylib_find_sections`: a cursor over the image bytes that
   visits all `ncmds` commands, and for each segment with sections grows
   the count and appends the segment's section references.
   */
  method CollectSections(img: seq<Byte>) returns (sections: Option<seq<nat>>, count: uint64)
    requires |img| >= NcmdsOffset + 4 && |Commands(SectionWalker, img)| == Ncmds(img)
    ensures (sections, count as nat) == SectionsOf(Commands(SectionWalker, img))
  {
    sections := None;
    count := 0;
    var ncmds := Ncmds(img);
    var loadCmd: nat := HeaderSize;
    var nCmd: uint32 := 0;
    CollectedStart(img);
    while nCmd < ncmds
      invariant nCmd <= ncmds
      invariant Collected(img, nCmd, loadCmd, sections, count)
    {
      CollectedHasNext(img, nCmd, loadCmd, sections, count);
      ghost var before := (sections, count);
      if U32At(img, loadCmd) == LC_SEGMENT_64 {
        var nsects := U32At(img, loadCmd + NsectsOffset);
        if nsects != 0 {
          var section := loadCmd + SegmentCommandSize;
          count := count + nsects;
          var grown := if sections.None? then [] else sections.value;
          grown := AppendSections(grown, section, nsects);
          sections := Some(grown);
        }
      }
      var cmdsize := U32At(img, loadCmd + CmdsizeOffset);
      CollectedStep(img, nCmd, loadCmd, before.0, before.1, loadCmd + cmdsize, sections, count);
      loadCmd := loadCmd + cmdsize;
      nCmd := nCmd + 1;
    }
    assert Commands(SectionWalker, img)[..nCmd] == Commands(SectionWalker, img);
  }

  /**
   The loop's state after k rounds: the cursor is at command k, and the
   count and the collected references are those of the first k commands,
   with NULL standing for "nothing collected yet".
   */
  ghost predicate Collected(img: seq<Byte>, k: nat, loadCmd: nat, sections: Option<seq<nat>>, count: nat)
    requires |img| >= NcmdsOffset + 4
  {
    var cs := Commands(SectionWalker, img);
    && k <= |cs|
    && (k < |cs| ==> loadCmd == cs[k].offset)
    && (sections, count) == SectionsOf(cs[..k])
  }

  lemma {:induction false} CollectedStart(img: seq<Byte>)
    requires |img| >= NcmdsOffset + 4
    ensures Collected(img, 0, HeaderSize, None, 0)
  {
    if 0 < |Commands(SectionWalker, img)| {
      WalkAt(SectionWalker, img, HeaderSize, Ncmds(img), 0);
    }
    assert Commands(SectionWalker, img)[..0] == [];
  }

  /**
   While the loop runs, the command under the cursor was decoded by the
   walk, and adding its sections keeps the count within 64 bits.
   */
  lemma {:induction false} CollectedHasNext(img: seq<Byte>, k: nat, loadCmd: nat, sections: Option<seq<nat>>, count: nat)
    requires |img| >= NcmdsOffset + 4 && |Commands(SectionWalker, img)| == Ncmds(img) && k < Ncmds(img)
    requires Collected(img, k, loadCmd, sections, count)
    ensures CommandInBounds(SectionWalker, img, loadCmd)
    ensures var c := Commands(SectionWalker, img)[k];
            && c.offset == loadCmd
            && c.cmdsize == U32At(img, loadCmd + CmdsizeOffset)
            && NsectsOf(c) == if U32At(img, loadCmd) == LC_SEGMENT_64
                              then U32At(img, loadCmd + NsectsOffset) else 0
    ensures count + NsectsOf(Commands(SectionWalker, img)[k]) < 0x1_0000_0000_0000_0000
  {
    var cs := Commands(SectionWalker, img);
    WalkAt(SectionWalker, img, HeaderSize, Ncmds(img), k);
    DecodedFields(img, loadCmd);
    assert cs[..k + 1][..k] == cs[..k];
    SectionCountFits(cs[..k + 1]);
  }

  /**
   One round of the loop on command c: a segment with sections grows the
   count and appends its references (starting a new list when none was
   allocated yet); any other command leaves both alone.
   */
  function AddSections(acc: (Option<seq<nat>>, nat), c: Command): (Option<seq<nat>>, nat)
  {
    var n := NsectsOf(c);
    if n == 0 then acc
    else (Some((if acc.0.None? then [] else acc.0.value) + SegmentSections(c)), acc.1 + n)
  }

  /**
   The loop computes the result command by command: the sections of cs
   followed by c are those of cs with c's round applied to them, so the
   NULL-until-first-section convention and the reference order are what
   SectionsOf states.
   */
  lemma {:induction false} SectionsOfSnoc(cs: seq<Command>, c: Command)
    ensures SectionsOf(cs + [c]) == AddSections(SectionsOf(cs), c)
  {
    var cs' := cs + [c];
    assert cs'[..|cs'| - 1] == cs;
    assert SectionRefs(cs') == SectionRefs(cs) + SegmentSections(c);
    SectionRefsLength(cs);
    if SectionTotal(cs) == 0 {
      assert SectionRefs(cs) == [];
    }
    if NsectsOf(c) == 0 {
      assert SegmentSections(c) == [];
      assert SectionRefs(cs') == SectionRefs(cs);
    }
  }

  /** One round of the loop moves the cursor and the state on by one command. */
  lemma {:induction false} CollectedStep(img: seq<Byte>, k: nat, loadCmd: nat, sections: Option<seq<nat>>, count: nat,
                      loadCmd': nat, sections': Option<seq<nat>>, count': nat)
    requires |img| >= NcmdsOffset + 4 && k < |Commands(SectionWalker, img)|
    requires Collected(img, k, loadCmd, sections, count)
    requires loadCmd' == loadCmd + Commands(SectionWalker, img)[k].cmdsize
    requires (sections', count') == AddSections((sections, count), Commands(SectionWalker, img)[k])
    ensures Collected(img, k + 1, loadCmd', sections', count')
  {
    var cs := Commands(SectionWalker, img);
    assert cs[..k + 1] == cs[..k] + [cs[k]];
    SectionsOfSnoc(cs[..k], cs[k]);
    if k + 1 < |cs| {
      WalkAt(SectionWalker, img, HeaderSize, Ncmds(img), k + 1);
    }
  }

  /**
   The inner loop: nsects pointers, one `section_64` apart, stored after
   the ones already collected.
   */
  method AppendSections(sections: seq<nat>, first: nat, nsects: uint32) returns (grown: seq<nat>)
    ensures grown == sections + SectionRun(first, nsects)
    ensures |grown| == |sections| + nsects
    ensures forall j :: 0 <= j < nsects ==> grown[|sections| + j] == first + SectionSize * j
  {
    grown := sections;
    var section := first;
    var nSec: uint32 := 0;
    while nSec < nsects
      invariant nSec <= nsects
      invariant grown == sections + SectionRun(first, nSec)
      invariant section == first + SectionSize * nSec
    {
      grown := grown + [section];
      assert SectionRun(first, nSec + 1) == SectionRun(first, nSec) + [first + SectionSize * nSec];
      section := section + SectionSize;
      nSec := nSec + 1;
    }
    forall j | 0 <= j < nsects
      ensures grown[|sections| + j] == first + SectionSize * j
    {
      SectionRunAt(first, nsects, j);
    }
  }
}
