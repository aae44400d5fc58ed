/**
 The part of the 64-bit Mach-O object format (Apple's `<mach-o/loader.h>`)
 that the walker reads: the `mach_header_64`, the generic `load_command`
 prefix, `segment_command_64` (LC_SEGMENT_64), `entry_point_command`
 (LC_MAIN) and `section_64`. An image is the byte sequence that starts at
 its header; every offset below is relative to that first byte.
 */
module MachO {
  import opened Bytes
  import opened CString

  /** sizeof(struct mach_header_64); the first load command follows it. */
  const HeaderSize: nat := 32
  const NcmdsOffset: nat := 16

  /** sizeof(struct load_command): `cmd` at +0, `cmdsize` at +4. */
  const LoadCommandSize: nat := 8
  const CmdsizeOffset: nat := 4

  /** sizeof(struct segment_command_64) and the offsets of the fields read. */
  const SegmentCommandSize: nat := 72
  const SegnameOffset: nat := 8
  const SegnameSize: nat := 16
  const VmaddrOffset: nat := 24
  const NsectsOffset: nat := 64

  /** sizeof(struct entry_point_command) and the offset of `entryoff`. */
  const EntryPointCommandSize: nat := 24
  const EntryoffOffset: nat := 8

  /** sizeof(struct section_64). */
  const SectionSize: nat := 80

  const LC_SEGMENT_64: uint32 := 0x19
  /** 0x28 with the LC_REQ_DYLD bit 0x80000000 set. */
  const LC_MAIN: uint32 := 0x8000_0028

  /** "__TEXT" with its terminating NUL, as the C literal lays it out. */
  const TextSegmentName: seq<Byte> := [0x5F, 0x5F, 0x54, 0x45, 0x58, 0x54, 0x00]

  function U32At(img: seq<Byte>, off: nat): uint32
    requires off + 4 <= |img|
  {
    Pow256Widths();
    FromLE(img[off..off + 4])
  }

  function U64At(img: seq<Byte>, off: nat): uint64
    requires off + 8 <= |img|
  {
    Pow256Widths();
    FromLE(img[off..off + 8])
  }

  /** `header->ncmds`: the header bytes the walkers read end with it. */
  function Ncmds(img: seq<Byte>): uint32
    requires |img| >= NcmdsOffset + 4
  {
    U32At(img, NcmdsOffset)
  }

  /**
   A uint32 field at off, or 0 when the field runs past the image. A walker
   never uses such a field: CommandInBounds keeps every field it reads
   inside the image.
   */
  function FieldU32(img: seq<Byte>, off: nat): uint32
  {
    if off + 4 <= |img| then U32At(img, off) else 0
  }

  /** A uint64 field at off, or 0 when it runs past the image. */
  function FieldU64(img: seq<Byte>, off: nat): uint64
  {
    if off + 8 <= |img| then U64At(img, off) else 0
  }

  /** An n-byte field at off, or n NULs when it runs past the image. */
  function FieldBytes(img: seq<Byte>, off: nat, n: nat): (bs: seq<Byte>)
    ensures |bs| == n
  {
    if off + n <= |img| then img[off..off + n] else seq(n, _ => 0)
  }

  /** `strcmp(segname, "__TEXT") == 0` on the 16-byte `segname` field. */
  predicate NamesText(segname: seq<Byte>)
  {
    |segname| == SegnameSize && StrCmp(segname, TextSegmentName, 0) == 0
  }

  /** The two loops that walk the load commands; they read different fields. */
  datatype Walker = BaseWalker | SectionWalker

  /**
   Every byte walker w reads of the command at off lies inside the image.
   Both read the `load_command` prefix. The base walker reads a segment's
   `segname`, and its `vmaddr` only when the name is "__TEXT", and an
   LC_MAIN's `entryoff`. The section walker reads a segment's `nsects`.
   */
  predicate CommandInBounds(w: Walker, img: seq<Byte>, off: nat)
  {
    && off + LoadCommandSize <= |img|
    && if w.BaseWalker? then
         && (U32At(img, off) == LC_SEGMENT_64 ==>
               && off + SegnameOffset + SegnameSize <= |img|
               && (NamesText(img[off + SegnameOffset..off + SegnameOffset + SegnameSize]) ==>
                     off + VmaddrOffset + 8 <= |img|))
         && (U32At(img, off) == LC_MAIN ==> off + EntryoffOffset + 8 <= |img|)
       else
         U32At(img, off) == LC_SEGMENT_64 ==> off + NsectsOffset + 4 <= |img|
  }

  /** The fields of a load command the walkers look at, by its tag. */
  datatype Payload =
    | Segment64(segname: seq<Byte>, vmaddr: uint64, nsects: uint32)
    | EntryPoint(entryoff: uint64)
    | Unhandled

  datatype Command = Command(offset: nat, cmd: uint32, cmdsize: uint32, payload: Payload)

  /**
   The command at off, read through the structure its tag selects:
   `segment_command_64` for LC_SEGMENT_64, `entry_point_command` for
   LC_MAIN. Each field is the little-endian value at its offset in that
   structure, whenever the field lies inside the image.
   */
  function DecodeCommand(img: seq<Byte>, off: nat): (c: Command)
    requires off + LoadCommandSize <= |img|
    ensures c.offset == off
    ensures c.cmd == U32At(img, off) && c.cmdsize == U32At(img, off + CmdsizeOffset)
    ensures c.payload.Segment64? <==> c.cmd == LC_SEGMENT_64
    ensures c.payload.EntryPoint? <==> c.cmd == LC_MAIN
  {
    var cmd := U32At(img, off);
    var payload :=
      if cmd == LC_SEGMENT_64 then
        Segment64(FieldBytes(img, off + SegnameOffset, SegnameSize),
                  FieldU64(img, off + VmaddrOffset), FieldU32(img, off + NsectsOffset))
      else if cmd == LC_MAIN then EntryPoint(FieldU64(img, off + EntryoffOffset))
      else Unhandled;
    Command(off, cmd, U32At(img, off + CmdsizeOffset), payload)
  }

  /**
   The payload fields of a decoded command are the little-endian values at
   their offsets in the structure the tag selects, whenever they lie inside
   the image; a field past the image is never one a walker reads.
   */
  lemma {:induction false} DecodedFields(img: seq<Byte>, off: nat)
    requires off + LoadCommandSize <= |img|
    ensures var c := DecodeCommand(img, off);
            && (c.payload.Segment64? ==> |c.payload.segname| == SegnameSize)
            && (c.payload.Segment64? && off + SegnameOffset + SegnameSize <= |img| ==>
                  c.payload.segname == img[off + SegnameOffset..off + SegnameOffset + SegnameSize])
            && (c.payload.Segment64? && off + VmaddrOffset + 8 <= |img| ==>
                  c.payload.vmaddr == U64At(img, off + VmaddrOffset))
            && (c.payload.Segment64? && off + NsectsOffset + 4 <= |img| ==>
                  c.payload.nsects == U32At(img, off + NsectsOffset))
            && (c.payload.EntryPoint? && off + EntryoffOffset + 8 <= |img| ==>
                  c.payload.entryoff == U64At(img, off + EntryoffOffset))
  {
  }

  /** Where the cursor stands after visiting cs, starting from off. */
  function CursorAfter(cs: seq<Command>, off: nat): nat
  {
    if cs == [] then off else cs[|cs| - 1].offset + cs[|cs| - 1].cmdsize
  }

  /** c is what the image's bytes at c's offset decode to, and w may read it. */
  predicate DecodedAt(w: Walker, img: seq<Byte>, c: Command)
  {
    CommandInBounds(w, img, c.offset) && c == DecodeCommand(img, c.offset)
  }

  /**
   The load commands met by walker w's cursor that starts at off and
   advances by each command's `cmdsize`, n times: the walk the C `for` loop
   performs. The sequence is cut short at the first command w would read
   out of bounds, so "the walk reads only inside the image" is the
   statement that the sequence is as long as the number of commands w
   visits.
   */
  function Walk(w: Walker, img: seq<Byte>, off: nat, n: nat): (cs: seq<Command>)
    ensures |cs| <= n
    decreases n
  {
    if n == 0 || !CommandInBounds(w, img, off) then []
    else
      var c := DecodeCommand(img, off);
      [c] + Walk(w, img, off + c.cmdsize, n - 1)
  }

  /**
   The i-th command of the walk is what the bytes at its offset decode to,
   and it sits at off when i is 0 and `cmdsize` bytes after command i - 1
   otherwise.
   */
  lemma {:induction false} WalkAt(w: Walker, img: seq<Byte>, off: nat, n: nat, i: nat)
    requires i < |Walk(w, img, off, n)|
    ensures DecodedAt(w, img, Walk(w, img, off, n)[i])
    ensures Walk(w, img, off, n)[i].offset ==
              if i == 0 then off
              else Walk(w, img, off, n)[i - 1].offset + Walk(w, img, off, n)[i - 1].cmdsize
  {
    WalkDecoded(w, img, off, n, i);
    WalkOffset(w, img, off, n, i);
  }

  lemma {:induction false} WalkDecoded(w: Walker, img: seq<Byte>, off: nat, n: nat, i: nat)
    requires i < |Walk(w, img, off, n)|
    ensures DecodedAt(w, img, Walk(w, img, off, n)[i])
    decreases n
  {
    assert CommandInBounds(w, img, off);
    var c := DecodeCommand(img, off);
    var rest := Walk(w, img, off + c.cmdsize, n - 1);
    assert Walk(w, img, off, n) == [c] + rest;
    if i > 0 {
      WalkDecoded(w, img, off + c.cmdsize, n - 1, i - 1);
    }
  }

  lemma {:induction false} WalkOffset(w: Walker, img: seq<Byte>, off: nat, n: nat, i: nat)
    requires i < |Walk(w, img, off, n)|
    ensures Walk(w, img, off, n)[i].offset ==
              if i == 0 then off
              else Walk(w, img, off, n)[i - 1].offset + Walk(w, img, off, n)[i - 1].cmdsize
    decreases n
  {
    assert CommandInBounds(w, img, off);
    var c := DecodeCommand(img, off);
    var rest := Walk(w, img, off + c.cmdsize, n - 1);
    var cs := Walk(w, img, off, n);
    assert cs == [c] + rest;
    if i == 0 {
      assert cs[0] == c;
    } else {
      WalkOffset(w, img, off + c.cmdsize, n - 1, i - 1);
      assert cs[i] == rest[i - 1];
      if i == 1 {
        assert cs[0] == c;
      } else {
        assert cs[i - 1] == rest[i - 2];
      }
    }
  }

  /** A walk shorter than n ends where the next command would be read out of bounds. */
  lemma {:induction false} WalkStopsAtBound(w: Walker, img: seq<Byte>, off: nat, n: nat)
    ensures |Walk(w, img, off, n)| < n ==> !CommandInBounds(w, img, CursorAfter(Walk(w, img, off, n), off))
    decreases n
  {
    if n > 0 && CommandInBounds(w, img, off) {
      var c := DecodeCommand(img, off);
      var next := off + c.cmdsize;
      var rest := Walk(w, img, next, n - 1);
      var cs := Walk(w, img, off, n);
      assert cs == [c] + rest;
      if rest != [] {
        assert cs[|cs| - 1] == rest[|rest| - 1];
      }
      if |cs| < n {
        WalkStopsAtBound(w, img, next, n - 1);
        assert CursorAfter(cs, off) == CursorAfter(rest, next);
      }
    }
  }

  /** The load commands walker w visits, from just after the image's header. */
  function Commands(w: Walker, img: seq<Byte>): seq<Command>
    requires |img| >= NcmdsOffset + 4
  {
    Walk(w, img, HeaderSize, Ncmds(img))
  }

  /** `strcmp(segname, "__TEXT") == 0` on a segment command. */
  predicate IsTextSegment(c: Command)
  {
    c.payload.Segment64? && NamesText(c.payload.segname)
  }

  /**
   The 16-byte `segname` field compares equal to "__TEXT" exactly when it
   starts with those six bytes followed by a NUL; the other nine bytes are
   never looked at.
   */
  lemma {:induction false} TextSegmentIff(img: seq<Byte>, off: nat)
    requires off + SegnameOffset + SegnameSize <= |img|
    ensures IsTextSegment(DecodeCommand(img, off)) <==>
              && U32At(img, off) == LC_SEGMENT_64
              && img[off + SegnameOffset..off + SegnameOffset + 6] == TextSegmentName[..6]
              && img[off + SegnameOffset + 6] == 0
  {
    var c := DecodeCommand(img, off);
    if c.payload.Segment64? {
      var name := c.payload.segname;
      assert name[0..7] == img[off + SegnameOffset..off + SegnameOffset + 7];
      assert name[0..7] == name[0..6] + [name[6]];
      assert TextSegmentName[0..] == TextSegmentName[..6] + [0];
    }
  }
}
