/**
 `dylib_find_base_reference`: the static base address (the `vmaddr` of the
 `__TEXT` segment) and the entry offset (the `entryoff` of LC_MAIN) of an
 image, read by walking its load commands until both have been seen.
 */
module BaseRef {
  import opened Bytes
  import opened Wrappers
  import opened CString
  import opened MachO
  import opened Images

  /** `struct dylib_base_reference`: two unsigned 64-bit values. */
  datatype BaseReference = BaseReference(staticBaseAddress: uint64, entryOffset: uint64)

  /** The two kinds of command the extractor looks for. */
  datatype Wanted = TextSegment | MainCommand

  predicate Is(w: Wanted, c: Command)
  {
    match w
    case TextSegment => IsTextSegment(c)
    case MainCommand => c.payload.EntryPoint?
  }

  /** Some command of kind w is among the first k. */
  predicate SeenIn(w: Wanted, cs: seq<Command>, k: nat)
    requires k <= |cs|
  {
    exists i :: 0 <= i < k && Is(w, cs[i])
  }

  predicate BothSeen(cs: seq<Command>, k: nat)
    requires k <= |cs|
  {
    SeenIn(TextSegment, cs, k) && SeenIn(MainCommand, cs, k)
  }

  /** The position of the last command of kind w among the first k. */
  function LastIndex(w: Wanted, cs: seq<Command>, k: nat): (i: nat)
    requires k <= |cs| && SeenIn(w, cs, k)
    ensures i < k && Is(w, cs[i])
    ensures forall j :: i < j < k ==> !Is(w, cs[j])
  {
    if Is(w, cs[k - 1]) then k - 1 else LastIndex(w, cs, k - 1)
  }

  /**
   How many commands the walk visits: the first k after which both kinds
   have been seen (the loop breaks there), or all of them.
   */
  function VisitedCount(cs: seq<Command>): (k: nat)
    ensures k <= |cs|
    ensures k == |cs| || BothSeen(cs, k)
    ensures forall j :: 0 <= j < k ==> !BothSeen(cs, j)
  {
    VisitedFrom(cs, 0)
  }

  function VisitedFrom(cs: seq<Command>, j: nat): (k: nat)
    requires j <= |cs|
    requires forall i :: 0 <= i < j ==> !BothSeen(cs, i)
    ensures j <= k <= |cs|
    ensures k == |cs| || BothSeen(cs, k)
    ensures forall i :: 0 <= i < k ==> !BothSeen(cs, i)
    decreases |cs| - j
  {
    if j == |cs| || BothSeen(cs, j) then j else VisitedFrom(cs, j + 1)
  }

  /**
   What the extractor yields on a command sequence, given the caller's
   struct: among the visited commands, each field takes its value from the
   last command of its kind, and stays as the caller left it when there is
   none; success means both kinds were visited.
   */
  function BaseReferenceOf(cs: seq<Command>, prior: BaseReference): (r: (bool, BaseReference))
    ensures r.1.staticBaseAddress == prior.staticBaseAddress
            || exists i :: 0 <= i < |cs| && IsTextSegment(cs[i]) && r.1.staticBaseAddress == cs[i].payload.vmaddr
    ensures r.1.entryOffset == prior.entryOffset
            || exists i :: 0 <= i < |cs| && cs[i].payload.EntryPoint? && r.1.entryOffset == cs[i].payload.entryoff
    ensures r.0 ==> && (exists i :: 0 <= i < |cs| && IsTextSegment(cs[i]))
                    && (exists i :: 0 <= i < |cs| && cs[i].payload.EntryPoint?)
  {
    var k := VisitedCount(cs);
    (BothSeen(cs, k), Recorded(cs, k, prior))
  }

  /** The caller's struct after the first k commands have been processed. */
  function Recorded(cs: seq<Command>, k: nat, prior: BaseReference): BaseReference
    requires k <= |cs|
  {
    var base :=
      if SeenIn(TextSegment, cs, k) then cs[LastIndex(TextSegment, cs, k)].payload.vmaddr
      else prior.staticBaseAddress;
    var entry :=
      if SeenIn(MainCommand, cs, k) then cs[LastIndex(MainCommand, cs, k)].payload.entryoff
      else prior.entryOffset;
    BaseReference(base, entry)
  }

  /** Processing command k overwrites exactly the field of its kind. */
  lemma {:induction false} RecordedStep(cs: seq<Command>, k: nat, prior: BaseReference)
    requires k < |cs|
    ensures Recorded(cs, k + 1, prior) ==
              if IsTextSegment(cs[k]) then
                Recorded(cs, k, prior).(staticBaseAddress := cs[k].payload.vmaddr)
              else if cs[k].payload.EntryPoint? then
                Recorded(cs, k, prior).(entryOffset := cs[k].payload.entryoff)
              else Recorded(cs, k, prior)
    ensures SeenIn(TextSegment, cs, k + 1) == (SeenIn(TextSegment, cs, k) || IsTextSegment(cs[k]))
    ensures SeenIn(MainCommand, cs, k + 1) == (SeenIn(MainCommand, cs, k) || cs[k].payload.EntryPoint?)
  {
    assert Is(TextSegment, cs[k]) == IsTextSegment(cs[k]);
    assert Is(MainCommand, cs[k]) == cs[k].payload.EntryPoint?;
  }

  /** Both kinds seen by k stay seen by any later point. */
  lemma {:induction false} NeverBothBefore(cs: seq<Command>, k: int)
    requires k <= |cs|
    requires k >= 0 ==> !BothSeen(cs, k)
    ensures forall j :: 0 <= j <= k ==> !BothSeen(cs, j)
  {
  }

  /** The walk's stopping point is the only k with VisitedCount's properties. */
  lemma {:induction false} VisitedCountIsLeast(cs: seq<Command>, k: nat)
    requires k <= |cs|
    requires k == |cs| || BothSeen(cs, k)
    requires forall j :: 0 <= j < k ==> !BothSeen(cs, j)
    ensures VisitedCount(cs) == k
  {
  }

  /**
   The memory the C reads lies inside the image: its header, and every load
   command up to the one after which both kinds have been seen (or all
   `ncmds` of them).
   */
  predicate BaseWalkInBounds(images: seq<LoadedImage>, imageIndex: uint32)
  {
    match ImageHeader(images, imageIndex)
    case None => true
    case Some(img) =>
      && |img| >= NcmdsOffset + 4
      && var cs := Commands(BaseWalker, img);
         |cs| == Ncmds(img) || BothSeen(cs, |cs|)
  }

  /** The whole query: a missing header fails and writes nothing. */
  function BaseReferenceSpec(images: seq<LoadedImage>, imageIndex: uint32, prior: BaseReference)
    : (bool, BaseReference)
    requires BaseWalkInBounds(images, imageIndex)
  {
    match ImageHeader(images, imageIndex)
    case None => (false, prior)
    case Some(img) => BaseReferenceOf(Commands(BaseWalker, img), prior)
  }

  /**
   The early exit does not change the verdict: the query succeeds exactly
   when the image has both a `__TEXT` segment and an LC_MAIN command.
   */
  lemma {:induction false} FoundIffBothPresent(cs: seq<Command>, prior: BaseReference)
    ensures BaseReferenceOf(cs, prior).0 <==> BothSeen(cs, |cs|)
  {
    var k := VisitedCount(cs);
    if BothSeen(cs, k) {
      assert SeenIn(TextSegment, cs, |cs|) by {
        var i :| 0 <= i < k && Is(TextSegment, cs[i]);
      }
      assert SeenIn(MainCommand, cs, |cs|) by {
        var i :| 0 <= i < k && Is(MainCommand, cs[i]);
      }
    }
  }

  /**
   With exactly one `__TEXT` segment and one LC_MAIN command, the query
   succeeds with exactly their `vmaddr` and `entryoff`, whatever the caller's
   struct held.
   */
  lemma {:induction false} SingleTextAndMain(cs: seq<Command>, t: nat, m: nat, prior: BaseReference)
    requires t < |cs| && IsTextSegment(cs[t])
    requires m < |cs| && cs[m].payload.EntryPoint?
    requires forall i :: 0 <= i < |cs| && i != t ==> !IsTextSegment(cs[i])
    requires forall i :: 0 <= i < |cs| && i != m ==> !cs[i].payload.EntryPoint?
    ensures BaseReferenceOf(cs, prior)
         == (true, BaseReference(cs[t].payload.vmaddr, cs[m].payload.entryoff))
  {
    assert Is(TextSegment, cs[t]) && Is(MainCommand, cs[m]);
    FoundIffBothPresent(cs, prior);
    var k := VisitedCount(cs);
    assert BothSeen(cs, k);
    assert LastIndex(TextSegment, cs, k) == t;
    assert LastIndex(MainCommand, cs, k) == m;
  }

  /**
   On failure no early exit happened: every command was visited, and a
   field was written exactly when a command of its kind exists, with the
   last such command's value.
   */
  lemma {:induction false} NotFoundWritesSeenFields(cs: seq<Command>, prior: BaseReference)
    requires !BaseReferenceOf(cs, prior).0
    ensures VisitedCount(cs) == |cs|
    ensures BaseReferenceOf(cs, prior).1.staticBaseAddress
         == if SeenIn(TextSegment, cs, |cs|) then cs[LastIndex(TextSegment, cs, |cs|)].payload.vmaddr
            else prior.staticBaseAddress
    ensures BaseReferenceOf(cs, prior).1.entryOffset
         == if SeenIn(MainCommand, cs, |cs|) then cs[LastIndex(MainCommand, cs, |cs|)].payload.entryoff
            else prior.entryOffset
  {
    var k := VisitedCount(cs);
    assert !BothSeen(cs, k);
  }

  /**
   `dylib_find_base_reference`: a missing header fails at once and leaves
   the caller's struct alone; otherwise the load commands are walked.
   */
  method FindBaseReference(images: seq<LoadedImage>, imageIndex: uint32, reference: BaseReference)
    returns (found: bool, result: BaseReference)
    requires BaseWalkInBounds(images, imageIndex)
    ensures (found, result) == BaseReferenceSpec(images, imageIndex, reference)
    ensures ImageHeader(images, imageIndex).None? ==> !found && result == reference
    ensures found <==>
              && ImageHeader(images, imageIndex).Some?
              && BothSeen(Commands(BaseWalker, ImageHeader(images, imageIndex).value),
                          |Commands(BaseWalker, ImageHeader(images, imageIndex).value)|)
  {
    var header := ImageHeader(images, imageIndex);
    if header.None? {
      return false, reference;
    }
    found, result := WalkForBaseReference(header.value, reference);
    FoundIffBothPresent(Commands(BaseWalker, header.value), reference);
  }

  /**
   The loop of `dylib_find_base_reference`: a cursor over the image bytes,
   starting right after the header, that handles one command per round and
   advances by the command's `cmdsize`, at most `ncmds` times. The C's
   `break` is the stop flag in the loop condition: the round that records
   the second field is the last, and the cursor it moves on is never read.
   */
  method WalkForBaseReference(img: seq<Byte>, reference: BaseReference)
    returns (found: bool, result: BaseReference)
    requires |img| >= NcmdsOffset + 4
    requires |Commands(BaseWalker, img)| == Ncmds(img) || BothSeen(Commands(BaseWalker, img), |Commands(BaseWalker, img)|)
    ensures (found, result) == BaseReferenceOf(Commands(BaseWalker, img), reference)
  {
    result := reference;
    var ncmds := Ncmds(img);
    var loadCmd: nat := HeaderSize;
    var foundStaticBaseAddress, foundEntryOffset := false, false;
    var nCmd: uint32 := 0;
    var stop := false;
    assert Scanned(img, reference, 0, loadCmd, result, false, false);
    while nCmd < ncmds && !stop
      invariant nCmd <= ncmds
      invariant Scanned(img, reference, nCmd, loadCmd, result, foundStaticBaseAddress, foundEntryOffset)
      invariant stop == (foundStaticBaseAddress && foundEntryOffset)
    {
      ScannedHasNext(img, reference, nCmd, loadCmd, result, foundStaticBaseAddress, foundEntryOffset);
      ghost var before := (result, foundStaticBaseAddress, foundEntryOffset);
      result, foundStaticBaseAddress, foundEntryOffset, stop :=
        HandleCommand(img, loadCmd, result, foundStaticBaseAddress, foundEntryOffset);
      var cmdsize := U32At(img, loadCmd + CmdsizeOffset);
      ScannedStep(img, reference, nCmd, loadCmd, before.0, before.1, before.2,
                  loadCmd + cmdsize, result, foundStaticBaseAddress, foundEntryOffset);
      loadCmd := loadCmd + cmdsize;
      nCmd := nCmd + 1;
    }
    found := foundStaticBaseAddress && foundEntryOffset;
    ScannedFinish(img, reference, nCmd, loadCmd, result, foundStaticBaseAddress, foundEntryOffset);
  }

  /**
   The loop's state after k rounds without a break: the cursor is at
   command k, the flags say which kinds the first k commands hold, the
   struct is as `Recorded` says, and both kinds were never seen earlier.
   */
  ghost predicate Scanned(img: seq<Byte>, reference: BaseReference, k: nat, loadCmd: nat,
                          result: BaseReference, foundBase: bool, foundEntry: bool)
    requires |img| >= NcmdsOffset + 4
  {
    var cs := Commands(BaseWalker, img);
    && k <= |cs|
    && foundBase == SeenIn(TextSegment, cs, k)
    && foundEntry == SeenIn(MainCommand, cs, k)
    && (k > 0 ==> !BothSeen(cs, k - 1))
    && (k < |cs| ==> loadCmd == cs[k].offset)
    && result == Recorded(cs, k, reference)
  }

  /** While the loop runs, the command under the cursor was decoded by the walk. */
  lemma {:induction false} ScannedHasNext(img: seq<Byte>, reference: BaseReference, k: nat, loadCmd: nat,
                       result: BaseReference, foundBase: bool, foundEntry: bool)
    requires |img| >= NcmdsOffset + 4
    requires |Commands(BaseWalker, img)| == Ncmds(img) || BothSeen(Commands(BaseWalker, img), |Commands(BaseWalker, img)|)
    requires k < Ncmds(img)
    requires Scanned(img, reference, k, loadCmd, result, foundBase, foundEntry)
    requires !(foundBase && foundEntry)
    ensures CommandInBounds(BaseWalker, img, loadCmd)
    ensures k < |Commands(BaseWalker, img)| && Commands(BaseWalker, img)[k] == DecodeCommand(img, loadCmd)
  {
    var cs := Commands(BaseWalker, img);
    assert !BothSeen(cs, k);
    WalkAt(BaseWalker, img, HeaderSize, Ncmds(img), k);
  }

  /** One round of the loop, handled by HandleCommand, keeps Scanned. */
  lemma {:induction false} ScannedStep(img: seq<Byte>, reference: BaseReference, k: nat, loadCmd: nat,
                    result: BaseReference, foundBase: bool, foundEntry: bool,
                    loadCmd': nat, result': BaseReference, foundBase': bool, foundEntry': bool)
    requires |img| >= NcmdsOffset + 4
    requires Scanned(img, reference, k, loadCmd, result, foundBase, foundEntry)
    requires !(foundBase && foundEntry)
    requires CommandInBounds(BaseWalker, img, loadCmd)
    requires k < |Commands(BaseWalker, img)| && Commands(BaseWalker, img)[k] == DecodeCommand(img, loadCmd)
    requires loadCmd' == loadCmd + U32At(img, loadCmd + CmdsizeOffset)
    requires Handles(DecodeCommand(img, loadCmd), result, foundBase, foundEntry, result', foundBase', foundEntry')
    ensures Scanned(img, reference, k + 1, loadCmd', result', foundBase', foundEntry')
  {
    var cs := Commands(BaseWalker, img);
    RecordedStep(cs, k, reference);
    assert !BothSeen(cs, k);
    if k + 1 < |cs| {
      WalkAt(BaseWalker, img, HeaderSize, Ncmds(img), k + 1);
    }
  }

  /**
   Where the loop ends, by break or by running out of commands, is the
   walk's stopping point, so its state is what BaseReferenceOf describes.
   */
  lemma {:induction false} ScannedFinish(img: seq<Byte>, reference: BaseReference, k: nat, loadCmd: nat,
                      result: BaseReference, foundBase: bool, foundEntry: bool)
    requires |img| >= NcmdsOffset + 4
    requires |Commands(BaseWalker, img)| == Ncmds(img) || BothSeen(Commands(BaseWalker, img), |Commands(BaseWalker, img)|)
    requires Scanned(img, reference, k, loadCmd, result, foundBase, foundEntry)
    requires (foundBase && foundEntry) || k == Ncmds(img)
    ensures (foundBase && foundEntry, result) == BaseReferenceOf(Commands(BaseWalker, img), reference)
  {
    var cs := Commands(BaseWalker, img);
    assert k == |cs| || BothSeen(cs, k);
    NeverBothBefore(cs, k - 1);
    VisitedCountIsLeast(cs, k);
  }

  /**
   What handling command c does to the caller's struct and the two flags: a
   `__TEXT` segment sets the base address and its flag, an LC_MAIN sets the
   entry offset and its flag, and anything else changes nothing.
   */
  predicate Handles(c: Command, result: BaseReference, foundBase: bool, foundEntry: bool,
                    result': BaseReference, foundBase': bool, foundEntry': bool)
  {
    && foundBase' == (foundBase || IsTextSegment(c))
    && foundEntry' == (foundEntry || c.payload.EntryPoint?)
    && result' == if IsTextSegment(c) then result.(staticBaseAddress := c.payload.vmaddr)
                  else if c.payload.EntryPoint? then result.(entryOffset := c.payload.entryoff)
                  else result
  }

  /**
   The body of the loop for the command at off: a segment whose `segname`
   compares equal to "__TEXT" records its `vmaddr`, an LC_MAIN records its
   `entryoff`, anything else is skipped; stop is the C's `break`, taken when
   the command just recorded completes the pair.
   */
  method HandleCommand(img: seq<Byte>, off: nat, reference: BaseReference,
                       foundStaticBaseAddress: bool, foundEntryOffset: bool)
    returns (result: BaseReference, foundBase: bool, foundEntry: bool, stop: bool)
    requires CommandInBounds(BaseWalker, img, off)
    requires !(foundStaticBaseAddress && foundEntryOffset)
    ensures Handles(DecodeCommand(img, off), reference, foundStaticBaseAddress, foundEntryOffset,
                    result, foundBase, foundEntry)
    ensures stop == (foundBase && foundEntry)
  {
    DecodedFields(img, off);
    result, foundBase, foundEntry, stop := reference, foundStaticBaseAddress, foundEntryOffset, false;
    var cmd := U32At(img, off);
    if cmd == LC_SEGMENT_64 {
      var segname := img[off + SegnameOffset..off + SegnameOffset + SegnameSize];
      if StrCmp(segname, TextSegmentName, 0) == 0 {
        result := result.(staticBaseAddress := U64At(img, off + VmaddrOffset));
        foundBase := true;
        if foundEntry {
          stop := true;
        }
      }
    } else if cmd == LC_MAIN {
      result := result.(entryOffset := U64At(img, off + EntryoffOffset));
      foundEntry := true;
      if foundBase {
        stop := true;
      }
    }
  }
}
