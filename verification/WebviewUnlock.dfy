/** The load-command editor itself (scripts/colaw-webview-unlock.ts:123-175, 222-258): it reads the
    file into a buffer, edits the buffer in place and writes it back only when the edit succeeds. */
module WebviewUnlock {
  import opened Bytes
  import opened LoadCommands
  import opened Numbers

  class BinaryFile {
    var bytes: seq<Byte>

    constructor (contents: seq<Byte>)
      ensures bytes == contents
    {
      bytes := contents;
    }
  }

  datatype Status = Done | Unchanged | Failed(error: Error)

  // ----- Buffer operations -----

  function ReadUint32(buffer: array<Byte>, off: nat): (r: nat)
    requires off + 4 <= buffer.Length
    reads buffer
    ensures r == U32(buffer[..], off)
  {
    Compose(buffer[off], buffer[off + 1], buffer[off + 2], buffer[off + 3])
  }

  function ReadUint64(buffer: array<Byte>, off: nat): (r: nat)
    requires off + 8 <= buffer.Length
    reads buffer
    ensures r == U64(buffer[..], off)
  {
    ReadUint32(buffer, off) + TWO_32 * ReadUint32(buffer, off + 4)
  }

  method ReadFile(file: BinaryFile) returns (buffer: array<Byte>)
    ensures fresh(buffer) && buffer[..] == file.bytes
  {
    var bytes := file.bytes;
    buffer := new Byte[|bytes|](i requires 0 <= i < |bytes| => bytes[i]);
  }

  /** `buffer.fill(0, from, to)`. */
  method Fill(buffer: array<Byte>, from: nat, to: nat)
    requires from <= to <= buffer.Length
    modifies buffer
    ensures buffer[..] == Overwrite(old(buffer[..]), from, Zeros(to - from))
  {
    for i := from to to
      invariant forall k | 0 <= k < buffer.Length :: buffer[k] == if from <= k < i then 0 else old(buffer[k])
    {
      buffer[i] := 0;
    }
  }

  /** `bytes.copy(buffer, off)`: what does not fit is dropped. */
  method CopyInto(buffer: array<Byte>, off: nat, bytes: seq<Byte>)
    requires off <= buffer.Length
    modifies buffer
    ensures buffer[..] == Overwrite(old(buffer[..]), off, bytes)
  {
    var n := if off + |bytes| <= buffer.Length then |bytes| else buffer.Length - off;
    for i := 0 to n
      invariant forall k | 0 <= k < buffer.Length ::
                  buffer[k] == if off <= k < off + i then bytes[k - off] else old(buffer[k])
    {
      buffer[off + i] := bytes[i];
    }
  }

  /** `buffer.copy(buffer, to, from, end)` towards the front, where the ranges may overlap. */
  method MoveDown(buffer: array<Byte>, to: nat, from: nat, end: nat)
    requires to <= from <= end <= buffer.Length
    modifies buffer
    ensures buffer[..] == Overwrite(old(buffer[..]), to, old(buffer[from..end]))
  {
    hide Overwrite;
    ghost var was, shift := buffer[..], from - to;
    for i := 0 to end - from
      invariant forall k | to <= k < to + i :: buffer[k] == was[k + shift]
      invariant forall k | 0 <= k < to || to + i <= k < buffer.Length :: buffer[k] == was[k]
    {
      buffer[to + i] := buffer[from + i];
    }
    assert old(buffer[from..end]) == was[from..end];
    OverwriteIs(buffer[..], was, to, was[from..end]);
  }

  lemma OverwriteIs(t: seq<Byte>, s: seq<Byte>, off: nat, bs: seq<Byte>)
    requires |t| == |s| && off + |bs| <= |s|
    requires forall k | off <= k < off + |bs| :: t[k] == bs[k - off]
    requires forall k | 0 <= k < off || off + |bs| <= k < |s| :: t[k] == s[k]
    ensures t == Overwrite(s, off, bs)
  { }

  method WriteUint32(buffer: array<Byte>, off: nat, v: nat)
    requires off + 4 <= buffer.Length && v < TWO_32
    modifies buffer
    ensures buffer[..] == old(buffer[..off]) + LE32(v) + old(buffer[off + 4..])
  {
    var bytes := LE32(v);
    hide LE32;
    buffer[off], buffer[off + 1], buffer[off + 2], buffer[off + 3] := bytes[0], bytes[1], bytes[2], bytes[3];
  }

  method WriteCounts(buffer: array<Byte>, ncmds: nat, sizeofcmds: nat)
    requires buffer.Length >= 24 && ncmds < TWO_32 && sizeofcmds < TWO_32
    modifies buffer
    ensures buffer[..] == WithCounts(old(buffer[..]), ncmds, sizeofcmds)
  {
    hide LE32;
    WriteUint32(buffer, 16, ncmds);
    assert buffer[..] == old(buffer[..16]) + LE32(ncmds) + old(buffer[20..]);
    assert buffer[..20] == old(buffer[..16]) + LE32(ncmds) && buffer[24..] == old(buffer[24..]);
    WriteUint32(buffer, 20, sizeofcmds);
  }

  // ----- The three walks -----

  method ScanCommands(buffer: array<Byte>, ncmds: nat) returns (r: Scan)
    ensures r == ScanFor(buffer[..], HEADER_SIZE, ncmds)
  {
    hide UnlockAt, U32;
    var offset: nat := HEADER_SIZE;
    for index := 0 to ncmds
      invariant ScanFor(buffer[..], HEADER_SIZE, ncmds) == ScanFor(buffer[..], offset, ncmds - index)
    {
      if offset + 8 > buffer.Length {
        return ScanOutOfRange;
      }
      if UnlockAt(buffer[..], offset) {
        return Present;
      }
      offset := offset + ReadUint32(buffer, offset + 4);
    }
    r := ScanEnd(offset);
  }

  method FindCommand(buffer: array<Byte>, ncmds: nat) returns (found: Last)
    ensures found == FindLast(buffer[..], HEADER_SIZE, ncmds, Nothing)
  {
    hide UnlockAt, U32;
    var offset: nat := HEADER_SIZE;
    found := Nothing;
    for index := 0 to ncmds
      invariant FindLast(buffer[..], HEADER_SIZE, ncmds, Nothing) == FindLast(buffer[..], offset, ncmds - index, found)
    {
      if offset + 8 > buffer.Length {
        return LastOutOfRange;
      }
      var size := ReadUint32(buffer, offset + 4);
      if UnlockAt(buffer[..], offset) {
        found := At(offset, size);
      }
      offset := offset + size;
    }
  }

  method MeasureSlack(buffer: array<Byte>, ncmds: nat, cmdsEnd: nat) returns (r: Slack)
    ensures r == SlackFrom(buffer[..], HEADER_SIZE, ncmds, cmdsEnd, MAX_SAFE_INTEGER)
  {
    hide U32, U64, Number;
    var offset: nat, slack: nat := HEADER_SIZE, MAX_SAFE_INTEGER;
    for index := 0 to ncmds
      invariant SlackFrom(buffer[..], HEADER_SIZE, ncmds, cmdsEnd, MAX_SAFE_INTEGER)
             == SlackFrom(buffer[..], offset, ncmds - index, cmdsEnd, slack)
    {
      if offset + 8 > buffer.Length {
        return SlackOutOfRange;
      }
      if ReadUint32(buffer, offset) == LC_SEGMENT_64 {
        if offset + 56 > buffer.Length {
          return SlackOutOfRange;
        }
        var fileoff, filesize := Number(ReadUint64(buffer, offset + 40)), Number(ReadUint64(buffer, offset + 48));
        if filesize > 0 && fileoff >= cmdsEnd && fileoff - cmdsEnd < slack {
          slack := fileoff - cmdsEnd;
        }
      }
      offset := offset + ReadUint32(buffer, offset + 4);
    }
    r := Slack.Slack(slack);
  }

  // ----- The two edits -----

  /** Zero a stranded copy of our command (lines 141-148). */
  method ScrubOrphan(buffer: array<Byte>, cmdsEnd: nat) returns (inRange: bool)
    requires cmdsEnd + 8 <= buffer.Length
    modifies buffer
    ensures inRange <==> OrphanSize(old(buffer[cmdsEnd..])) <= buffer.Length - cmdsEnd
    ensures inRange ==> buffer[..] == old(buffer[..cmdsEnd]) + Scrubbed(old(buffer[cmdsEnd..]))
  {
    hide OrphanSize;
    var size := OrphanSize(buffer[cmdsEnd..]);
    if size > buffer.Length - cmdsEnd {
      return false;
    }
    Fill(buffer, cmdsEnd, cmdsEnd + size);
    inRange := true;
  }

  /** Lines 123-175. */
  method InjectLoadCommand(file: BinaryFile) returns (r: Status)
    modifies file
    ensures match Inject(old(file.bytes))
            case Injected(bytes) => r == Done && file.bytes == bytes
            case Already => r == Unchanged && file.bytes == old(file.bytes)
            case InjectFailed(error) => r == Failed(error) && file.bytes == old(file.bytes)
  {
    hide ScanFor, ReadHeader, InjectAt;
    var buffer := ReadFile(file);
    var header := ReadHeader(buffer[..]);
    if header.BadHeader? {
      return Failed(header.error);
    }
    var scan := ScanCommands(buffer, header.ncmds);
    if scan == Present {
      return Unchanged;
    }
    if scan == ScanOutOfRange {
      return Failed(OutOfRange);
    }
    var cmdsEnd := HEADER_SIZE + header.sizeofcmds;
    if scan.offset != cmdsEnd {
      return Failed(CommandsMismatch);
    }
    if cmdsEnd + 8 > buffer.Length {
      return Failed(OutOfRange);
    }
    r := EditBuffer(buffer, cmdsEnd, header.ncmds, header.sizeofcmds);
    if r == Done {
      file.bytes := buffer[..];
    }
  }

  /** The part of the injection after the command walk (lines 141-173). */
  method EditBuffer(buffer: array<Byte>, cmdsEnd: nat, ncmds: nat, sizeofcmds: nat) returns (r: Status)
    requires 24 <= cmdsEnd && cmdsEnd + 8 <= buffer.Length
    modifies buffer
    ensures match InjectAt(old(buffer[..]), cmdsEnd, ncmds, sizeofcmds)
            case Injected(bytes) => r == Done && buffer[..] == bytes
            case InjectFailed(error) => r == Failed(error)
            case Already => false
  {
    hide OrphanSize, Scrubbed, SlackFrom, UnlockCommand, CommandSize, WithCounts;
    assert buffer[..][cmdsEnd..] == buffer[cmdsEnd..] && buffer[..][..cmdsEnd] == buffer[..cmdsEnd];
    var inRange := ScrubOrphan(buffer, cmdsEnd);
    if !inRange {
      return Failed(OutOfRange);
    }
    assert buffer[cmdsEnd..] == Scrubbed(old(buffer[cmdsEnd..]));
    var command := UnlockCommand();
    if !AllZero(Subarray(buffer[cmdsEnd..], 0, |command|)) {
      return Failed(NoPadding);
    }
    var slack := MeasureSlack(buffer, ncmds, cmdsEnd);
    if slack == SlackOutOfRange {
      return Failed(OutOfRange);
    }
    if slack.room < |command| {
      return Failed(HeaderSlack);
    }
    if ncmds + 1 >= TWO_32 || sizeofcmds + |command| >= TWO_32 {
      return Failed(OutOfRange);
    }
    CopyInto(buffer, cmdsEnd, command);
    WriteCounts(buffer, ncmds + 1, sizeofcmds + |command|);
    r := Done;
  }

  /** Lines 222-258. */
  method RemoveUnlockLoadCommand(file: BinaryFile) returns (r: Status)
    modifies file
    ensures match Remove(old(file.bytes))
            case Removed(bytes) => r == Done && file.bytes == bytes
            case Absent => r == Unchanged && file.bytes == old(file.bytes)
            case RemoveFailed(error) => r == Failed(error) && file.bytes == old(file.bytes)
  {
    hide FindLast, ReadHeader, CutOut;
    var buffer := ReadFile(file);
    var header := ReadHeader(buffer[..]);
    if header.BadHeader? {
      return Failed(header.error);
    }
    var found := FindCommand(buffer, header.ncmds);
    if found == LastOutOfRange {
      return Failed(OutOfRange);
    }
    if found == Nothing {
      return Unchanged;
    }
    if header.ncmds == 0 || found.size > header.sizeofcmds || found.offset + found.size > buffer.Length
       || HEADER_SIZE + header.sizeofcmds > buffer.Length {
      return Failed(OutOfRange);
    }
    CutCommand(buffer, found.offset, found.size, header.ncmds, header.sizeofcmds);
    file.bytes := buffer[..];
    r := Done;
  }

  /** Lines 245-254. */
  method CutCommand(buffer: array<Byte>, offset: nat, size: nat, ncmds: nat, sizeofcmds: nat)
    requires buffer.Length >= 24 && 0 < ncmds < TWO_32 && size <= sizeofcmds < TWO_32
    requires offset + size <= buffer.Length && HEADER_SIZE + sizeofcmds <= buffer.Length
    modifies buffer
    ensures buffer[..] == CutOut(old(buffer[..]), offset, size, ncmds, sizeofcmds)
  {
    hide WithCounts, Overwrite, Zeros;
    var oldEnd := HEADER_SIZE + sizeofcmds;
    WriteCounts(buffer, ncmds - 1, sizeofcmds - size);
    ghost var t := buffer[..];
    if offset + size < oldEnd {
      assert buffer[offset + size..oldEnd] == t[offset + size..oldEnd];
      MoveDown(buffer, offset, offset + size, oldEnd);
    }
    Fill(buffer, oldEnd - size, oldEnd);
  }
}
