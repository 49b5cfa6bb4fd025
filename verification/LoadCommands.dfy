/** Mach-O load commands and the edit of scripts/colaw-webview-unlock.ts:83-175 and 222-258, as
    functions from file contents to file contents. */
module LoadCommands {
  import opened Bytes
  import opened Numbers

  const MH_MAGIC_64 := 0xfeedfacf
  const CPU_TYPE_ARM64 := 0x0100000c
  const LC_LOAD_DYLIB := 0xc
  const LC_SEGMENT_64 := 0x19
  const HEADER_SIZE: nat := 32
  const INSTALL_NAME := "@executable_path/libColawWebviewUnlock.dylib"

  function Ascii(text: string): (bs: seq<Byte>)
    ensures |bs| == |text|
  {
    seq(|text|, i requires 0 <= i < |text| => (text[i] as int) % 0x80)
  }

  function Align8(value: nat): nat { (value + 7) / 8 * 8 }

  /** The command size: 24 bytes and the NUL-terminated install name, rounded up. */
  function CommandSize(): nat { Align8(24 + |INSTALL_NAME| + 1) }

  lemma CommandSizeIs()
    ensures |INSTALL_NAME| == 44 && CommandSize() == 72
  { }

  /** The LC_LOAD_DYLIB command for the install name (lines 104-112). */
  function UnlockCommand(): (c: seq<Byte>)
    ensures |c| == CommandSize()
  {
    LE32(LC_LOAD_DYLIB) + LE32(CommandSize()) + LE32(24) + LE32(1) + LE32(0) + LE32(0)
    + Ascii(INSTALL_NAME) + Zeros(CommandSize() - 24 - |INSTALL_NAME|)
  }

  // ----- Recognizing the command -----

  function IndexOfZero(s: seq<Byte>): int {
    if s == [] then -1
    else if s[0] == 0 then 0
    else var i := IndexOfZero(s[1..]); if i < 0 then -1 else i + 1
  }

  /** The payload starts with the install name, NUL-terminated. */
  predicate NamesUnlock(payload: seq<Byte>) {
    var pathEnd := IndexOfZero(payload);
    0 < pathEnd <= |payload| && payload[..pathEnd] == Ascii(INSTALL_NAME)
  }

  predicate UnlockAt(s: seq<Byte>, off: nat)
    requires off + 8 <= |s|
  {
    var size := U32(s, off + 4);
    U32(s, off) == LC_LOAD_DYLIB && size >= 24 && NamesUnlock(Subarray(s, off + 24, off + size))
  }

  // ----- Walking the commands -----

  datatype Scan = Present | ScanEnd(offset: nat) | ScanOutOfRange

  /** Look for the unlock command among `n` commands from `off` (lines 93-106). */
  function ScanFor(s: seq<Byte>, off: nat, n: nat): Scan
    decreases n
  {
    if n == 0 then ScanEnd(off)
    else if off + 8 > |s| then ScanOutOfRange
    else if UnlockAt(s, off) then Present
    else ScanFor(s, off + U32(s, off + 4), n - 1)
  }

  datatype Last = Nothing | At(offset: nat, size: nat) | LastOutOfRange

  /** The last unlock command among `n` from `off`, or `found` when there is none (lines 229-243). */
  function FindLast(s: seq<Byte>, off: nat, n: nat, found: Last): Last
    decreases n
  {
    if n == 0 then found
    else if off + 8 > |s| then LastOutOfRange
    else
      var size := U32(s, off + 4);
      FindLast(s, off + size, n - 1, if UnlockAt(s, off) then At(off, size) else found)
  }

  datatype Slack = Slack(room: nat) | SlackOutOfRange

  /** Room between the commands and the first file-backed segment after them (lines 155-166). */
  function SlackFrom(s: seq<Byte>, off: nat, n: nat, cmdsEnd: nat, slack: nat): Slack
    decreases n
  {
    if n == 0 then Slack(slack)
    else if off + 8 > |s| then SlackOutOfRange
    else
      var size := U32(s, off + 4);
      if U32(s, off) != LC_SEGMENT_64 then SlackFrom(s, off + size, n - 1, cmdsEnd, slack)
      else if off + 56 > |s| then SlackOutOfRange
      else
        var fileoff, filesize := Number(U64(s, off + 40)), Number(U64(s, off + 48));
        SlackFrom(s, off + size, n - 1, cmdsEnd,
                  if filesize > 0 && fileoff >= cmdsEnd && fileoff - cmdsEnd < slack then fileoff - cmdsEnd else slack)
  }

  // ----- Injection -----

  datatype Error = NotMachO | OutOfRange | CommandsMismatch | NoPadding | HeaderSlack

  datatype Header = Header(ncmds: nat, sizeofcmds: nat) | BadHeader(error: Error)

  /** The checks on the first 24 bytes. */
  function ReadHeader(s: seq<Byte>): (h: Header)
    ensures h.Header? ==> |s| >= 24 && h.ncmds == U32(s, 16) && h.sizeofcmds == U32(s, 20)
  {
    if |s| < 4 then BadHeader(OutOfRange)
    else if U32(s, 0) != MH_MAGIC_64 then BadHeader(NotMachO)
    else if |s| < 8 then BadHeader(OutOfRange)
    else if U32(s, 4) != CPU_TYPE_ARM64 then BadHeader(NotMachO)
    else if |s| < 24 then BadHeader(OutOfRange)
    else Header(U32(s, 16), U32(s, 20))
  }

  function WithCounts(s: seq<Byte>, ncmds: nat, sizeofcmds: nat): (t: seq<Byte>)
    requires |s| >= 24 && ncmds < TWO_32 && sizeofcmds < TWO_32
    ensures |t| == |s|
  {
    s[..16] + LE32(ncmds) + LE32(sizeofcmds) + s[24..]
  }

  /** Size of a stranded copy of our command at the start of `rest`, 0 if there is none (lines 139-147). */
  function OrphanSize(rest: seq<Byte>): nat
    requires |rest| >= 8
  {
    var size := U32(rest, 4);
    if U32(rest, 0) == LC_LOAD_DYLIB && 24 <= size <= 4096 && NamesUnlock(Subarray(rest, 24, size)) then size else 0
  }

  function Scrubbed(rest: seq<Byte>): (t: seq<Byte>)
    requires |rest| >= 8 && OrphanSize(rest) <= |rest|
    ensures |t| == |rest|
  {
    Zeros(OrphanSize(rest)) + rest[OrphanSize(rest)..]
  }

  datatype Injection = Injected(bytes: seq<Byte>) | Already | InjectFailed(error: Error)

  /** `injectLoadCommand`, contents to contents (lines 123-175). */
  function Inject(s: seq<Byte>): Injection {
    match ReadHeader(s)
    case BadHeader(error) => InjectFailed(error)
    case Header(ncmds, sizeofcmds) =>
      match ScanFor(s, HEADER_SIZE, ncmds)
      case Present => Already
      case ScanOutOfRange => InjectFailed(OutOfRange)
      case ScanEnd(end) =>
        if end != HEADER_SIZE + sizeofcmds then InjectFailed(CommandsMismatch)
        else if end + 8 > |s| then InjectFailed(OutOfRange)
        else InjectAt(s, end, ncmds, sizeofcmds)
  }

  /** The part after the commands end at `end` (lines 134-173). */
  function InjectAt(s: seq<Byte>, end: nat, ncmds: nat, sizeofcmds: nat): (r: Injection)
    requires 24 <= end && end + 8 <= |s|
    ensures r != Already
  {
    if OrphanSize(s[end..]) > |s[end..]| then InjectFailed(OutOfRange)
    else
      var clean := Scrubbed(s[end..]);
      var t := s[..end] + clean;
      if !AllZero(Subarray(clean, 0, CommandSize())) then InjectFailed(NoPadding)
      else
        match SlackFrom(t, HEADER_SIZE, ncmds, end, MAX_SAFE_INTEGER)
        case SlackOutOfRange => InjectFailed(OutOfRange)
        case Slack(room) =>
          if room < CommandSize() then InjectFailed(HeaderSlack)
          else if ncmds + 1 >= TWO_32 || sizeofcmds + CommandSize() >= TWO_32 then InjectFailed(OutOfRange)
          else Injected(WithCounts(Overwrite(t, end, UnlockCommand()), ncmds + 1, sizeofcmds + CommandSize()))
  }

  // ----- Removal -----

  datatype Removal = Removed(bytes: seq<Byte>) | Absent | RemoveFailed(error: Error)

  /** Count one command less, shift what follows it over it, and zero the vacated end (lines 245-254). */
  function CutOut(s: seq<Byte>, offset: nat, size: nat, ncmds: nat, sizeofcmds: nat): seq<Byte>
    requires |s| >= 24 && 0 < ncmds < TWO_32 && size <= sizeofcmds < TWO_32
    requires offset + size <= |s| && HEADER_SIZE + sizeofcmds <= |s|
  {
    var oldEnd := HEADER_SIZE + sizeofcmds;
    var t := WithCounts(s, ncmds - 1, sizeofcmds - size);
    var shifted := if offset + size < oldEnd then Overwrite(t, offset, t[offset + size..oldEnd]) else t;
    Overwrite(shifted, oldEnd - size, Zeros(size))
  }

  /** `removeUnlockLoadCommand`, contents to contents (lines 222-258). */
  function Remove(s: seq<Byte>): Removal {
    match ReadHeader(s)
    case BadHeader(error) => RemoveFailed(error)
    case Header(ncmds, sizeofcmds) =>
      match FindLast(s, HEADER_SIZE, ncmds, Nothing)
      case LastOutOfRange => RemoveFailed(OutOfRange)
      case Nothing => Absent
      case At(offset, size) =>
        if ncmds == 0 || size > sizeofcmds || offset + size > |s| || HEADER_SIZE + sizeofcmds > |s|
        then RemoveFailed(OutOfRange)
        else Removed(CutOut(s, offset, size, ncmds, sizeofcmds))
  }
}
