/** Exactly when `injectLoadCommand` succeeds on a well-formed image, and which error it gives otherwise
    (scripts/colaw-webview-unlock.ts:123-175). */
module InjectGuarantees {
  import opened Bytes
  import opened LoadCommands
  import opened Numbers
  import opened UnlockGuarantees

  // ----- Where commands stand -----

  /** Where command `i` stands when the first stands at `off`. */
  function Stands(off: nat, cs: seq<seq<Byte>>, i: nat): nat
    requires i <= |cs|
  {
    off + |Flat(cs[..i])|
  }

  lemma StandsNext(off: nat, cs: seq<seq<Byte>>, i: nat)
    requires i < |cs|
    ensures Stands(off, cs, i + 1) == Stands(off + |cs[0]|, cs[1..], i)
    ensures Stands(off, cs, 0) == off
  {
    assert cs[..i + 1][1..] == cs[1..][..i] && cs[..i + 1][0] == cs[0];
  }

  predicate IsSegment(c: seq<Byte>) { |c| >= 8 && U32(c, 0) == LC_SEGMENT_64 }

  /** The offset and size fields of every segment command lie inside a file of this size. */
  ghost predicate FieldsIn(size: nat, off: nat, cs: seq<seq<Byte>>) {
    forall i | 0 <= i < |cs| && IsSegment(cs[i]) :: Stands(off, cs, i) + 56 <= size
  }

  /** The segment described at `at` is backed by file contents that begin at or after `end`, but not `room`
      bytes after. */
  predicate Crowds(t: seq<Byte>, at: nat, end: nat, room: nat) {
    at + 56 <= |t| && U64(t, at + 48) > 0 && end <= U64(t, at + 40) < end + room
  }

  ghost predicate NoneCrowds(t: seq<Byte>, off: nat, cs: seq<seq<Byte>>, end: nat, room: nat) {
    forall i | 0 <= i < |cs| && IsSegment(cs[i]) :: !Crowds(t, Stands(off, cs, i), end, room)
  }

  lemma FieldsStep(size: nat, off: nat, cs: seq<seq<Byte>>)
    requires cs != []
    ensures FieldsIn(size, off, cs) <==>
              (IsSegment(cs[0]) ==> off + 56 <= size) && FieldsIn(size, off + |cs[0]|, cs[1..])
  {
    hide IsSegment, Stands;
    StandsNext(off, cs, 0);
    forall i | 0 <= i < |cs[1..]| ensures cs[1..][i] == cs[i + 1] &&
        Stands(off, cs, i + 1) == Stands(off + |cs[0]|, cs[1..], i) {
      StandsNext(off, cs, i);
    }
    if (IsSegment(cs[0]) ==> off + 56 <= size) && FieldsIn(size, off + |cs[0]|, cs[1..]) {
      forall i | 0 <= i < |cs| && IsSegment(cs[i]) ensures Stands(off, cs, i) + 56 <= size {
        if i > 0 { assert cs[1..][i - 1] == cs[i]; }
      }
    }
  }

  lemma CrowdsStep(t: seq<Byte>, off: nat, cs: seq<seq<Byte>>, end: nat, room: nat)
    requires cs != []
    ensures NoneCrowds(t, off, cs, end, room)
       <==> (IsSegment(cs[0]) ==> !Crowds(t, off, end, room)) && NoneCrowds(t, off + |cs[0]|, cs[1..], end, room)
  {
    hide IsSegment, Stands, Crowds;
    StandsNext(off, cs, 0);
    forall i | 0 <= i < |cs[1..]| ensures cs[1..][i] == cs[i + 1] &&
        Stands(off, cs, i + 1) == Stands(off + |cs[0]|, cs[1..], i) {
      StandsNext(off, cs, i);
    }
    if (IsSegment(cs[0]) ==> !Crowds(t, off, end, room)) && NoneCrowds(t, off + |cs[0]|, cs[1..], end, room) {
      forall i | 0 <= i < |cs| && IsSegment(cs[i]) ensures !Crowds(t, Stands(off, cs, i), end, room) {
        if i > 0 { assert cs[1..][i - 1] == cs[i]; }
      }
    }
  }

  // ----- Measuring the slack -----

  /** The script measures at least `room` exactly when no segment crowds it, and cannot measure exactly when
      some segment's fields are out of range. */
  lemma {:induction false} MeasuresExactly(t: seq<Byte>, off: nat, cs: seq<seq<Byte>>, rest: seq<Byte>, end: nat,
                                           slack: nat,
                                           room: nat)
    requires Holds(t, off, cs, rest) && end + room <= TWO_53
    ensures SlackFrom(t, off, |cs|, end, slack).Slack? <==> FieldsIn(|t|, off, cs)
    ensures SlackFrom(t, off, |cs|, end, slack).Slack? ==>
              (room <= SlackFrom(t, off, |cs|, end, slack).room <==> room <= slack && NoneCrowds(t, off, cs, end, room))
    decreases |cs|
  {
    hide Holds, FieldsIn, NoneCrowds, U64, U32, Number, Crowds, UnlockAt, IsUnlock, NoUnlock, Flat;
    if cs == [] {
      NoSegments(|t|, t, off, end, room);
    } else {
      StepOver(t, off, cs, rest);
      FieldsStep(|t|, off, cs);
      CrowdsStep(t, off, cs, end, room);
      MeasuresExactly(t, off + |cs[0]|, cs[1..], rest, end, NextSlack(t, off, end, slack), room);
      NextCrowds(t, off, end, slack, room);
    }
  }

  lemma NoSegments(size: nat, t: seq<Byte>, off: nat, end: nat, room: nat)
    ensures FieldsIn(size, off, []) && NoneCrowds(t, off, [], end, room)
  {}

  lemma NextCrowds(t: seq<Byte>, off: nat, end: nat, slack: nat, room: nat)
    requires off + 8 <= |t| && end + room <= TWO_53
    ensures U32(t, off) != LC_SEGMENT_64 ==> NextSlack(t, off, end, slack) == slack
    ensures U32(t, off) == LC_SEGMENT_64 && off + 56 <= |t| ==>
              (room <= NextSlack(t, off, end, slack) <==> room <= slack && !Crowds(t, off, end, room))
  {
    if U32(t, off) == LC_SEGMENT_64 && off + 56 <= |t| {
      var fileoff, filesize := U64(t, off + 40), U64(t, off + 48);
      NumberReaches(fileoff, end);
      NumberReaches(fileoff, end + room);
      NumberReaches(filesize, 1);
    }
    hide U32, U64, Number;
  }

  lemma {:induction false} WithinFile(off: nat, cs: seq<seq<Byte>>, i: nat)
    requires i < |cs|
    ensures Stands(off, cs, i) + |cs[i]| <= off + |Flat(cs)|
    decreases i
  {
    StandsNext(off, cs, i);
    if i > 0 {
      StandsNext(off, cs, i - 1);
      WithinFile(off + |cs[0]|, cs[1..], i - 1);
    }
  }

  /** Where segment commands are whole, the commands alone tell whether a segment crowds. */
  lemma WholeCrowds(t: seq<Byte>, cs: seq<seq<Byte>>, rest: seq<Byte>, end: nat, room: nat)
    requires Holds(t, HEADER_SIZE, cs, rest) && WholeSegments(cs) && end + room <= TWO_53 && room <= MAX_SAFE_INTEGER
    ensures FieldsIn(|t|, HEADER_SIZE, cs)
    ensures NoneCrowds(t, HEADER_SIZE, cs, end, room) <==> LeavesRoom(cs, end, room)
  {
    hide U32, Flat, SlackFrom, NoneCrowds, LeavesRoom;
    forall i | 0 <= i < |cs| && IsSegment(cs[i]) ensures Stands(HEADER_SIZE, cs, i) + 56 <= |t| {
      assert IsCommand(cs[i]);
      WithinFile(HEADER_SIZE, cs, i);
    }
    MeasuresExactly(t, HEADER_SIZE, cs, rest, end, MAX_SAFE_INTEGER, room);
    SlackImage(t, HEADER_SIZE, cs, rest, end, MAX_SAFE_INTEGER, room);
  }

  // ----- The verdict -----

  /** What the command is to be written over is zero, a stranded copy of it apart. */
  predicate Padded(rest: seq<Byte>)
    requires |rest| >= 8
  {
    forall k | OrphanSize(rest) <= k < 72 && k < |rest| :: rest[k] == 0
  }

  lemma PaddedExactly(rest: seq<Byte>)
    requires |rest| >= 8 && OrphanSize(rest) <= |rest|
    ensures AllZero(Subarray(Scrubbed(rest), 0, CommandSize())) <==> Padded(rest)
  {
    CommandSizeIs();
    hide OrphanSize, CommandSize;
    var clean, gap := Scrubbed(rest), Subarray(Scrubbed(rest), 0, 72);
    assert forall k | 0 <= k < |gap| :: gap[k] == clean[k];
    assert forall k | 0 <= k < |rest| :: clean[k] == if k < OrphanSize(rest) then 0 else rest[k];
  }

  /** What injection says of an image, by what the image holds. */
  ghost predicate Says(s: seq<Byte>, cs: seq<seq<Byte>>, rest: seq<Byte>, verdict: Injection) {
    var end := HEADER_SIZE + |Flat(cs)|;
    if !NoUnlock(cs) then verdict == Already
    else if |rest| < 8 || OrphanSize(rest) > |rest| then verdict == InjectFailed(OutOfRange)
    else if !Padded(rest) then verdict == InjectFailed(NoPadding)
    else if !FieldsIn(|s|, HEADER_SIZE, cs) then verdict == InjectFailed(OutOfRange)
    else if end > |s| || !NoneCrowds(s[..end] + Scrubbed(rest), HEADER_SIZE, cs, end, 72)
        then verdict == InjectFailed(HeaderSlack)
    else if |cs| + 1 >= TWO_32 || |Flat(cs)| + 72 >= TWO_32 then verdict == InjectFailed(OutOfRange)
    else verdict.Injected?
  }

  lemma Reaches(s: seq<Byte>, cs: seq<seq<Byte>>, rest: seq<Byte>)
    requires Image(s, cs, rest) && NoUnlock(cs)
    ensures var end := HEADER_SIZE + |Flat(cs)|;
            Inject(s) == if |rest| < 8 then InjectFailed(OutOfRange) else InjectAt(s, end, |cs|, |Flat(cs)|)
  {
    hide Assemble, Holds, NoUnlock, ReadHeader, InjectAt;
    ImageAssembles(s, cs, rest);
    ScanThrough(s, HEADER_SIZE, cs, rest, 0);
  }

  /** The checks behind the scan, one after the other. */
  lemma ChecksAt(s: seq<Byte>, end: nat, rest: seq<Byte>, ncmds: nat, sizeofcmds: nat)
    requires 24 <= end && end + 8 <= |s| && s[end..] == rest
    ensures OrphanSize(rest) > |rest| ==> InjectAt(s, end, ncmds, sizeofcmds) == InjectFailed(OutOfRange)
    ensures OrphanSize(rest) <= |rest| ==>
              var slack := SlackFrom(s[..end] + Scrubbed(rest), HEADER_SIZE, ncmds, end, MAX_SAFE_INTEGER);
              var r := InjectAt(s, end, ncmds, sizeofcmds);
              if !AllZero(Subarray(Scrubbed(rest), 0, CommandSize())) then r == InjectFailed(NoPadding)
              else if !slack.Slack? then r == InjectFailed(OutOfRange)
              else if slack.room < CommandSize() then r == InjectFailed(HeaderSlack)
              else if ncmds + 1 >= TWO_32 || sizeofcmds + CommandSize() >= TWO_32 then r == InjectFailed(OutOfRange)
              else r.Injected?
  {
    hide OrphanSize, Scrubbed, SlackFrom, UnlockCommand, CommandSize, WithCounts, Overwrite, AllZero, Subarray;
  }

  /** Each condition for success, with the error when it is the first to fail. */
  lemma InjectVerdict(s: seq<Byte>, cs: seq<seq<Byte>>, rest: seq<Byte>)
    requires Image(s, cs, rest)
    ensures Says(s, cs, rest, Inject(s))
  {
    hide Image, Holds, NoUnlock, Inject, InjectAt, OrphanSize, Scrubbed, SlackFrom, FieldsIn, NoneCrowds, Padded, Flat,
        CommandSize, AllZero, Subarray, Assemble, ReadHeader;
    var end := HEADER_SIZE + |Flat(cs)|;
    ImageParts(s, cs, rest);
    ImageAssembles(s, cs, rest);
    AlreadyExactly(s, cs, rest);
    CommandSizeIs();
    if NoUnlock(cs) {
      Reaches(s, cs, rest);
      if |rest| >= 8 {
        ChecksAt(s, end, rest, |cs|, |Flat(cs)|);
        if OrphanSize(rest) <= |rest| {
          var clean := Scrubbed(rest);
          CleanHolds(s, cs, rest, clean);
          PaddedExactly(rest);
          MeasuresExactly(s[..end] + clean, HEADER_SIZE, cs, clean, end, MAX_SAFE_INTEGER, 72);
        }
      }
    }
  }

  /** Where segment commands are whole, injection succeeds exactly if no command loads the dylib, the file goes
      on for at least 8 bytes after the commands, with a stranded copy of ours in range and nothing but zeros
      in the place of the command besides, every later segment leaves its 72 bytes, and the counts can grow. */
  lemma InjectsExactly(s: seq<Byte>, cs: seq<seq<Byte>>, rest: seq<Byte>)
    requires Image(s, cs, rest) && WholeSegments(cs)
    ensures Inject(s).Injected? <==>
              && NoUnlock(cs) && |rest| >= 8 && OrphanSize(rest) <= |rest| && Padded(rest)
              && LeavesRoom(cs, HEADER_SIZE + |Flat(cs)|, 72)
              && |cs| + 1 < TWO_32 && |Flat(cs)| + 72 < TWO_32
  {
    hide Image, Holds, NoUnlock, Inject, OrphanSize, Scrubbed, FieldsIn, NoneCrowds, Padded, Flat, Assemble, ReadHeader,
        LeavesRoom, WholeSegments;
    var end := HEADER_SIZE + |Flat(cs)|;
    ImageParts(s, cs, rest);
    ImageAssembles(s, cs, rest);
    InjectVerdict(s, cs, rest);
    if |rest| >= 8 && OrphanSize(rest) <= |rest| {
      CleanHolds(s, cs, rest, Scrubbed(rest));
      WholeCrowds(s[..end] + Scrubbed(rest), cs, Scrubbed(rest), end, 72);
    }
  }

  // ----- The command itself, and a stranded copy of it -----

  /** The bytes injected, field by field: the name stands where the name offset says, ended by a NUL, and the
      whole is padded with zeros to a multiple of eight. */
  lemma UnlockCommandLayout()
    ensures var c := UnlockCommand(); var at := U32(c, 8);
            && U32(c, 0) == 0xc && U32(c, 4) == |c| == 72 && U32(c, 12) == 1 && U32(c, 16) == 0 && U32(c, 20) == 0
            && at == 24 && c[at..at + |INSTALL_NAME|] == Ascii(INSTALL_NAME)
            && forall i | at + |INSTALL_NAME| <= i < |c| :: c[i] == 0
  {
    hide U32, LE32, Ascii, Zeros;
    var c := UnlockCommand();
    CommandSizeIs();
    assert c[0..4] == LE32(LC_LOAD_DYLIB) && c[4..8] == LE32(CommandSize()) && c[8..12] == LE32(24);
    assert c[12..16] == LE32(1) && c[16..20] == LE32(0) && c[20..24] == LE32(0);
    LE32Read(LC_LOAD_DYLIB, c, 0);
    LE32Read(CommandSize(), c, 4);
    LE32Read(24, c, 8);
    LE32Read(1, c, 12);
    LE32Read(0, c, 16);
    LE32Read(0, c, 20);
    var zeros := Zeros(CommandSize() - 24 - |INSTALL_NAME|);
    assert c[24..] == Ascii(INSTALL_NAME) + zeros;
    assert forall i | 24 + |INSTALL_NAME| <= i < |c| :: c[i] == zeros[i - 24 - |INSTALL_NAME|];
  }

  /** What stands after the commands is taken for a stranded copy exactly if it is a command that loads the dylib,
      of at most 4096 bytes; and only that is scrubbed. */
  lemma StrandedExactly(c: seq<Byte>, rest: seq<Byte>)
    requires IsCommand(c)
    ensures OrphanSize(c + rest) == if IsUnlock(c) && |c| <= 4096 then |c| else 0
    ensures Scrubbed(c + rest) == (if IsUnlock(c) && |c| <= 4096 then Zeros(|c|) else c) + rest
  {
    var r := c + rest;
    hide U32, Zeros, NamesUnlock;
    assert r[0..4] == c[0..4] && r[4..8] == c[4..8];
    SameU32(r, c, 0, 0);
    SameU32(r, c, 4, 4);
    if |c| >= 24 { assert Subarray(r, 24, |c|) == c[24..]; }
    assert r[|c|..] == rest && r[0..] == r;
    assert Zeros(0) == [];
  }

  /** So the copy of the command that an earlier removal left behind is. */
  lemma CopyScrubbed(rest: seq<Byte>)
    ensures OrphanSize(UnlockCommand() + rest) == 72 && Scrubbed(UnlockCommand() + rest) == Zeros(72) + rest
  {
    hide OrphanSize, Scrubbed, UnlockCommand, IsUnlock, IsCommand, Zeros, CommandSize;
    CommandSizeIs();
    UnlockCommandIsUnlock();
    StrandedExactly(UnlockCommand(), rest);
  }
}
