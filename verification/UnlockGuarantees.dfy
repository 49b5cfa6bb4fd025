/** What injecting and removing the unlock command do to a well-formed image. */
module UnlockGuarantees {
  import opened Sequences
  import opened Bytes
  import opened LoadCommands
  import opened Numbers

  // ----- Well-formed images -----

  /** A load command: at least its own header, and as long as its size field says. */
  ghost predicate IsCommand(c: seq<Byte>) {
    |c| >= 8 && U32(c, 4) == |c|
  }

  function Flat(cs: seq<seq<Byte>>): seq<Byte> {
    if cs == [] then [] else cs[0] + Flat(cs[1..])
  }

  /** `s` is an arm64 Mach-O file: a header whose counts describe the commands `cs`, then `rest`. */
  ghost predicate Image(s: seq<Byte>, cs: seq<seq<Byte>>, rest: seq<Byte>) {
    && |s| >= HEADER_SIZE && U32(s, 0) == MH_MAGIC_64 && U32(s, 4) == CPU_TYPE_ARM64
    && U32(s, 16) == |cs| && U32(s, 20) == |Flat(cs)|
    && (forall i | 0 <= i < |cs| :: IsCommand(cs[i]))
    && s[HEADER_SIZE..] == Flat(cs) + rest
  }

  /** `c` loads the unlock dylib. */
  ghost predicate IsUnlock(c: seq<Byte>)
    requires IsCommand(c)
  {
    U32(c, 0) == LC_LOAD_DYLIB && |c| >= 24 && NamesUnlock(c[24..])
  }

  ghost predicate NoUnlock(cs: seq<seq<Byte>>) {
    forall i | 0 <= i < |cs| && IsCommand(cs[i]) :: !IsUnlock(cs[i])
  }

  lemma {:induction false} FlatConcat(a: seq<seq<Byte>>, b: seq<seq<Byte>>)
    ensures Flat(a + b) == Flat(a) + Flat(b)
  {
    if a == [] {
      assert a + b == b;
    } else {
      FlatConcat(a[1..], b);
      assert (a + b)[1..] == a[1..] + b && (a + b)[0] == a[0];
      Associate(a[0], Flat(a[1..]), Flat(b));
    }
  }

  lemma FlatHead(cs: seq<seq<Byte>>, rest: seq<Byte>)
    requires cs != []
    ensures Flat(cs) + rest == cs[0] + (Flat(cs[1..]) + rest) && |Flat(cs)| == |cs[0]| + |Flat(cs[1..])|
  {
    Associate(cs[0], Flat(cs[1..]), rest);
  }

  lemma FlatOne(c: seq<Byte>)
    ensures Flat([c]) == c
  {
    assert [c][1..] == [];
  }

  // ----- Walking an image -----

  /** What the walk reads where a command starts. */
  lemma AtCommand(s: seq<Byte>, off: nat, c: seq<Byte>, tail: seq<Byte>)
    requires off <= |s| && s[off..] == c + tail && IsCommand(c)
    ensures off + 8 <= off + |c| <= |s| && U32(s, off) == U32(c, 0) && U32(s, off + 4) == |c|
    ensures UnlockAt(s, off) == IsUnlock(c) && s[off + |c|..] == tail
  {
    hide U32, NamesUnlock;
    Part(s, off, c, tail, 0, 4);
    SameU32(s, c, off, 0);
    Part(s, off, c, tail, 4, 8);
    SameU32(s, c, off + 4, 4);
    Part(s, off, c, tail, 0, |c|);
    if |c| >= 24 {
      Part(s, off, c, tail, 24, |c|);
      assert Subarray(s, off + 24, off + |c|) == c[24..];
    }
  }

  lemma Part(s: seq<Byte>, off: nat, c: seq<Byte>, tail: seq<Byte>, i: nat, j: nat)
    requires off <= |s| && s[off..] == c + tail && i <= j <= |c|
    ensures off + |c| <= |s| && s[off + i..off + j] == c[i..j] && s[off + |c|..] == tail
  {
    assert |s[off..]| == |c| + |tail|;
    forall k | 0 <= k < j - i ensures s[off + i..off + j][k] == c[i..j][k] {
      assert s[off..][i + k] == c[i + k];
    }
    assert s[off + |c|..] == s[off..][|c|..];
  }

  /** From `off` the file holds the commands `cs` and then `rest`. */
  ghost predicate Holds(s: seq<Byte>, off: nat, cs: seq<seq<Byte>>, rest: seq<Byte>) {
    off <= |s| && s[off..] == Flat(cs) + rest && forall i | 0 <= i < |cs| :: IsCommand(cs[i])
  }

  lemma StepOver(s: seq<Byte>, off: nat, cs: seq<seq<Byte>>, rest: seq<Byte>)
    requires Holds(s, off, cs, rest) && cs != []
    ensures IsCommand(cs[0]) && off + 8 <= off + |cs[0]| <= |s| && U32(s, off) == U32(cs[0], 0) &&
            U32(s, off + 4) == |cs[0]|
    ensures UnlockAt(s, off) == IsUnlock(cs[0]) && Holds(s, off + |cs[0]|, cs[1..], rest)
    ensures |Flat(cs)| == |cs[0]| + |Flat(cs[1..])|
    ensures NoUnlock(cs) <==> !IsUnlock(cs[0]) && NoUnlock(cs[1..])
    ensures |cs[0]| >= 56 ==>
              off + 56 <= |s| && U64(s, off + 40) == U64(cs[0], 40) && U64(s, off + 48) == U64(cs[0], 48)
  {
    var tail := Flat(cs[1..]) + rest;
    FlatHead(cs, rest);
    AtCommand(s, off, cs[0], tail);
    if |cs[0]| >= 56 {
      SameU64(s, off, cs[0], tail, 40);
      SameU64(s, off, cs[0], tail, 48);
    }
    NoUnlockStep(cs);
  }

  lemma NoUnlockStep(cs: seq<seq<Byte>>)
    requires cs != [] && forall i | 0 <= i < |cs| :: IsCommand(cs[i])
    ensures NoUnlock(cs) <==> !IsUnlock(cs[0]) && NoUnlock(cs[1..])
  {
    hide IsUnlock, IsCommand;
    forall i | 0 <= i < |cs[1..]| ensures cs[1..][i] == cs[i + 1] { }
    if !IsUnlock(cs[0]) && NoUnlock(cs[1..]) {
      forall i | 0 <= i < |cs| ensures !IsUnlock(cs[i]) {
        if i > 0 { assert cs[1..][i - 1] == cs[i]; }
      }
    }
  }

  lemma ScanStep(s: seq<Byte>, off: nat, n: nat)
    requires n > 0 && off + 8 <= |s|
    ensures ScanFor(s, off, n) == if UnlockAt(s, off) then Present else ScanFor(s, off + U32(s, off + 4), n - 1)
  { }

  lemma NoCommands(cs: seq<seq<Byte>>)
    requires cs == []
    ensures Flat(cs) == [] && NoUnlock(cs)
  { }

  /** Scanning past `cs`, with `n` commands still to come. */
  lemma {:induction false} ScanThrough(s: seq<Byte>, off: nat, cs: seq<seq<Byte>>, rest: seq<Byte>, n: nat)
    requires Holds(s, off, cs, rest)
    ensures ScanFor(s, off, |cs| + n) == if NoUnlock(cs) then ScanFor(s, off + |Flat(cs)|, n) else Present
    decreases |cs|
  {
    hide *;
    if cs == [] {
      NoCommands(cs);
    } else {
      StepOver(s, off, cs, rest);
      ScanStep(s, off, |cs| + n);
      ScanThrough(s, off + |cs[0]|, cs[1..], rest, n);
    }
  }

  /** Searching past `cs`, which holds no unlock command, with `n` commands still to come. */
  lemma {:induction false} FindThrough(s: seq<Byte>, off: nat, cs: seq<seq<Byte>>, rest: seq<Byte>, found: Last, n: nat)
    requires Holds(s, off, cs, rest) && NoUnlock(cs)
    ensures FindLast(s, off, |cs| + n, found) == FindLast(s, off + |Flat(cs)|, n, found)
    decreases |cs|
  {
    hide *;
    if cs == [] {
      NoCommands(cs);
    } else {
      StepOver(s, off, cs, rest);
      FindStep(s, off, |cs| + n, found);
      FindThrough(s, off + |cs[0]|, cs[1..], rest, found, n);
    }
  }

  lemma FindNothing(s: seq<Byte>, off: nat, cs: seq<seq<Byte>>, rest: seq<Byte>, found: Last)
    requires Holds(s, off, cs, rest) && NoUnlock(cs)
    ensures FindLast(s, off, |cs|, found) == found
  {
    hide *;
    FindThrough(s, off, cs, rest, found, 0);
    FindEnd(s, off + |Flat(cs)|, found);
  }

  /** Command `k` is the last unlock command. */
  ghost predicate LastUnlock(cs: seq<seq<Byte>>, k: nat) {
    k < |cs| && IsCommand(cs[k]) && IsUnlock(cs[k]) && NoUnlock(cs[k + 1..])
  }

  lemma LastUnlockStep(cs: seq<seq<Byte>>, k: nat)
    requires k < |cs| && LastUnlock(cs, k)
    ensures k == 0 ==> NoUnlock(cs[1..])
    ensures k > 0 ==>
              LastUnlock(cs[1..], k - 1) && |Flat(cs[..k])| == |cs[0]| + |Flat(cs[1..][..k - 1])| &&
                  cs[1..][k - 1] == cs[k]
    ensures k == 0 ==> Flat(cs[..k]) == [] && IsUnlock(cs[0])
  {
    if k > 0 {
      assert cs[1..][k..] == cs[k + 1..];
      assert cs[..k][1..] == cs[1..][..k - 1];
      FlatHead(cs[..k], []);
    }
  }

  lemma {:induction false} FindImage(s: seq<Byte>, off: nat, cs: seq<seq<Byte>>, rest: seq<Byte>, found: Last, k: nat)
    requires Holds(s, off, cs, rest) && k < |cs| && LastUnlock(cs, k)
    ensures FindLast(s, off, |cs|, found) == At(off + |Flat(cs[..k])|, |cs[k]|)
    decreases |cs|
  {
    hide *;
    StepOver(s, off, cs, rest);
    LastUnlockStep(cs, k);
    FindStep(s, off, |cs|, found);
    var found' := if IsUnlock(cs[0]) then At(off, |cs[0]|) else found;
    if k == 0 {
      FindNothing(s, off + |cs[0]|, cs[1..], rest, found');
    } else {
      FindImage(s, off + |cs[0]|, cs[1..], rest, found', k - 1);
    }
  }

  lemma FindEnd(s: seq<Byte>, off: nat, found: Last)
    ensures FindLast(s, off, 0, found) == found
  { }

  lemma FindStep(s: seq<Byte>, off: nat, n: nat, found: Last)
    requires n > 0 && off + 8 <= |s|
    ensures FindLast(s, off, n, found)
         == FindLast(s, off + U32(s, off + 4), n - 1, if UnlockAt(s, off) then At(off, U32(s, off + 4)) else found)
  { }

  /** A file-backed segment command whose data starts at or after `end`. */
  ghost predicate FileBackedAfter(c: seq<Byte>, end: nat)
    requires IsCommand(c)
  {
    |c| >= 56 && U32(c, 0) == LC_SEGMENT_64 && U64(c, 48) > 0 && U64(c, 40) >= end
  }

  /** Every file-backed segment after `end` leaves at least `room` bytes. */
  ghost predicate LeavesRoom(cs: seq<seq<Byte>>, end: nat, room: nat) {
    forall i | 0 <= i < |cs| && IsCommand(cs[i]) && FileBackedAfter(cs[i], end) :: room <= U64(cs[i], 40) - end
  }

  /** Segment commands hold the fields the measurement reads. */
  ghost predicate WholeSegments(cs: seq<seq<Byte>>) {
    forall i | 0 <= i < |cs| && IsCommand(cs[i]) && U32(cs[i], 0) == LC_SEGMENT_64 :: |cs[i]| >= 56
  }

  ghost predicate Leaves(c: seq<Byte>, end: nat, room: nat) {
    IsCommand(c) && FileBackedAfter(c, end) ==> room <= U64(c, 40) - end
  }

  lemma LeavesRoomStep(cs: seq<seq<Byte>>, end: nat, room: nat)
    requires cs != []
    ensures LeavesRoom(cs, end, room) <==> Leaves(cs[0], end, room) && LeavesRoom(cs[1..], end, room)
    ensures WholeSegments(cs) ==> WholeSegments(cs[1..])
  {
    hide U32, U64, IsCommand;
    forall i | 0 <= i < |cs[1..]| ensures cs[1..][i] == cs[i + 1] { }
    if Leaves(cs[0], end, room) && LeavesRoom(cs[1..], end, room) {
      forall i | 0 <= i < |cs| && IsCommand(cs[i]) && FileBackedAfter(cs[i], end) ensures room <= U64(cs[i], 40) - end {
        if i > 0 { assert cs[1..][i - 1] == cs[i]; }
      }
    }
  }

  /** Although the script rounds offsets above 2^53, it measures at least `room` only if every file-backed
      segment after `end` leaves that much, and then always if segment commands are whole. */
  lemma {:induction false} SlackImage(s: seq<Byte>, off: nat, cs: seq<seq<Byte>>, rest: seq<Byte>, end: nat, slack: nat,
                                      room: nat)
    requires Holds(s, off, cs, rest) && SlackFrom(s, off, |cs|, end, slack).Slack? && end + room <= TWO_53
    ensures room <= SlackFrom(s, off, |cs|, end, slack).room ==> room <= slack && LeavesRoom(cs, end, room)
    ensures WholeSegments(cs) && room <= slack && LeavesRoom(cs, end, room) ==>
              room <= SlackFrom(s, off, |cs|, end, slack).room
    decreases |cs|
  {
    if cs != [] {
      hide Holds, U32, UnlockAt, IsUnlock, Flat, U64, NoUnlock, IsCommand, LeavesRoom, WholeSegments, FileBackedAfter,
          Leaves, Number, NextSlack;
      StepOver(s, off, cs, rest);
      SlackImage(s, off + |cs[0]|, cs[1..], rest, end, NextSlack(s, off, end, slack), room);
      LeavesRoomStep(cs, end, room);
      NextLeaves(s, off, cs, rest, end, slack, room);
      NextMeasured(s, off, |cs|, end, slack);
    }
  }

  function NextSlack(s: seq<Byte>, off: nat, end: nat, slack: nat): nat
    requires off + 8 <= |s|
  {
    if U32(s, off) != LC_SEGMENT_64 || off + 56 > |s| then slack
    else
      var fileoff, filesize := Number(U64(s, off + 40)), Number(U64(s, off + 48));
      if filesize > 0 && fileoff >= end && fileoff - end < slack then fileoff - end else slack
  }

  lemma NextMeasured(s: seq<Byte>, off: nat, n: nat, end: nat, slack: nat)
    requires n > 0 && off + 8 <= |s| && SlackFrom(s, off, n, end, slack).Slack?
    ensures SlackFrom(s, off, n, end, slack) ==
              SlackFrom(s, off + U32(s, off + 4), n - 1, end, NextSlack(s, off, end, slack))
    ensures U32(s, off) == LC_SEGMENT_64 ==> off + 56 <= |s|
  {}

  lemma NextLeaves(s: seq<Byte>, off: nat, cs: seq<seq<Byte>>, rest: seq<Byte>, end: nat, slack: nat, room: nat)
    requires Holds(s, off, cs, rest) && cs != [] && end + room <= TWO_53 && off + 8 <= |s|
    requires U32(s, off) == LC_SEGMENT_64 ==> off + 56 <= |s|
    ensures room <= NextSlack(s, off, end, slack) ==> room <= slack && Leaves(cs[0], end, room)
    ensures WholeSegments(cs) && room <= slack && Leaves(cs[0], end, room) ==> room <= NextSlack(s, off, end, slack)
  {
    if U32(s, off) == LC_SEGMENT_64 {
      var fileoff, filesize := U64(s, off + 40), U64(s, off + 48);
      NumberReaches(fileoff, end);
      NumberReaches(fileoff, end + room);
      NumberReaches(filesize, 1);
    }
    StepOver(s, off, cs, rest);
    hide U32, U64, Holds, Number, Flat, UnlockAt, IsUnlock, NoUnlock;
  }

  lemma SameU64(s: seq<Byte>, off: nat, c: seq<Byte>, tail: seq<Byte>, at: nat)
    requires off <= |s| && s[off..] == c + tail && at + 8 <= |c|
    ensures off + at + 8 <= |s| && U64(s, off + at) == U64(c, at)
  {
    var t := c + tail;
    assert s[off + at..off + at + 4] == t[at..at + 4] == c[at..at + 4];
    SameU32(s, c, off + at, at);
    assert s[off + at + 4..off + at + 8] == t[at + 4..at + 8] == c[at + 4..at + 8];
    SameU32(s, c, off + at + 4, at + 4);
  }

  // ----- The install name -----

  lemma {:induction false} IndexOfZeroBound(s: seq<Byte>)
    ensures -1 <= IndexOfZero(s) < |s| && (IndexOfZero(s) >= 0 ==> s[IndexOfZero(s)] == 0)
  {
    if s != [] && s[0] != 0 { IndexOfZeroBound(s[1..]); }
  }

  lemma {:induction false} IndexOfZeroAfter(p: seq<Byte>, q: seq<Byte>)
    requires (forall i | 0 <= i < |p| :: p[i] != 0) && q != [] && q[0] == 0
    ensures IndexOfZero(p + q) == |p|
  {
    if p == [] {
      assert p + q == q;
    } else {
      assert (p + q)[1..] == p[1..] + q;
      IndexOfZeroAfter(p[1..], q);
    }
  }

  lemma InstallNameHasNoZero()
    ensures forall i | 0 <= i < |INSTALL_NAME| :: Ascii(INSTALL_NAME)[i] != 0
  {
    forall i | 0 <= i < |INSTALL_NAME| ensures Ascii(INSTALL_NAME)[i] != 0 { InstallNameChar(i); }
  }

  lemma InstallNameChar(i: nat)
    requires i < |INSTALL_NAME|
    ensures 0 < INSTALL_NAME[i] as int < 0x80
  {
    assert INSTALL_NAME[i] in {'@', '_', '/', '.'} || 'a' <= INSTALL_NAME[i] <= 'z' || 'A' <= INSTALL_NAME[i] <= 'Z';
  }

  /** A payload names the unlock dylib exactly when it starts with the name and a NUL. */
  lemma NamesUnlockExactly(payload: seq<Byte>)
    ensures NamesUnlock(payload) <==> Ascii(INSTALL_NAME) + [0] <= payload
  {
    var name := Ascii(INSTALL_NAME);
    var n := |name|;
    IndexOfZeroBound(payload);
    if name + [0] <= payload {
      InstallNameHasNoZero();
      assert payload == name + payload[n..] && payload[n..][0] == 0;
      IndexOfZeroAfter(name, payload[n..]);
    }
    if NamesUnlock(payload) {
      assert payload[..n] == name && payload[n] == 0;
    }
  }

  lemma UnlockCommandIsUnlock()
    ensures IsCommand(UnlockCommand()) && IsUnlock(UnlockCommand())
  {
    hide U32, LE32, Ascii, Zeros, NamesUnlock;
    var c := UnlockCommand();
    CommandSizeIs();
    assert c[0..4] == LE32(LC_LOAD_DYLIB) && c[4..8] == LE32(CommandSize());
    LE32Read(LC_LOAD_DYLIB, c, 0);
    LE32Read(CommandSize(), c, 4);
    assert c[24..] == Ascii(INSTALL_NAME) + Zeros(CommandSize() - 24 - |INSTALL_NAME|);
    ZeroAfter(Ascii(INSTALL_NAME), Zeros(CommandSize() - 24 - |INSTALL_NAME|));
    NamesUnlockExactly(c[24..]);
  }

  lemma ZeroAfter(name: seq<Byte>, zeros: seq<Byte>)
    requires zeros != [] && zeros[0] == 0
    ensures name + [0] <= name + zeros
  {}

  // ----- Images by their parts -----

  /** The file with the header of `head`, the commands `cs` and then `rest`. */
  function Assemble(head: seq<Byte>, cs: seq<seq<Byte>>, rest: seq<Byte>): seq<Byte>
    requires |head| >= HEADER_SIZE && |cs| < TWO_32 && |Flat(cs)| < TWO_32
  {
    WithCounts(head, |cs|, |Flat(cs)|)[..HEADER_SIZE] + Flat(cs) + rest
  }

  lemma ImageAssembles(s: seq<Byte>, cs: seq<seq<Byte>>, rest: seq<Byte>)
    requires Image(s, cs, rest)
    ensures |cs| < TWO_32 && |Flat(cs)| < TWO_32 && s == Assemble(s, cs, rest)
    ensures ReadHeader(s) == Header(|cs|, |Flat(cs)|) && Holds(s, HEADER_SIZE, cs, rest)
    ensures HEADER_SIZE + |Flat(cs)| <= |s| && s[HEADER_SIZE + |Flat(cs)|..] == rest
  {
    LE32Unique(s, 16);
    LE32Unique(s, 20);
    assert s[..HEADER_SIZE] == s[..16] + s[16..20] + s[20..24] + s[24..HEADER_SIZE];
    assert WithCounts(s, |cs|, |Flat(cs)|)[..HEADER_SIZE] == s[..HEADER_SIZE];
    assert s == s[..HEADER_SIZE] + s[HEADER_SIZE..];
  }

  lemma CountsRead(head: seq<Byte>, n: nat, z: nat, tail: seq<Byte>)
    requires |head| >= HEADER_SIZE && n < TWO_32 && z < TWO_32
    ensures var s := WithCounts(head, n, z)[..HEADER_SIZE] + tail;
            U32(s, 0) == U32(head, 0) && U32(s, 4) == U32(head, 4) && U32(s, 16) == n && U32(s, 20) == z
  {
    hide LE32, Compose, U32;
    var s := WithCounts(head, n, z)[..HEADER_SIZE] + tail;
    assert s == head[..16] + LE32(n) + (LE32(z) + head[24..HEADER_SIZE] + tail);
    assert s == head[..16] + LE32(n) + LE32(z) + (head[24..HEADER_SIZE] + tail);
    Middle(head[..16], LE32(n), LE32(z) + head[24..HEADER_SIZE] + tail);
    Middle(head[..16] + LE32(n), LE32(z), head[24..HEADER_SIZE] + tail);
    SameU32(s, head, 0, 0);
    SameU32(s, head, 4, 4);
    LE32Read(n, s, 16);
    LE32Read(z, s, 20);
  }

  lemma Middle<T>(a: seq<T>, b: seq<T>, c: seq<T>)
    ensures (a + b + c)[|a|..|a| + |b|] == b
  { }

  lemma AssembleImage(head: seq<Byte>, cs: seq<seq<Byte>>, rest: seq<Byte>)
    requires |head| >= HEADER_SIZE && |cs| < TWO_32 && |Flat(cs)| < TWO_32
    requires U32(head, 0) == MH_MAGIC_64 && U32(head, 4) == CPU_TYPE_ARM64
    requires forall i | 0 <= i < |cs| :: IsCommand(cs[i])
    ensures Image(Assemble(head, cs, rest), cs, rest)
  {
    hide LE32, Compose, U32, IsCommand, Flat;
    var s := Assemble(head, cs, rest);
    CountsRead(head, |cs|, |Flat(cs)|, Flat(cs) + rest);
    assert s == WithCounts(head, |cs|, |Flat(cs)|)[..HEADER_SIZE] + (Flat(cs) + rest);
    assert s[HEADER_SIZE..] == Flat(cs) + rest;
  }

  /** Only the header of `head` matters, and its counts do not. */
  lemma AssembleHead(head: seq<Byte>, cs: seq<seq<Byte>>, rest: seq<Byte>, ds: seq<seq<Byte>>, tail: seq<Byte>)
    requires |head| >= HEADER_SIZE && |cs| < TWO_32 && |Flat(cs)| < TWO_32 && |ds| < TWO_32 && |Flat(ds)| < TWO_32
    ensures |Assemble(head, cs, rest)| >= HEADER_SIZE
    ensures Assemble(Assemble(head, cs, rest), ds, tail) == Assemble(head, ds, tail)
  {
    hide LE32, Flat;
    var s := Assemble(head, cs, rest);
    assert s[..16] == head[..16] && s[24..HEADER_SIZE] == head[24..HEADER_SIZE];
    assert WithCounts(s, |ds|, |Flat(ds)|)[..HEADER_SIZE] ==
        s[..16] + LE32(|ds|) + LE32(|Flat(ds)|) + s[24..HEADER_SIZE];
    assert WithCounts(head, |ds|, |Flat(ds)|)[..HEADER_SIZE] ==
        head[..16] + LE32(|ds|) + LE32(|Flat(ds)|) + head[24..HEADER_SIZE];
  }

  // ----- Injecting -----

  /** Injection finds the command already there exactly when some command loads the dylib. */
  lemma AlreadyExactly(s: seq<Byte>, cs: seq<seq<Byte>>, rest: seq<Byte>)
    requires Image(s, cs, rest)
    ensures Inject(s) == Already <==> !NoUnlock(cs)
  {
    hide Image, Assemble, Holds, NoUnlock, ReadHeader, InjectAt;
    ImageAssembles(s, cs, rest);
    ScanThrough(s, HEADER_SIZE, cs, rest, 0);
  }

  /** A successful injection got as far as editing a file without the command. */
  lemma InjectReaches(s: seq<Byte>, cs: seq<seq<Byte>>, rest: seq<Byte>)
    requires Image(s, cs, rest) && Inject(s).Injected?
    ensures NoUnlock(cs) && |rest| >= 8 && HEADER_SIZE + |Flat(cs)| + 8 <= |s|
    ensures Inject(s) == InjectAt(s, HEADER_SIZE + |Flat(cs)|, |cs|, |Flat(cs)|)
  {
    hide Image, Assemble, Holds, NoUnlock, ReadHeader, InjectAt;
    ImageAssembles(s, cs, rest);
    ScanThrough(s, HEADER_SIZE, cs, rest, 0);
  }

  /** The contents before the counts are written, by their parts. */
  lemma CountsAssemble(s: seq<Byte>, cs: seq<seq<Byte>>, body: seq<Byte>, rest: seq<Byte>, ds: seq<seq<Byte>>)
    requires |s| >= HEADER_SIZE && |ds| < TWO_32 && |Flat(ds)| < TWO_32
    requires body == s[..HEADER_SIZE] + Flat(ds) + rest
    ensures WithCounts(body, |ds|, |Flat(ds)|) == Assemble(s, ds, rest)
  {
    hide LE32, Flat;
    assert body[..16] == s[..16] && body[24..] == s[24..HEADER_SIZE] + Flat(ds) + rest;
    assert WithCounts(s, |ds|, |Flat(ds)|)[..HEADER_SIZE] ==
        s[..16] + LE32(|ds|) + LE32(|Flat(ds)|) + s[24..HEADER_SIZE];
  }

  /** What a successful injection checked. */
  lemma InjectChecked(s: seq<Byte>, cs: seq<seq<Byte>>, rest: seq<Byte>)
    requires Image(s, cs, rest) && Inject(s).Injected?
    ensures NoUnlock(cs) && |rest| >= 8 && OrphanSize(rest) <= |rest|
    ensures AllZero(Subarray(Scrubbed(rest), 0, CommandSize()))
    ensures LeavesRoom(cs, HEADER_SIZE + |Flat(cs)|, CommandSize())
    ensures |cs| + 1 < TWO_32 && |Flat(cs)| + CommandSize() < TWO_32
    ensures var end := HEADER_SIZE + |Flat(cs)|; var t := s[..end] + Scrubbed(rest);
            end <= |t| &&
                Inject(s).bytes == WithCounts(Overwrite(t, end, UnlockCommand()), |cs| + 1, |Flat(cs)| + CommandSize())
  {
    hide *;
    var end := HEADER_SIZE + |Flat(cs)|;
    InjectReaches(s, cs, rest);
    ImageParts(s, cs, rest);
    ImageAssembles(s, cs, rest);
    InjectAtChecked(s, end, |cs|, |Flat(cs)|);
    var clean := Scrubbed(rest);
    CleanHolds(s, cs, rest, clean);
    RoomLeft(s[..end] + clean, cs, clean, end);
  }

  lemma InjectAtChecked(s: seq<Byte>, end: nat, ncmds: nat, sizeofcmds: nat)
    requires 24 <= end && end + 8 <= |s| && InjectAt(s, end, ncmds, sizeofcmds).Injected?
    ensures OrphanSize(s[end..]) <= |s[end..]|
    ensures AllZero(Subarray(Scrubbed(s[end..]), 0, CommandSize()))
    ensures ncmds + 1 < TWO_32 && sizeofcmds + CommandSize() < TWO_32
    ensures var t := s[..end] + Scrubbed(s[end..]);
            var slack := SlackFrom(t, HEADER_SIZE, ncmds, end, MAX_SAFE_INTEGER);
            && slack.Slack? && slack.room >= CommandSize()
            && InjectAt(s, end, ncmds, sizeofcmds).bytes ==
               WithCounts(Overwrite(t, end, UnlockCommand()), ncmds + 1, sizeofcmds + CommandSize())
  {
    hide OrphanSize, Scrubbed, SlackFrom, UnlockCommand, CommandSize, WithCounts, Overwrite, AllZero, Subarray;
  }

  lemma RoomLeft(t: seq<Byte>, cs: seq<seq<Byte>>, clean: seq<Byte>, end: nat)
    requires Holds(t, HEADER_SIZE, cs, clean) && end <= HEADER_SIZE + TWO_32
    requires var slack := SlackFrom(t, HEADER_SIZE, |cs|, end, MAX_SAFE_INTEGER);
             slack.Slack? && slack.room >= CommandSize()
    ensures LeavesRoom(cs, end, CommandSize())
  {
    hide Holds, LeavesRoom, SlackFrom, CommandSize, WholeSegments;
    CommandSizeIs();
    SlackImage(t, HEADER_SIZE, cs, clean, end, MAX_SAFE_INTEGER, CommandSize());
  }

  lemma CleanHolds(s: seq<Byte>, cs: seq<seq<Byte>>, rest: seq<Byte>, clean: seq<Byte>)
    requires Holds(s, HEADER_SIZE, cs, rest) && |clean| == |rest|
    ensures Holds(s[..HEADER_SIZE + |Flat(cs)|] + clean, HEADER_SIZE, cs, clean)
  {
    hide IsCommand, Flat;
    var end := HEADER_SIZE + |Flat(cs)|;
    assert s[HEADER_SIZE..] == Flat(cs) + rest;
    assert s[HEADER_SIZE..end] == s[HEADER_SIZE..][..|Flat(cs)|] == Flat(cs);
    assert (s[..end] + clean)[HEADER_SIZE..] == s[HEADER_SIZE..end] + clean;
  }

  lemma FlatSnoc(cs: seq<seq<Byte>>, c: seq<Byte>)
    ensures Flat(cs + [c]) == Flat(cs) + c
  {
    FlatConcat(cs, [c]);
    FlatOne(c);
  }

  /** A successful injection with room for the whole command appends it to the commands, scrubs a
      stranded copy, and changes nothing else. */
  lemma InjectAppends(s: seq<Byte>, cs: seq<seq<Byte>>, rest: seq<Byte>)
    requires Image(s, cs, rest) && Inject(s).Injected? && |rest| >= CommandSize()
    ensures |rest| >= 8 && OrphanSize(rest) <= |rest|
    ensures Scrubbed(rest) == Zeros(CommandSize()) + Scrubbed(rest)[CommandSize()..]
    ensures |cs + [UnlockCommand()]| < TWO_32 && |Flat(cs + [UnlockCommand()])| < TWO_32
    ensures Inject(s).bytes == Assemble(s, cs + [UnlockCommand()], Scrubbed(rest)[CommandSize()..])
    ensures Image(Inject(s).bytes, cs + [UnlockCommand()], Scrubbed(rest)[CommandSize()..])
    ensures LeavesRoom(cs, HEADER_SIZE + |Flat(cs)|, CommandSize()) && NoUnlock(cs)
  {
    hide *;
    var u, end := UnlockCommand(), HEADER_SIZE + |Flat(cs)|;
    InjectChecked(s, cs, rest);
    ImageParts(s, cs, rest);
    FlatSnoc(cs, u);
    UnlockCommandIsUnlock();
    GapIsZero(rest);
    var clean := Scrubbed(rest);
    var tail := clean[CommandSize()..];
    OverwriteGap(s, end, clean, u);
    SplitAtEnd(s, cs, rest);
    assert s[..end] + u + tail == s[..HEADER_SIZE] + (Flat(cs) + u) + tail;
    CountsAssemble(s, cs, s[..end] + u + tail, tail, cs + [u]);
    forall i | 0 <= i < |cs + [u]| ensures IsCommand((cs + [u])[i]) { }
    AssembleImage(s, cs + [u], tail);
  }

  lemma ImageParts(s: seq<Byte>, cs: seq<seq<Byte>>, rest: seq<Byte>)
    requires Image(s, cs, rest)
    ensures |s| >= HEADER_SIZE >= 24 && U32(s, 0) == MH_MAGIC_64 && U32(s, 4) == CPU_TYPE_ARM64
    ensures forall i | 0 <= i < |cs| :: IsCommand(cs[i])
    ensures |s| == HEADER_SIZE + |Flat(cs)| + |rest|
  { }

  lemma GapIsZero(rest: seq<Byte>)
    requires |rest| >= CommandSize() && |rest| >= 8 && OrphanSize(rest) <= |rest|
    requires AllZero(Subarray(Scrubbed(rest), 0, CommandSize()))
    ensures Scrubbed(rest) == Zeros(CommandSize()) + Scrubbed(rest)[CommandSize()..]
  {
    hide *;
    ZeroPrefix(Scrubbed(rest), CommandSize());
  }

  lemma ZeroPrefix(s: seq<Byte>, n: nat)
    requires n <= |s| && AllZero(Subarray(s, 0, n))
    ensures s == Zeros(n) + s[n..]
  {
    assert Subarray(s, 0, n) == s[..n];
    AllZeroIs(s[..n]);
  }

  lemma SplitAtEnd(s: seq<Byte>, cs: seq<seq<Byte>>, rest: seq<Byte>)
    requires Image(s, cs, rest)
    ensures HEADER_SIZE + |Flat(cs)| <= |s| && s[..HEADER_SIZE + |Flat(cs)|] == s[..HEADER_SIZE] + Flat(cs)
  {
    hide IsCommand, Flat, U32;
    assert s[HEADER_SIZE..][..|Flat(cs)|] == Flat(cs);
  }

  lemma OverwriteGap(s: seq<Byte>, end: nat, clean: seq<Byte>, u: seq<Byte>)
    requires end <= |s| && |u| <= |clean|
    ensures Overwrite(s[..end] + clean, end, u) == s[..end] + u + clean[|u|..]
  { }

  // ----- Removing -----

  /** Shifting what follows `b` over it and zeroing the vacated end (lines 246-254). */
  lemma ShiftOut(t: seq<Byte>, a: seq<Byte>, b: seq<Byte>, c: seq<Byte>, rest: seq<Byte>)
    requires t == a + b + c + rest
    ensures var size, oldEnd := |b|, |a| + |b| + |c|;
            var shifted := if |a| + size < oldEnd then Overwrite(t, |a|, t[|a| + size..oldEnd]) else t;
            Overwrite(shifted, oldEnd - size, Zeros(size)) == a + c + Zeros(size) + rest
  {
    hide *;
    var size, oldEnd := |b|, |a| + |b| + |c|;
    var front, back := (b + c)[..|c|], (b + c)[|c|..];
    assert t == (a + b) + c + rest;
    Middle(a + b, c, rest);
    assert t == a + front + (back + rest);
    OverwriteMiddle(a, front, back + rest, c);
    if |a| + size < oldEnd {
      assert a + c + (back + rest) == (a + c) + back + rest;
    } else {
      assert t == (a + c) + back + rest;
    }
    OverwriteMiddle(a + c, back, rest, Zeros(size));
  }

  lemma OverwriteMiddle(p: seq<Byte>, q: seq<Byte>, r: seq<Byte>, bs: seq<Byte>)
    requires |bs| == |q|
    ensures Overwrite(p + q + r, |p|, bs) == p + bs + r
  { }

  lemma SplitCommands(cs: seq<seq<Byte>>, k: nat)
    requires k < |cs|
    ensures Flat(cs) == Flat(cs[..k]) + cs[k] + Flat(cs[k + 1..])
    ensures Flat(cs[..k] + cs[k + 1..]) == Flat(cs[..k]) + Flat(cs[k + 1..])
  {
    hide *;
    DecomposeAt(cs, k);
    FlatThree(cs[..k], cs[k], cs[k + 1..]);
  }

  lemma DecomposeAt<T>(cs: seq<T>, k: nat)
    requires k < |cs|
    ensures cs == cs[..k] + [cs[k]] + cs[k + 1..]
  { }

  lemma FlatThree(a: seq<seq<Byte>>, c: seq<Byte>, b: seq<seq<Byte>>)
    ensures Flat(a + [c] + b) == Flat(a) + c + Flat(b)
    ensures Flat(a + b) == Flat(a) + Flat(b)
  {
    hide *;
    FlatConcat(a + [c], b);
    FlatSnoc(a, c);
    FlatConcat(a, b);
  }

  lemma CommandsWithout(cs: seq<seq<Byte>>, k: nat, ds: seq<seq<Byte>>)
    requires k < |cs| && (forall i | 0 <= i < |cs| :: IsCommand(cs[i])) && ds == cs[..k] + cs[k + 1..]
    ensures forall i | 0 <= i < |ds| :: IsCommand(ds[i])
  {
    hide *;
    forall i | 0 <= i < |ds| ensures IsCommand(ds[i]) {
      assert ds[i] == if i < k then cs[i] else cs[i + 1];
    }
  }

  /** Removal deletes the last unlock command, keeps the order of the others, zeroes exactly the
      bytes this frees after them, and changes nothing else. */
  lemma RemoveDeletes(s: seq<Byte>, cs: seq<seq<Byte>>, rest: seq<Byte>, k: nat)
    requires Image(s, cs, rest) && k < |cs| && LastUnlock(cs, k)
    ensures |cs[..k] + cs[k + 1..]| < TWO_32 && |Flat(cs[..k] + cs[k + 1..])| < TWO_32 && |s| >= HEADER_SIZE
    ensures Remove(s) == Removed(Assemble(s, cs[..k] + cs[k + 1..], Zeros(|cs[k]|) + rest))
    ensures Image(Remove(s).bytes, cs[..k] + cs[k + 1..], Zeros(|cs[k]|) + rest)
  {
    hide *;
    var ds := cs[..k] + cs[k + 1..];
    ImageAssembles(s, cs, rest);
    ImageParts(s, cs, rest);
    FindImage(s, HEADER_SIZE, cs, rest, Nothing, k);
    SplitCommands(cs, k);
    RemoveShape(s, cs, rest, k);
    CommandsWithout(cs, k, ds);
    AssembleImage(s, ds, Zeros(|cs[k]|) + rest);
  }

  lemma RemoveShape(s: seq<Byte>, cs: seq<seq<Byte>>, rest: seq<Byte>, k: nat)
    requires |s| >= HEADER_SIZE && k < |cs| < TWO_32 && |Flat(cs)| < TWO_32
    requires ReadHeader(s) == Header(|cs|, |Flat(cs)|) && s == Assemble(s, cs, rest)
    requires FindLast(s, HEADER_SIZE, |cs|, Nothing) == At(HEADER_SIZE + |Flat(cs[..k])|, |cs[k]|)
    requires Flat(cs) == Flat(cs[..k]) + cs[k] + Flat(cs[k + 1..])
    requires Flat(cs[..k] + cs[k + 1..]) == Flat(cs[..k]) + Flat(cs[k + 1..])
    ensures Remove(s) == Removed(Assemble(s, cs[..k] + cs[k + 1..], Zeros(|cs[k]|) + rest))
  {
    hide *;
    var ds := cs[..k] + cs[k + 1..];
    var before, c, after := Flat(cs[..k]), cs[k], Flat(cs[k + 1..]);
    var t := WithCounts(s, |ds|, |Flat(ds)|);
    var head := t[..HEADER_SIZE];
    AssembleBody(s, cs, rest);
    RemoveUnfold(s, |cs|, |Flat(cs)|, HEADER_SIZE + |before|, |c|);
    CountsBody(s, |ds|, |Flat(ds)|);
    ShiftBehind(t, head, before, c, after, rest);
    AssembleIs(s, ds, Zeros(|c|) + rest);
  }

  /** Shifting out a command that stands behind the header and other commands. */
  lemma ShiftBehind(t: seq<Byte>, head: seq<Byte>, before: seq<Byte>, c: seq<Byte>, after: seq<Byte>, rest: seq<Byte>)
    requires t == head + (before + c + after + rest)
    ensures var offset, oldEnd := |head| + |before|, |head| + |before| + |c| + |after|;
            var shifted := if offset + |c| < oldEnd then Overwrite(t, offset, t[offset + |c|..oldEnd]) else t;
            Overwrite(shifted, oldEnd - |c|, Zeros(|c|)) == head + (before + after) + (Zeros(|c|) + rest)
  {
    hide *;
    Regroup(head, before, c, after, rest);
    ShiftOut(t, head + before, c, after, rest);
    Associate(head, before, after);
    Associate(head + (before + after), Zeros(|c|), rest);
  }

  lemma Regroup<T>(a: seq<T>, b: seq<T>, c: seq<T>, d: seq<T>, e: seq<T>)
    ensures a + (b + c + d + e) == (a + b) + c + d + e
  { }

  lemma AssembleBody(s: seq<Byte>, cs: seq<seq<Byte>>, rest: seq<Byte>)
    requires |s| >= HEADER_SIZE && |cs| < TWO_32 && |Flat(cs)| < TWO_32 && s == Assemble(s, cs, rest)
    ensures s[HEADER_SIZE..] == Flat(cs) + rest && |s| == HEADER_SIZE + |Flat(cs)| + |rest|
  {
    hide Flat, LE32;
  }

  lemma AssembleIs(s: seq<Byte>, cs: seq<seq<Byte>>, rest: seq<Byte>)
    requires |s| >= HEADER_SIZE && |cs| < TWO_32 && |Flat(cs)| < TWO_32
    ensures Assemble(s, cs, rest) == WithCounts(s, |cs|, |Flat(cs)|)[..HEADER_SIZE] + Flat(cs) + rest
  { }

  lemma CountsBody(s: seq<Byte>, n: nat, z: nat)
    requires |s| >= HEADER_SIZE && n < TWO_32 && z < TWO_32
    ensures WithCounts(s, n, z) == WithCounts(s, n, z)[..HEADER_SIZE] + s[HEADER_SIZE..]
  {
    hide LE32;
  }

  lemma RemoveUnfold(s: seq<Byte>, n: nat, z: nat, offset: nat, size: nat)
    requires ReadHeader(s) == Header(n, z) && FindLast(s, HEADER_SIZE, n, Nothing) == At(offset, size)
    requires n > 0 && size <= z && offset + size <= |s| && HEADER_SIZE + z <= |s|
    ensures n - 1 < TWO_32 && z - size < TWO_32 && |s| >= 24
    ensures var oldEnd, t := HEADER_SIZE + z, WithCounts(s, n - 1, z - size);
            var shifted := if offset + size < oldEnd then Overwrite(t, offset, t[offset + size..oldEnd]) else t;
            Remove(s) == Removed(Overwrite(shifted, oldEnd - size, Zeros(size)))
  {
    hide FindLast, U32, WithCounts, Overwrite, Zeros, ReadHeader;
  }

  lemma RemoveAbsent(s: seq<Byte>, cs: seq<seq<Byte>>, rest: seq<Byte>)
    requires Image(s, cs, rest) && NoUnlock(cs)
    ensures Remove(s) == Absent
  {
    hide Image, Flat, Holds, ReadHeader, FindLast;
    ImageAssembles(s, cs, rest);
    FindNothing(s, HEADER_SIZE, cs, rest, Nothing);
  }

  // ----- Doing and undoing -----

  /** With room for the whole command, removal takes back what injection added: what remains is the
      original with only a stranded copy scrubbed. */
  lemma InjectThenRemove(s: seq<Byte>, cs: seq<seq<Byte>>, rest: seq<Byte>)
    requires Image(s, cs, rest) && Inject(s).Injected? && |rest| >= CommandSize()
    ensures |s| >= HEADER_SIZE && |cs| < TWO_32 && |Flat(cs)| < TWO_32 && |rest| >= 8 && OrphanSize(rest) <= |rest|
    ensures Remove(Inject(s).bytes) == Removed(Assemble(s, cs, Scrubbed(rest)))
    ensures OrphanSize(rest) == 0 ==> Remove(Inject(s).bytes) == Removed(s)
  {
    hide *;
    var u, tail := UnlockCommand(), [];
    InjectAppends(s, cs, rest);
    ImageAssembles(s, cs, rest);
    tail := Scrubbed(rest)[CommandSize()..];
    var t := Inject(s).bytes;
    LastOfAppended(cs, u);
    assert (cs + [u])[..|cs|] + (cs + [u])[|cs| + 1..] == cs && (cs + [u])[|cs|] == u;
    RemoveDeletes(t, cs + [u], tail, |cs|);
    AssembleHead(s, cs + [u], tail, cs, Zeros(|u|) + tail);
    UnscrubbedRest(rest);
  }

  lemma LastOfAppended(cs: seq<seq<Byte>>, u: seq<Byte>)
    requires u == UnlockCommand()
    ensures LastUnlock(cs + [u], |cs|)
  {
    UnlockCommandIsUnlock();
  }

  lemma UnscrubbedRest(rest: seq<Byte>)
    requires |rest| >= 8 && OrphanSize(rest) <= |rest|
    ensures OrphanSize(rest) == 0 ==> Scrubbed(rest) == rest
  {
    hide OrphanSize;
  }

  /** A second injection finds the first, if the first was whole. */
  lemma FindsWhole(s: seq<Byte>, cs: seq<seq<Byte>>, rest: seq<Byte>)
    requires Image(s, cs, rest) && Inject(s).Injected? && |rest| >= CommandSize()
    ensures Inject(Inject(s).bytes) == Already
  {
    var u := UnlockCommand();
    InjectAppends(s, cs, rest);
    UnlockCommandIsUnlock();
    hide Inject, Image, IsUnlock, UnlockCommand, CommandSize;
    assert (cs + [u])[|cs|] == u && !NoUnlock(cs + [u]);
    AlreadyExactly(Inject(s).bytes, cs + [u], Scrubbed(rest)[CommandSize()..]);
  }

  /** Injecting again after removing our own last command restores the file, if it injects at all. */
  lemma RemoveThenInject(s: seq<Byte>, cs: seq<seq<Byte>>, rest: seq<Byte>)
    requires Image(s, cs + [UnlockCommand()], rest) && NoUnlock(cs)
    ensures Remove(s).Removed?
    ensures Inject(Remove(s).bytes).Injected? ==> Inject(Remove(s).bytes) == Injected(s)
  {
    hide *;
    var u := UnlockCommand();
    LastOfAppended(cs, u);
    assert (cs + [u])[..|cs|] + (cs + [u])[|cs| + 1..] == cs && (cs + [u])[|cs|] == u;
    RemoveDeletes(s, cs + [u], rest, |cs|);
    var t, gap := Remove(s).bytes, Zeros(|u|) + rest;
    ImageAssembles(s, cs + [u], rest);
    if Inject(t).Injected? {
      ZeroNotOrphan(gap);
      InjectAppends(t, cs, gap);
      AssembleHead(s, cs, gap, cs + [u], rest);
      assert gap[CommandSize()..] == rest;
    }
  }

  lemma ZeroNotOrphan(gap: seq<Byte>)
    requires |gap| >= CommandSize() && gap[..CommandSize()] == Zeros(CommandSize())
    ensures |gap| >= 8 && OrphanSize(gap) == 0 && Scrubbed(gap) == gap
  {
    assert forall i | 0 <= i < 4 :: gap[i] == gap[..CommandSize()][i];
    NoOrphan(gap);
  }

  lemma NoOrphan(gap: seq<Byte>)
    requires |gap| >= 8 && gap[0] == gap[1] == gap[2] == gap[3] == 0
    ensures OrphanSize(gap) == 0 && Scrubbed(gap) == gap
  {
    hide *;
    ZeroWord(gap);
    NotOurs(gap);
    UnscrubbedRest(gap);
  }

  lemma ZeroWord(gap: seq<Byte>)
    requires |gap| >= 4 && gap[0] == gap[1] == gap[2] == gap[3] == 0
    ensures U32(gap, 0) != LC_LOAD_DYLIB
  { }

  lemma NotOurs(gap: seq<Byte>)
    requires |gap| >= 8 && U32(gap, 0) != LC_LOAD_DYLIB
    ensures OrphanSize(gap) == 0
  {
    hide U32, NamesUnlock, Subarray;
  }

  // ----- Files that end within the gap -----

  /** With less room than the command needs, and no segment to notice it, the source still reports
      success, having written only the part that fits. */
  lemma InjectTruncates(s: seq<Byte>, cs: seq<seq<Byte>>, rest: seq<Byte>)
    requires Image(s, cs, rest) && Inject(s).Injected? && |rest| < CommandSize()
    ensures |rest| >= 8 && |cs| + 1 < TWO_32 && |Flat(cs)| + CommandSize() < TWO_32 && |s| >= HEADER_SIZE &&
            NoUnlock(cs)
    ensures Inject(s).bytes
         == WithCounts(s, |cs| + 1, |Flat(cs)| + CommandSize())[..HEADER_SIZE] + Flat(cs) + UnlockCommand()[..|rest|]
  {
    hide *;
    var end, u := HEADER_SIZE + |Flat(cs)|, UnlockCommand();
    InjectChecked(s, cs, rest);
    ImageParts(s, cs, rest);
    SplitAtEnd(s, cs, rest);
    OverwriteEnd(s, end, Scrubbed(rest), u);
    var part := u[..|rest|];
    assert s[..end] + part == s[..HEADER_SIZE] + (Flat(cs) + part);
    WithCountsHead(s, Flat(cs) + part, |cs| + 1, |Flat(cs)| + CommandSize());
    assert WithCounts(s, |cs| + 1, |Flat(cs)| + CommandSize())[..HEADER_SIZE] + (Flat(cs) + part)
        == WithCounts(s, |cs| + 1, |Flat(cs)| + CommandSize())[..HEADER_SIZE] + Flat(cs) + part;
  }

  lemma OverwriteEnd(s: seq<Byte>, end: nat, clean: seq<Byte>, u: seq<Byte>)
    requires end <= |s| && |clean| < |u|
    ensures Overwrite(s[..end] + clean, end, u) == s[..end] + u[..|clean|]
  { }

  lemma WithCountsHead(s: seq<Byte>, body: seq<Byte>, n: nat, z: nat)
    requires |s| >= HEADER_SIZE && n < TWO_32 && z < TWO_32
    ensures WithCounts(s[..HEADER_SIZE] + body, n, z) == WithCounts(s, n, z)[..HEADER_SIZE] + body
  {
    hide LE32;
  }

  /** What a truncated injection leaves, as a walk sees it: the old commands, and the beginning of ours. */
  lemma TruncatedShape(s: seq<Byte>, cs: seq<seq<Byte>>, rest: seq<Byte>)
    requires Image(s, cs, rest) && Inject(s).Injected? && |rest| < CommandSize()
    ensures |rest| >= 8 && NoUnlock(cs) && ReadHeader(Inject(s).bytes) == Header(|cs| + 1, |Flat(cs)| + CommandSize())
    ensures Holds(Inject(s).bytes, HEADER_SIZE, cs, UnlockCommand()[..|rest|])
    ensures |Inject(s).bytes| == HEADER_SIZE + |Flat(cs)| + |rest|
    ensures Inject(s).bytes[HEADER_SIZE + |Flat(cs)|..] == UnlockCommand()[..|rest|]
  {
    hide *;
    var t, n, z, part := Inject(s).bytes, |cs| + 1, |Flat(cs)| + CommandSize(), UnlockCommand()[..|rest|];
    InjectTruncates(s, cs, rest);
    ImageParts(s, cs, rest);
    var head := WithCounts(s, n, z)[..HEADER_SIZE];
    assert t == head + (Flat(cs) + part);
    CountsRead(s, n, z, Flat(cs) + part);
    HeaderIs(t, n, z);
    assert t[HEADER_SIZE..] == Flat(cs) + part;
    HoldsIs(t, cs, part);
    assert t[HEADER_SIZE + |Flat(cs)|..] == part;
  }

  /** Removal never undoes a truncated injection. */
  lemma TruncatedStays(s: seq<Byte>, cs: seq<seq<Byte>>, rest: seq<Byte>)
    requires Image(s, cs, rest) && Inject(s).Injected? && |rest| < CommandSize()
    ensures !Remove(Inject(s).bytes).Removed?
  {
    hide *;
    var t, part, end := Inject(s).bytes, UnlockCommand()[..|rest|], HEADER_SIZE + |Flat(cs)|;
    TruncatedShape(s, cs, rest);
    FindThrough(t, HEADER_SIZE, cs, part, Nothing, 1);
    PartSize(t, end, part);
    FindStep(t, end, 1, Nothing);
    RemoveBeyond(t, |cs| + 1, |Flat(cs)| + CommandSize(), end);
  }

  /** The beginning of our command is recognized exactly when it reaches past the install name. */
  lemma PartRecognized(t: seq<Byte>, end: nat, part: seq<Byte>)
    requires end <= |t| && t[end..] == part && 8 <= |part| <= CommandSize() && part == UnlockCommand()[..|part|]
    ensures end + 8 <= |t| && (UnlockAt(t, end) <==> |part| >= 24 + |INSTALL_NAME| + 1)
  {
    hide U32, LE32, NamesUnlock, Ascii, Zeros;
    var u, name := UnlockCommand(), Ascii(INSTALL_NAME);
    CommandSizeIs();
    PartSize(t, end, part);
    assert u[0..4] == LE32(LC_LOAD_DYLIB);
    assert t[end..end + 4] == part[0..4] == u[0..4];
    LE32Read(LC_LOAD_DYLIB, t, end);
    assert u[24..] == name + Zeros(CommandSize() - 24 - |INSTALL_NAME|);
    var payload := Subarray(t, end + 24, end + CommandSize());
    NamesUnlockExactly(payload);
    if |part| >= 24 {
      assert payload == part[24..] == u[24..][..|part| - 24];
      PrefixReaches(name, Zeros(CommandSize() - 24 - |INSTALL_NAME|), |part| - 24);
    } else {
      assert payload == [];
    }
  }

  lemma PrefixReaches(name: seq<Byte>, zeros: seq<Byte>, k: nat)
    requires zeros != [] && zeros[0] == 0 && k <= |name| + |zeros|
    ensures name + [0] <= (name + zeros)[..k] <==> k >= |name| + 1
  {
    if k >= |name| + 1 {
      assert (name + zeros)[..k][..|name| + 1] == name + [0];
    }
  }

  /** A second injection answers `already` exactly when the first reached past the install name; where it
      did not, the file was truncated and the second one fails. */
  lemma InjectTwice(s: seq<Byte>, cs: seq<seq<Byte>>, rest: seq<Byte>)
    requires Image(s, cs, rest) && Inject(s).Injected?
    ensures Inject(Inject(s).bytes) == Already <==> |rest| >= 24 + |INSTALL_NAME| + 1
    ensures Inject(Inject(s).bytes) == Already || Inject(Inject(s).bytes) == InjectFailed(OutOfRange)
  {
    hide *;
    CommandSizeIs();
    if |rest| >= CommandSize() {
      FindsWhole(s, cs, rest);
    } else {
      var t, part, end := Inject(s).bytes, UnlockCommand()[..|rest|], HEADER_SIZE + |Flat(cs)|;
      TruncatedShape(s, cs, rest);
      ScanThrough(t, HEADER_SIZE, cs, part, 1);
      PartRecognized(t, end, part);
      PartSize(t, end, part);
      ScanStep(t, end, 1);
      InjectBeyond(t, |cs| + 1, |Flat(cs)| + CommandSize(), end);
    }
  }

  lemma InjectBeyond(t: seq<Byte>, n: nat, z: nat, end: nat)
    requires ReadHeader(t) == Header(n, z) && HEADER_SIZE + z == end + CommandSize() > |t|
    requires end + 8 <= |t| && U32(t, end + 4) == CommandSize()
    requires ScanFor(t, HEADER_SIZE, n) == if UnlockAt(t, end) then Present else ScanFor(t, end + CommandSize(), 0)
    ensures Inject(t) == if UnlockAt(t, end) then Already else InjectFailed(OutOfRange)
  {
    hide U32, UnlockAt, ReadHeader, InjectAt;
    if !UnlockAt(t, end) { ScanEmpty(t, end + CommandSize()); }
  }

  lemma ScanEmpty(s: seq<Byte>, off: nat)
    ensures ScanFor(s, off, 0) == ScanEnd(off)
  {}

  lemma HeaderIs(t: seq<Byte>, n: nat, z: nat)
    requires |t| >= HEADER_SIZE && U32(t, 0) == MH_MAGIC_64 && U32(t, 4) == CPU_TYPE_ARM64 && U32(t, 16) == n &&
             U32(t, 20) == z
    ensures ReadHeader(t) == Header(n, z)
  {
    hide U32;
  }

  lemma HoldsIs(t: seq<Byte>, cs: seq<seq<Byte>>, rest: seq<Byte>)
    requires |t| >= HEADER_SIZE && t[HEADER_SIZE..] == Flat(cs) + rest && forall i | 0 <= i < |cs| :: IsCommand(cs[i])
    ensures Holds(t, HEADER_SIZE, cs, rest)
  { }

  lemma PartSize(t: seq<Byte>, end: nat, part: seq<Byte>)
    requires end <= |t| && t[end..] == part && |part| >= 8 && |part| <= CommandSize() &&
             part == UnlockCommand()[..|part|]
    ensures end + 8 <= |t| && U32(t, end + 4) == CommandSize()
  {
    var u := UnlockCommand();
    assert u[4..8] == LE32(CommandSize());
    assert t[end + 4..end + 8] == part[4..8] == u[4..8];
    LE32Read(CommandSize(), t, end + 4);
  }

  lemma RemoveBeyond(t: seq<Byte>, n: nat, z: nat, end: nat)
    requires ReadHeader(t) == Header(n, z) && end + 8 <= |t| < end + CommandSize() && U32(t, end + 4) == CommandSize()
    requires FindLast(t, HEADER_SIZE, n, Nothing)
          == FindLast(t, end + U32(t, end + 4), 0, if UnlockAt(t, end) then At(end, U32(t, end + 4)) else Nothing)
    ensures !Remove(t).Removed?
  {
    FindEnd(t, end + CommandSize(), if UnlockAt(t, end) then At(end, CommandSize()) else Nothing);
    hide U32, UnlockAt, WithCounts, Overwrite, CommandSize, FindLast, ReadHeader;
  }

  /** Removal gives back the file as it was, a stranded copy scrubbed, exactly when the file has room for
      the whole command after the commands it had. */
  lemma UndoneExactly(s: seq<Byte>, cs: seq<seq<Byte>>, rest: seq<Byte>)
    requires Image(s, cs, rest) && Inject(s).Injected?
    ensures |s| >= HEADER_SIZE && |cs| < TWO_32 && |Flat(cs)| < TWO_32 && |rest| >= 8 && OrphanSize(rest) <= |rest|
    ensures Remove(Inject(s).bytes) == Removed(Assemble(s, cs, Scrubbed(rest))) <==> |rest| >= CommandSize()
    ensures OrphanSize(rest) == 0 ==> Assemble(s, cs, Scrubbed(rest)) == s
  {
    hide *;
    InjectChecked(s, cs, rest);
    ImageParts(s, cs, rest);
    ImageAssembles(s, cs, rest);
    if OrphanSize(rest) == 0 { UnscrubbedRest(rest); }
    if |rest| >= CommandSize() {
      InjectThenRemove(s, cs, rest);
    } else {
      TruncatedStays(s, cs, rest);
    }
  }

  /** A file that shows it: a bare header and eight bytes of padding. */
  lemma TruncatedFile() returns (s: seq<Byte>)
    ensures Image(s, [], Zeros(8)) && Inject(s).Injected? && !Remove(Inject(s).bytes).Removed?
  {
    var head := BareHeader();
    assert |Flat([])| == 0;
    s := Assemble(head, [], Zeros(8));
    AssembleImage(head, [], Zeros(8));
    InjectsBare(s);
    TruncatedStays(s, [], Zeros(8));
  }

  lemma BareHeader() returns (head: seq<Byte>)
    ensures |head| == HEADER_SIZE && U32(head, 0) == MH_MAGIC_64 && U32(head, 4) == CPU_TYPE_ARM64
  {
    hide LE32, Compose;
    head := LE32(MH_MAGIC_64) + LE32(CPU_TYPE_ARM64) + Zeros(24);
    assert head[0..4] == LE32(MH_MAGIC_64) && head[4..8] == LE32(CPU_TYPE_ARM64);
    LE32Read(MH_MAGIC_64, head, 0);
    LE32Read(CPU_TYPE_ARM64, head, 4);
  }

  lemma InjectsBare(s: seq<Byte>)
    requires Image(s, [], Zeros(8))
    ensures Inject(s).Injected?
  {
    hide *;
    NoCommands([]);
    ImageAssembles(s, [], Zeros(8));
    ScanThrough(s, HEADER_SIZE, [], Zeros(8), 0);
    InjectsPadded(s);
  }

  lemma InjectsPadded(s: seq<Byte>)
    requires ReadHeader(s) == Header(0, 0) && HEADER_SIZE <= |s| && s[HEADER_SIZE..] == Zeros(8)
    ensures Inject(s).Injected?
  {
    NoOrphanInZeros();
    CommandSizeIs();
    hide ReadHeader, OrphanSize, Scrubbed, U32, UnlockCommand, WithCounts, CommandSize, UnlockAt, Overwrite;
    assert Inject(s) == InjectAt(s, HEADER_SIZE, 0, 0);
  }

  lemma NoOrphanInZeros()
    ensures OrphanSize(Zeros(8)) == 0 && Scrubbed(Zeros(8)) == Zeros(8)
  {
    NoOrphan(Zeros(8));
  }
}
