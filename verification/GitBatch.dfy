/** Reading files out of one `git cat-file --batch` answer (`readGitFiles`,
    scripts/benchmark-npm-resolution.ts:145-169). The answer is a string of bytes: for each object a
    header, a newline, as many bytes as the header says, and a newline. */
module GitBatch {
  import opened Sequences
  import opened Wrappers
  import opened Text
  import opened Decimals
  import opened Numbers

  datatype Failure =
      NoHeader(path: string) | Missing(path: string) | InvalidSize(path: string) | Truncated(path: string)

  predicate EndsWith(s: string, t: string) { |s| >= |t| && s[|s| - |t|..] == t }

  /** The size a header announces, if it is one the script accepts. */
  function SizeOf(header: string): Option<nat> {
    var parts := Split(header, ' ');
    match ParseInt(if |parts| > 2 then parts[2] else "")
    case Some(n) => if 0 <= n <= MAX_SAFE_INTEGER then Some(n) else None
    case None => None
  }

  /** The content of the first object and where the next one begins. */
  function ReadOne(output: string, offset: nat, path: string): (r: Result<(string, nat), Failure>)
    ensures r.Ok? ==> offset < r.value.1 <= |output|
  {
    match IndexOf(output, '\n', offset)
    case None => Err(NoHeader(path))
    case Some(headerEnd) =>
      var header := output[offset..headerEnd];
      if EndsWith(header, " missing") then Err(Missing(path))
      else match SizeOf(header)
        case None => Err(InvalidSize(path))
        case Some(size) =>
          var end := headerEnd + 1 + size;
          if end >= |output| || output[end] != '\n' then Err(Truncated(path))
          else Ok((output[headerEnd + 1..end], end + 1))
  }

  /** The contents by path and the offset the loop ends at. */
  function ReadFrom(output: string, offset: nat, paths: seq<string>, contents: map<string, string>)
    : Result<(map<string, string>, nat), Failure>
    decreases |paths|
  {
    if paths == [] then Ok((contents, offset))
    else match ReadOne(output, offset, paths[0])
      case Err(e) => Err(e)
      case Ok(one) => ReadFrom(output, one.1, paths[1..], contents[paths[0] := one.0])
  }

  lemma NextFile(output: string, offset: nat, paths: seq<string>, i: nat, contents: map<string, string>)
    requires i < |paths|
    ensures ReadFrom(output, offset, paths[i..], contents) ==
            match ReadOne(output, offset, paths[i])
            case Err(e) => Err(e)
            case Ok(one) => ReadFrom(output, one.1, paths[i + 1..], contents[paths[i] := one.0])
  {
    assert paths[i..][1..] == paths[i + 1..];
  }

  lemma NoFiles(output: string, offset: nat, paths: seq<string>, contents: map<string, string>)
    requires paths == []
    ensures ReadFrom(output, offset, paths, contents) == Ok((contents, offset))
  {}

  method ReadGitFiles(output: string, paths: seq<string>) returns (r: Result<map<string, string>, Failure>)
    ensures r == match ReadFrom(output, 0, paths, map[]) case Ok(read) => Ok(read.0) case Err(failure) => Err(failure)
  {
    hide IndexOf, SizeOf, EndsWith, ReadFrom;
    var contents: map<string, string> := map[];
    assert paths[0..] == paths;
    var offset := 0;
    var i := 0;
    while i < |paths|
      invariant 0 <= i <= |paths|
      invariant ReadFrom(output, offset, paths[i..], contents) == ReadFrom(output, 0, paths, map[])
    {
      var path := paths[i];
      NextFile(output, offset, paths, i, contents);
      var headerEnd := IndexOf(output, '\n', offset);
      if headerEnd.None? { return Err(NoHeader(path)); }
      var header := output[offset..headerEnd.value];
      if EndsWith(header, " missing") { return Err(Missing(path)); }
      var size := SizeOf(header);
      if size.None? { return Err(InvalidSize(path)); }
      var contentStart := headerEnd.value + 1;
      var contentEnd := contentStart + size.value;
      if contentEnd >= |output| || output[contentEnd] != '\n' { return Err(Truncated(path)); }
      contents := contents[path := output[contentStart..contentEnd]];
      offset := contentEnd + 1;
      i := i + 1;
    }
    NoFiles(output, offset, paths[i..], contents);
    return Ok(contents);
  }

  // ----- The framing -----

  datatype Frame = Frame(header: string, content: string)

  function Encoded(f: Frame): string { f.header + "\n" + f.content + "\n" }

  function Stream(fs: seq<Frame>): string {
    if fs == [] then [] else Encoded(fs[0]) + Stream(fs[1..])
  }

  /** A header on one line that announces an object of this very size. */
  predicate Sound(f: Frame) {
    '\n' !in f.header && !EndsWith(f.header, " missing") && SizeOf(f.header) == Some(|f.content|)
  }

  predicate AllSound(fs: seq<Frame>) { forall i | 0 <= i < |fs| :: Sound(fs[i]) }

  /** The files read off the frames: a path asked for twice keeps its last content. */
  function Files(paths: seq<string>, fs: seq<Frame>, contents: map<string, string>): map<string, string>
    requires |paths| == |fs|
  {
    if paths == [] then contents else Files(paths[1..], fs[1..], contents[paths[0] := fs[0].content])
  }

  /** The header git writes for an object it has. */
  function HeaderOf(oid: string, size: nat): string { oid + " blob " + Decimal(size) }

  lemma {:induction false} IndexAt(s: string, c: char, from: nat, i: nat)
    requires from <= i < |s| && s[i] == c && c !in s[from..i]
    ensures IndexOf(s, c, from) == Some(i)
    decreases i - from
  {
    if from < i {
      assert s[from] in s[from..i];
      assert s[from + 1..i] == s[from..i][1..];
      IndexAt(s, c, from + 1, i);
    }
  }

  /** A sound frame is read back whole, whatever comes before and after it. */
  lemma ReadsFrame(before: string, f: Frame, rest: string, path: string)
    requires Sound(f)
    ensures ReadOne(before + Encoded(f) + rest, |before|, path) == Ok((f.content, |before| + |Encoded(f)|))
  {
    var output := before + Encoded(f) + rest;
    var h := |before| + |f.header|;
    assert output == before + f.header + "\n" + (f.content + "\n" + rest);
    assert output[|before|..h] == f.header;
    assert output[h] == '\n';
    IndexAt(output, '\n', |before|, h);
    assert output[h + 1..h + 1 + |f.content|] == f.content;
    assert output[h + 1 + |f.content|] == '\n';
  }

  /** Without a line there is no header. */
  lemma NoLine(before: string, header: string, path: string)
    requires '\n' !in header
    ensures ReadOne(before + header, |before|, path) == Err(NoHeader(path))
  {
    var output := before + header;
    assert forall j | |before| <= j < |output| :: output[j] == header[j - |before|];
    assert IndexOf(output, '\n', |before|) == None;
  }

  /** Behind a header line, what is wrong decides the error: a header that says the object is missing, one without
      a size, or less content than it announces. */
  lemma FailsAt(before: string, header: string, rest: string, path: string)
    requires '\n' !in header
    ensures var r := ReadOne(before + (header + ("\n" + rest)), |before|, path);
            if EndsWith(header, " missing") then r == Err(Missing(path))
            else match SizeOf(header)
              case None => r == Err(InvalidSize(path))
              case Some(size) => if size >= |rest| || rest[size] != '\n' then r == Err(Truncated(path)) else r.Ok?
  {
    var output := before + (header + ("\n" + rest));
    HeaderLine(before, header, rest);
    hide SizeOf, EndsWith, IndexOf;
    match SizeOf(header)
    case None =>
    case Some(size) => if size < |rest| { assert output[|before| + |header| + 1 + size] == rest[size]; }
  }

  lemma HeaderLine(before: string, header: string, rest: string)
    requires '\n' !in header
    ensures var output := before + (header + ("\n" + rest)); var h := |before| + |header|;
            && |output| == h + 1 + |rest| && IndexOf(output, '\n', |before|) == Some(h) && output[|before|..h] == header
  {
    var output := before + (header + ("\n" + rest));
    var h := |before| + |header|;
    assert output[|before|..h] == header && output[h] == '\n';
    IndexAt(output, '\n', |before|, h);
  }

  lemma Pieces(s: string, from: nat, h: nat, end: nat)
    requires from <= h < end - 1 < |s|
    ensures s[from..end] == s[from..h] + [s[h]] + s[h + 1..end - 1] + [s[end - 1]]
  {}

  /** What is read is a sound frame standing right there. */
  lemma ReadIsFrame(output: string, offset: nat, path: string) returns (f: Frame)
    requires ReadOne(output, offset, path).Ok?
    ensures Sound(f) && f.content == ReadOne(output, offset, path).value.0
    ensures output[offset..ReadOne(output, offset, path).value.1] == Encoded(f)
  {
    hide SizeOf, EndsWith, IndexOf;
    var h := IndexOf(output, '\n', offset).value;
    var end := ReadOne(output, offset, path).value.1;
    f := Frame(output[offset..h], ReadOne(output, offset, path).value.0);
    Pieces(output, offset, h, end);
    assert forall k | 0 <= k < h - offset :: f.header[k] == output[offset + k];
  }

  // ----- Reading back every frame -----

  /** From any point of the output, the frames that stand there are read, in order. */
  lemma {:induction false} ReadsFrames(before: string, fs: seq<Frame>, rest: string, paths: seq<string>,
                                       contents: map<string, string>)
    requires |fs| == |paths| && AllSound(fs)
    ensures ReadFrom(before + (Stream(fs) + rest), |before|, paths, contents)
         == Ok((Files(paths, fs, contents), |before| + |Stream(fs)|))
    decreases |paths|
  {
    hide ReadOne, Sound, Encoded;
    if paths != [] {
      var f, more := fs[0], Stream(fs[1..]) + rest;
      Associate(Encoded(f), Stream(fs[1..]), rest);
      Associate(before, Encoded(f), more);
      ReadsFrame(before, f, more, paths[0]);
      ReadsFrames(before + Encoded(f), fs[1..], rest, paths[1..], contents[paths[0] := f.content]);
    }
  }

  lemma {:induction false} ReadAreFrames(output: string, offset: nat, paths: seq<string>, contents: map<string,
                                         string>) returns (fs: seq<Frame>)
    requires offset <= |output| && ReadFrom(output, offset, paths, contents).Ok?
    ensures |fs| == |paths| && AllSound(fs) && Stream(fs) <= output[offset..]
    ensures ReadFrom(output, offset, paths, contents).value.1 == offset + |Stream(fs)|
    decreases |paths|
  {
    hide ReadOne, Sound, Encoded;
    if paths == [] {
      fs := [];
    } else {
      var one := ReadOne(output, offset, paths[0]).value;
      var f := ReadIsFrame(output, offset, paths[0]);
      var more := ReadAreFrames(output, one.1, paths[1..], contents[paths[0] := one.0]);
      fs := [f] + more;
      assert fs[1..] == more;
      PrefixOn(output, offset, one.1, Stream(more));
    }
  }

  lemma PrefixOn(s: string, from: nat, mid: nat, t: string)
    requires from <= mid <= |s| && t <= s[mid..]
    ensures s[from..mid] + t <= s[from..]
  {
    assert s[from..] == s[from..mid] + s[mid..];
  }

  ghost predicate IsAnswer(output: string, paths: seq<string>, fs: seq<Frame>) {
    |fs| == |paths| && AllSound(fs) && Stream(fs) <= output
  }

  /** Reading succeeds exactly when the output begins with one sound frame per path, and then returns
      their contents, whatever bytes they hold, and ends right behind them: with the output exactly
      when it is those frames and nothing else. */
  lemma ReadsExactly(output: string, paths: seq<string>)
    ensures ReadFrom(output, 0, paths, map[]).Ok? <==> exists fs :: IsAnswer(output, paths, fs)
    ensures forall fs | IsAnswer(output, paths, fs) ::
              && ReadFrom(output, 0, paths, map[]) == Ok((Files(paths, fs, map[]), |Stream(fs)|))
              && (ReadFrom(output, 0, paths, map[]).value.1 == |output| <==> output == Stream(fs))
  {
    hide AllSound, ReadFrom, Stream, Files;
    if ReadFrom(output, 0, paths, map[]).Ok? {
      var fs := ReadAreFrames(output, 0, paths, map[]);
      assert output[0..] == output;
      assert IsAnswer(output, paths, fs);
    }
    forall fs | IsAnswer(output, paths, fs)
      ensures ReadFrom(output, 0, paths, map[]) == Ok((Files(paths, fs, map[]), |Stream(fs)|))
      ensures |Stream(fs)| == |output| <==> output == Stream(fs)
    {
      var rest := output[|Stream(fs)|..];
      ReadsFrames("", fs, rest, paths, map[]);
      assert "" + (Stream(fs) + rest) == output;
    }
  }

  /** With no path asked for twice, every path gets the content of its own frame. */
  lemma {:induction false} FilesByPath(paths: seq<string>, fs: seq<Frame>, contents: map<string, string>)
    requires |paths| == |fs| && forall i, j | 0 <= i < j < |paths| :: paths[i] != paths[j]
    ensures forall i | 0 <= i < |paths| ::
              paths[i] in Files(paths, fs, contents) && Files(paths, fs, contents)[paths[i]] == fs[i].content
    ensures forall p | p !in paths :: p in Files(paths, fs, contents) <==> p in contents
    ensures forall p | p !in paths && p in contents :: Files(paths, fs, contents)[p] == contents[p]
  {
    if paths != [] {
      var c := contents[paths[0] := fs[0].content];
      FilesByPath(paths[1..], fs[1..], c);
      assert paths[0] !in paths[1..];
      forall i | 0 <= i < |paths|
        ensures paths[i] in Files(paths, fs, contents) && Files(paths, fs, contents)[paths[i]] == fs[i].content
      {
        if i > 0 { assert paths[1..][i - 1] == paths[i] && fs[1..][i - 1] == fs[i]; }
      }
      assert forall p | p !in paths :: p !in paths[1..];
    }
  }

  // ----- Git's own headers -----

  predicate IsOid(oid: string) { ' ' !in oid && '\n' !in oid }

  lemma DigitsHold(n: nat, c: char)
    requires !IsDigit(c)
    ensures c !in Decimal(n)
  {}

  lemma HeaderParts(oid: string, n: nat)
    requires IsOid(oid)
    ensures Split(HeaderOf(oid, n), ' ') == [oid, "blob", Decimal(n)]
  {
    DigitsHold(n, ' ');
    assert HeaderOf(oid, n) == oid + [' '] + ("blob" + [' '] + Decimal(n));
    SplitBetween(oid, "blob" + [' '] + Decimal(n), ' ');
    SplitBetween("blob", Decimal(n), ' ');
    SplitWhole(oid, ' ');
    SplitWhole("blob", ' ');
    SplitWhole(Decimal(n), ' ');
  }

  lemma EndsAlike(s: string, t: string)
    requires t != []
    ensures EndsWith(s, t) ==> s != [] && s[|s| - 1] == t[|t| - 1]
  {
    if EndsWith(s, t) {
      assert s[|s| - |t|..][|t| - 1] == t[|t| - 1];
    }
  }

  /** A frame with git's header for its content is sound, up to the size numbers can hold. */
  lemma GitFrameSound(oid: string, content: string)
    requires IsOid(oid)
    ensures Sound(Frame(HeaderOf(oid, |content|), content)) <==> |content| <= MAX_SAFE_INTEGER
  {
    var n := |content|;
    var header := HeaderOf(oid, n);
    HeaderParts(oid, n);
    ParseDecimal(n, "");
    assert Decimal(n) + "" == Decimal(n);
    DigitsHold(n, '\n');
    assert IsDigit(header[|header| - 1]);
    EndsAlike(header, " missing");
  }
}
